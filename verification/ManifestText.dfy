/** The JSON text of a backup's manifest (internal/server/backup.go): that an encoder which writes it needs at most
    256 bytes to an entry. */
module ManifestText {
  import Archives
  import opened Backups
  import opened BackupRoundTrip

  function Decimal(n: nat): string {
    if n < 10 then ["0123456789"[n]] else Decimal(n / 10) + ["0123456789"[n % 10]]
  }

  function EntryText(name: string, e: ManifestEntry): string
    requires e.size >= 0
  {
    "\"" + name + "\":{\"size\":" + Decimal(e.size) + ",\"sha256\":\"" + e.sha256 + "\"}"
  }

  /** The entries of these names, with commas between them. */
  function EntriesText(files: map<string, ManifestEntry>, names: seq<string>): string
    requires forall name :: name in names ==> name in files && files[name].size >= 0
  {
    if names == [] then ""
    else
      var front, last := names[..|names| - 1], names[|names| - 1];
      EntriesText(files, front) + (if front == [] then "" else ",") + EntryText(last, files[last])
  }

  /** The text of a manifest, with its names in some order: the encoder sorts them. */
  function Text(m: Manifest, names: seq<string>): string
    requires forall name :: name in names ==> name in m.files && m.files[name].size >= 0
  {
    "{\"format\":1,\"createdAt\":\"" + m.createdAt + "\",\"files\":{" + EntriesText(m.files, names) + "}}\n"
  }

  /** Every key of a map once. */
  ghost predicate Lists(names: seq<string>, keys: set<string>) {
    (forall name :: name in names <==> name in keys) && |names| == |keys|
  }

  /** The encoder's output for plain manifests, a byte to each character. */
  ghost predicate WritesJson(codec: Codec) {
    forall m: Manifest, names: seq<string> :: PlainManifest(m) && Lists(names, m.files.Keys) ==>
      |codec.writeManifest(m)| == |Text(m, names)|
  }

  lemma {:induction false} DecimalDigits(n: nat, digits: nat, bound: nat)
    requires digits >= 1 && n < bound && bound == Power10(digits)
    ensures |Decimal(n)| <= digits
    decreases digits
  {
    if n >= 10 {
      DecimalDigits(n / 10, digits - 1, bound / 10);
    }
  }

  function Power10(n: nat): nat {
    if n == 0 then 1 else 10 * Power10(n - 1)
  }

  lemma TenDigits(n: nat)
    requires n <= MAX_STORED_BOOK
    ensures |Decimal(n)| <= 10
  {
    assert Power10(5) == 100000;
    assert Power10(10) == 10000000000;
    DecimalDigits(n, 10, 10000000000);
  }

  /** A name of at most 142 characters, a digest of 64, a size of at most ten digits, and 24 characters around them. */
  lemma EntryFits(name: string, e: ManifestEntry)
    requires PlainEntry(name, e)
    ensures |EntryText(name, e)| <= 240
  {
    TenDigits(e.size);
    NameLength(name);
  }

  lemma NameLength(name: string)
    requires Archives.IsArchiveName(name)
    ensures |name| <= 142
  {
    if name != Archives.DB_NAME {
      Archives.FormatsArePlain(name[138..]);
    }
  }

  lemma {:induction false} EntriesFit(files: map<string, ManifestEntry>, names: seq<string>)
    requires forall name :: name in names ==> name in files && files[name].size >= 0
    requires forall name :: name in names ==> PlainEntry(name, files[name])
    ensures |EntriesText(files, names)| <= 241 * |names|
  {
    if names != [] {
      var front, last := names[..|names| - 1], names[|names| - 1];
      assert last in names && forall name :: name in front ==> name in names;
      EntriesFit(files, front);
      EntryFits(last, files[last]);
    }
  }

  lemma {:induction false} KeysListed(keys: set<string>) returns (names: seq<string>)
    ensures Lists(names, keys)
  {
    names := [];
    if keys != {} {
      var key :| key in keys;
      var rest := KeysListed(keys - {key});
      names := rest + [key];
    }
  }

  /** An encoder that writes this text writes compact manifests. */
  lemma JsonIsCompact(codec: Codec)
    requires WritesJson(codec)
    ensures CompactManifests(codec)
  {
    forall m: Manifest | PlainManifest(m) ensures |codec.writeManifest(m)| <= MAX_ENTRY * (|m.files| + 1) {
      var names := KeysListed(m.files.Keys);
      EntriesFit(m.files, names);
      assert |codec.writeManifest(m)| == |Text(m, names)|;
      assert |m.files.Keys| == |m.files|;
    }
  }
}
