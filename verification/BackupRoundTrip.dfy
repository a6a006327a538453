/** `Backup` (internal/server/backup.go) and the round trip through `RestoreBackup`. */
module BackupRoundTrip {
  import opened Text
  import Operations
  import opened BookFiles
  import opened Archives
  import opened Backups

  /** The deletions that the snapshot gets before it is packed. */
  function Scrubbed(db: Db): Db {
    db.(sessions := {}, opdsPasswords := {}, secrets := map s | s in db.secrets :: None,
        catalogOperations := {}, trackingAccounts := {}, autoLinks := map l | l in db.autoLinks :: false)
  }

  /** The rows of `SELECT DISTINCT user_id,book_id`: every reference once. */
  ghost predicate Listing(refs: seq<Reference>, rows: map<FileKey, nat>) {
    && (forall ref :: ref in refs <==> ref in References(rows))
    && forall i, j :: 0 <= i < j < |refs| ==> refs[i] != refs[j]
  }

  function PathOf(ref: Reference, files: Files): ObjectName {
    ObjectPath(files, ref.owner, ref.book)
  }

  function ObjectEntryName(ref: Reference, files: Files): string {
    NameOf(ref.owner, ref.book, PathOf(ref, files).format)
  }

  function BytesAt(ref: Reference, files: Files): Bytes {
    if PathOf(ref, files) in files.objects then files.objects[PathOf(ref, files)] else []
  }

  function Packed(name: string, content: Bytes): ZipEntry {
    ZipEntry(name, |content|, content, true)
  }

  function ObjectEntry(ref: Reference, files: Files): ZipEntry {
    Packed(ObjectEntryName(ref, files), BytesAt(ref, files))
  }

  function DbEntry(db: Db, codec: Codec): ZipEntry {
    Packed(DB_NAME, codec.writeDb(Scrubbed(db)))
  }

  /** The database and then the first `n` referenced objects. */
  function Sources(db: Db, files: Files, refs: seq<Reference>, codec: Codec): seq<ZipEntry> {
    [DbEntry(db, codec)] + seq(|refs|, i requires 0 <= i < |refs| => ObjectEntry(refs[i], files))
  }

  function Listed(e: ZipEntry, env: Env): ManifestEntry {
    ManifestEntry(|e.content|, env.hash(e.content))
  }

  function Inventory(sources: seq<ZipEntry>, env: Env): map<string, ManifestEntry> {
    var entries := EntryMap(sources);
    map name | name in entries :: Listed(entries[name], env)
  }

  function ManifestFor(sources: seq<ZipEntry>, createdAt: string, env: Env): Manifest {
    Manifest(1, createdAt, Inventory(sources, env))
  }

  function ArchiveOf(db: Db, files: Files, refs: seq<Reference>, createdAt: string, codec: Codec): seq<ZipEntry> {
    var sources := Sources(db, files, refs, codec);
    sources + [Packed(MANIFEST_NAME, codec.writeManifest(ManifestFor(sources, createdAt, codec.env)))]
  }

  /** What one referenced object needs. */
  predicate CanPack(ref: Reference, files: Files, env: Env) {
    && IsObjectName(ObjectEntryName(ref, files)) && PathOf(ref, files) in files.objects
    && |BytesAt(ref, files)| <= MAX_STORED_BOOK
    && env.hash(BytesAt(ref, files)) == BookPart(ObjectEntryName(ref, files))
  }

  ghost predicate CanBackUp(db: Db, files: Files, refs: seq<Reference>, codec: Codec) {
    && |refs| <= MAX_REFERENCES && |codec.writeDb(Scrubbed(db))| <= MAX_DATABASE
    && AllPackable(refs, files, codec.env)
    && Total(Sources(db, files, refs, codec)) <= MAX_TOTAL
  }

  // ---- backup, as the program runs it ----

  /** `referencedBackupNames`, for the rows that the query returns. */
  method ReferencedNames(refs: seq<Reference>, files: Files) returns (names: Option<seq<string>>)
    ensures names.Some? <==>
              |refs| <= MAX_REFERENCES && forall ref :: ref in refs ==> IsArchiveName(ObjectEntryName(ref, files))
    ensures names.Some? ==> names.value == seq(|refs|, i requires 0 <= i < |refs| => ObjectEntryName(refs[i], files))
  {
    if |refs| > MAX_REFERENCES {
      return None;
    }
    var done: seq<string> := [];
    for i := 0 to |refs|
      invariant done == seq(i, j requires 0 <= j < i => ObjectEntryName(refs[j], files))
      invariant forall ref :: ref in refs[..i] ==> IsArchiveName(ObjectEntryName(ref, files))
    {
      var name := NameOf(refs[i].owner, refs[i].book, ObjectPath(files, refs[i].owner, refs[i].book).format);
      if !IsArchiveName(name) {
        assert refs[i] in refs;
        return None;
      }
      assert refs[..i + 1] == refs[..i] + [refs[i]];
      done := done + [name];
    }
    assert refs[..|refs|] == refs;
    return Some(done);
  }

  lemma SourcesStep(db: Db, files: Files, refs: seq<Reference>, i: nat, codec: Codec)
    requires i < |refs|
    ensures Sources(db, files, refs, codec)[..i + 2] ==
              Sources(db, files, refs, codec)[..i + 1] + [ObjectEntry(refs[i], files)]
    ensures Total(Sources(db, files, refs, codec)[..i + 2]) ==
              Total(Sources(db, files, refs, codec)[..i + 1]) + |BytesAt(refs[i], files)|
  {
    var sources := Sources(db, files, refs, codec);
    assert sources[i + 1] == ObjectEntry(refs[i], files);
    SnocEntriesOk(sources[..i + 1], sources[i + 1]);
    assert sources[..i + 2] == sources[..i + 1] + [sources[i + 1]];
  }

  lemma {:induction false} TotalGrows(archive: seq<ZipEntry>, n: nat)
    requires n <= |archive|
    ensures Total(archive[..n]) <= Total(archive)
    decreases |archive|
  {
    if n == |archive| {
      assert archive[..n] == archive;
    } else {
      assert archive[..|archive| - 1][..n] == archive[..n];
      TotalGrows(archive[..|archive| - 1], n);
    }
  }

  /** One pass of the loop over the objects. */
  method PackObject(ref: Reference, name: string, files: Files, total: nat, env: Env) returns (out: Option<ZipEntry>)
    requires IsObjectName(name) && name == ObjectEntryName(ref, files) && total <= MAX_TOTAL
    ensures out.Some? <==> CanPack(ref, files, env) && total + |BytesAt(ref, files)| <= MAX_TOTAL
    ensures out.Some? ==> out.value == ObjectEntry(ref, files)
  {
    var path := PathOf(ref, files);
    if path !in files.objects {
      return None;
    }
    var content := files.objects[path];
    if |content| > MAX_TOTAL - total || |content| > MAX_STORED_BOOK || env.hash(content) != BookPart(name) {
      return None;
    }
    return Some(Packed(name, content));
  }

  ghost predicate AllPackable(refs: seq<Reference>, files: Files, env: Env) {
    forall ref :: ref in refs ==> CanPack(ref, files, env)
  }

  method PackObjects(db: Db, files: Files, refs: seq<Reference>, names: seq<string>, bytes: Bytes, codec: Codec)
    returns (archive: Option<seq<ZipEntry>>, listed: map<string, ManifestEntry>)
    requires names == seq(|refs|, i requires 0 <= i < |refs| => ObjectEntryName(refs[i], files))
    requires forall ref :: ref in refs ==> IsObjectName(ObjectEntryName(ref, files))
    requires bytes == codec.writeDb(Scrubbed(db)) && |bytes| <= MAX_TOTAL
    ensures archive.Some? <==>
              AllPackable(refs, files, codec.env) && Total(Sources(db, files, refs, codec)) <= MAX_TOTAL
    ensures archive.Some? ==> archive.value == Sources(db, files, refs, codec)
    ensures archive.Some? ==> listed == Inventory(Sources(db, files, refs, codec), codec.env)
  {
    var packed := [Packed(DB_NAME, bytes)];
    var total: nat := |bytes|;
    listed := map[DB_NAME := Listed(packed[0], codec.env)];
    PackStart(db, files, refs, codec);
    for i := 0 to |refs|
      invariant PackedSoFar(db, files, refs, i, codec, packed, total, listed)
    {
      assert refs[i] in refs;
      var entry := PackObject(refs[i], names[i], files, total, codec.env);
      if entry.None? {
        Unpackable(db, files, refs, i, codec, packed, total, listed);
        return None, listed;
      }
      PackStep(db, files, refs, i, codec, packed, total, listed);
      total := total + |entry.value.content|;
      packed := packed + [entry.value];
      listed := listed[entry.value.name := Listed(entry.value, codec.env)];
    }
    PackEnd(db, files, refs, codec, packed, total, listed);
    return Some(packed), listed;
  }

  lemma PackStart(db: Db, files: Files, refs: seq<Reference>, codec: Codec)
    requires |codec.writeDb(Scrubbed(db))| <= MAX_TOTAL
    ensures var e := DbEntry(db, codec);
            PackedSoFar(db, files, refs, 0, codec, [e], |e.content|, map[DB_NAME := Listed(e, codec.env)])
  {
    StartOfSources(db, files, refs, codec);
  }

  lemma PackEnd(
      db: Db, files: Files, refs: seq<Reference>, codec: Codec,
      packed: seq<ZipEntry>, total: nat, listed: map<string, ManifestEntry>)
    requires PackedSoFar(db, files, refs, |refs|, codec, packed, total, listed)
    ensures packed == Sources(db, files, refs, codec) && total == Total(packed) <= MAX_TOTAL
    ensures listed == Inventory(packed, codec.env) && AllPackable(refs, files, codec.env)
  {
    assert Sources(db, files, refs, codec)[..|refs| + 1] == Sources(db, files, refs, codec) && refs[..|refs|] == refs;
  }

  /** What the loop knows after `n` objects. */
  ghost predicate PackedSoFar(
      db: Db, files: Files, refs: seq<Reference>, n: nat, codec: Codec,
      packed: seq<ZipEntry>, total: nat, listed: map<string, ManifestEntry>) {
    n <= |refs| &&
    var front := Sources(db, files, refs, codec)[..n + 1];
    packed == front && total == Total(front) <= MAX_TOTAL && listed == Inventory(front, codec.env)
    && AllPackable(refs[..n], files, codec.env)
  }

  lemma PackStep(
      db: Db, files: Files, refs: seq<Reference>, n: nat, codec: Codec,
      packed: seq<ZipEntry>, total: nat, listed: map<string, ManifestEntry>)
    requires n < |refs| && PackedSoFar(db, files, refs, n, codec, packed, total, listed)
    requires CanPack(refs[n], files, codec.env) && total + |BytesAt(refs[n], files)| <= MAX_TOTAL
    ensures var e := ObjectEntry(refs[n], files);
            PackedSoFar(db, files, refs, n + 1, codec, packed + [e], total + |e.content|,
                listed[e.name := Listed(e, codec.env)])
  {
    SourcesStep(db, files, refs, n, codec);
    InventorySnoc(Sources(db, files, refs, codec)[..n + 1], ObjectEntry(refs[n], files), codec.env);
    assert refs[..n + 1] == refs[..n] + [refs[n]];
  }

  lemma Unpackable(
      db: Db, files: Files, refs: seq<Reference>, n: nat, codec: Codec,
      packed: seq<ZipEntry>, total: nat, listed: map<string, ManifestEntry>)
    requires n < |refs| && PackedSoFar(db, files, refs, n, codec, packed, total, listed)
    requires !(CanPack(refs[n], files, codec.env) && total + |BytesAt(refs[n], files)| <= MAX_TOTAL)
    ensures !(AllPackable(refs, files, codec.env) && Total(Sources(db, files, refs, codec)) <= MAX_TOTAL)
  {
    SourcesStep(db, files, refs, n, codec);
    TotalGrows(Sources(db, files, refs, codec), n + 2);
    assert refs[n] in refs;
  }

  method Backup(db: Db, files: Files, refs: seq<Reference>, createdAt: string, codec: Codec)
    returns (out: Option<seq<ZipEntry>>)
    ensures out.Some? <==> CanBackUp(db, files, refs, codec)
    ensures out.Some? ==> out.value == ArchiveOf(db, files, refs, createdAt, codec)
  {
    var snapshot := Scrubbed(db);
    var names := ReferencedNames(refs, files);
    ObjectEntriesAreNotDatabase(refs, files);
    if names.None? {
      assert |refs| > MAX_REFERENCES || exists ref :: ref in refs && !CanPack(ref, files, codec.env);
      return None;
    }
    var bytes := codec.writeDb(snapshot);
    if |bytes| > MAX_TOTAL || |bytes| > MAX_DATABASE {
      return None;
    }
    var archive, listed := PackObjects(db, files, refs, names.value, bytes, codec);
    if archive.None? {
      return None;
    }
    return Some(archive.value + [Packed(MANIFEST_NAME, codec.writeManifest(Manifest(1, createdAt, listed)))]);
  }

  lemma ObjectEntriesAreNotDatabase(refs: seq<Reference>, files: Files)
    ensures forall ref :: ref in refs ==>
              (IsArchiveName(ObjectEntryName(ref, files)) <==> IsObjectName(ObjectEntryName(ref, files)))
  {
    forall ref | ref in refs ensures ObjectEntryName(ref, files) != DB_NAME {
      ObjectNamesAreNotSpecial(ref.owner, ref.book, PathOf(ref, files).format);
    }
  }

  lemma InventorySnoc(sources: seq<ZipEntry>, e: ZipEntry, env: Env)
    ensures Inventory(sources + [e], env) == Inventory(sources, env)[e.name := Listed(e, env)]
  {
    SnocEntriesOk(sources, e);
  }

  lemma StartOfSources(db: Db, files: Files, refs: seq<Reference>, codec: Codec)
    ensures var sources := Sources(db, files, refs, codec);
            && sources[..1] == [DbEntry(db, codec)] && Total(sources[..1]) == |codec.writeDb(Scrubbed(db))|
            && Inventory(sources[..1], codec.env) == map[DB_NAME := Listed(DbEntry(db, codec), codec.env)]
            && Total(sources[..1]) <= Total(sources)
  {
    var sources := Sources(db, files, refs, codec);
    assert sources[..1] == [] + [DbEntry(db, codec)];
    SnocEntriesOk([], DbEntry(db, codec));
    InventorySnoc([], DbEntry(db, codec), codec.env);
    TotalGrows(sources, 1);
  }

  // ---- the round trip ----

  /** SHA-256 in lower-case hexadecimal. */
  ghost predicate HexDigests(env: Env) {
    forall content :: |env.hash(content)| == 64 && AllHex(env.hash(content))
  }

  /** A store between requests, whose owner directories are named by identifiers in hexadecimal. */
  ghost predicate Consistent(db: Db, files: Files, codec: Codec) {
    && files.rows == db.rows && Backed(files) && Sound(files, codec.env) && HexDigests(codec.env)
    && db.version == CURRENT_VERSION && db.intact
    && codec.readDb(codec.writeDb(Scrubbed(db))) == Some(Scrubbed(db))
  }

  predicate HexOwners(rows: map<FileKey, nat>) {
    forall k :: k in rows ==> |k.user| == 64 && AllHex(k.user)
  }

  lemma {:induction false} FirstFormatFound(files: Files, user: string, book: string, formats: seq<string>)
    requires exists f :: f in formats && ObjectName(user, book, f) in files.objects
    ensures FirstFormat(files, user, book, formats) in formats
    ensures ObjectName(user, book, FirstFormat(files, user, book, formats)) in files.objects
  {
    if ObjectName(user, book, formats[0]) !in files.objects {
      var f :| f in formats && ObjectName(user, book, f) in files.objects;
      assert f in formats[1..];
      FirstFormatFound(files, user, book, formats[1..]);
    }
  }

  lemma ReferenceHasObject(ref: Reference, files: Files)
    requires Backed(files) && ref in References(files.rows)
    ensures PathOf(ref, files) in files.objects && PathOf(ref, files).format in Operations.BOOK_FORMATS
  {
    var k :| k in files.rows && ref == Reference(k.user, k.book);
    assert HasObject(files, k.user, k.book);
    FirstFormatFound(files, ref.owner, ref.book, Operations.BOOK_FORMATS);
  }

  /** From a consistent store every object can be packed, unless its owner is not a digest or it is too
      large for the format. */
  lemma ConsistentPacks(ref: Reference, db: Db, files: Files, codec: Codec)
    requires Consistent(db, files, codec) && ref in References(db.rows)
    ensures CanPack(ref, files, codec.env) <==>
              |ref.owner| == 64 && AllHex(ref.owner) && |BytesAt(ref, files)| <= MAX_STORED_BOOK
  {
    ReferenceHasObject(ref, files);
    var path := PathOf(ref, files);
    assert files.objects[path] == BytesAt(ref, files) && ref.book == codec.env.hash(BytesAt(ref, files));
    if |ref.owner| == 64 && AllHex(ref.owner) {
      HexNamesAreObjectNames(ref.owner, ref.book, path.format);
    }
    if IsObjectName(ObjectEntryName(ref, files)) {
      NameDeterminesReference(ref.owner, ref.book, path.format);
    }
  }

  /** When a consistent store can be backed up at all. */
  lemma ConsistentBackUpIff(db: Db, files: Files, refs: seq<Reference>, codec: Codec)
    requires Consistent(db, files, codec) && Listing(refs, db.rows)
    ensures CanBackUp(db, files, refs, codec) <==>
              && |refs| <= MAX_REFERENCES && HexOwners(db.rows)
              && |codec.writeDb(Scrubbed(db))| <= MAX_DATABASE
              && (forall ref :: ref in refs ==> |BytesAt(ref, files)| <= MAX_STORED_BOOK)
              && Total(Sources(db, files, refs, codec)) <= MAX_TOTAL
  {
    forall ref | ref in refs
      ensures CanPack(ref, files, codec.env) <==>
                |ref.owner| == 64 && AllHex(ref.owner) && |BytesAt(ref, files)| <= MAX_STORED_BOOK
    {
      ConsistentPacks(ref, db, files, codec);
    }
    if HexOwners(db.rows) {
      forall ref | ref in refs ensures |ref.owner| == 64 && AllHex(ref.owner) {
        var k :| k in db.rows && ref == Reference(k.user, k.book);
      }
    }
    if AllPackable(refs, files, codec.env) {
      forall k | k in db.rows ensures |k.user| == 64 && AllHex(k.user) {
        assert Reference(k.user, k.book) in refs;
      }
    }
  }

  ghost predicate Named(refs: seq<Reference>, files: Files) {
    forall ref :: ref in refs ==>
      IsObjectName(ObjectEntryName(ref, files)) && PathOf(ref, files).format in Operations.BOOK_FORMATS
  }

  lemma ObjectNamesDiffer(a: Reference, b: Reference, refs: seq<Reference>, files: Files)
    requires Named(refs, files) && a in refs && b in refs && ObjectEntryName(a, files) == ObjectEntryName(b, files)
    ensures a == b
  {
    NameDeterminesReference(a.owner, a.book, PathOf(a, files).format);
    NameDeterminesReference(b.owner, b.book, PathOf(b, files).format);
  }

  lemma SourceAt(db: Db, files: Files, refs: seq<Reference>, codec: Codec, i: nat)
    requires Named(refs, files) && i <= |refs|
    ensures var e := Sources(db, files, refs, codec)[i];
            && e.name != MANIFEST_NAME && EntryOk(e) && (e.name == DB_NAME <==> i == 0)
            && (i > 0 ==> e.name == ObjectEntryName(refs[i - 1], files))
  {
    var sources := Sources(db, files, refs, codec);
    if i == 0 {
      assert sources[0] == DbEntry(db, codec);
    } else {
      var ref := refs[i - 1];
      assert ref in refs && sources[i] == ObjectEntry(ref, files);
      ObjectNamesAreNotSpecial(ref.owner, ref.book, PathOf(ref, files).format);
    }
  }

  lemma SourcesDistinct(db: Db, files: Files, refs: seq<Reference>, codec: Codec)
    requires Named(refs, files) && Listing(refs, db.rows)
    ensures DistinctNames(Sources(db, files, refs, codec))
    ensures MANIFEST_NAME !in Names(Sources(db, files, refs, codec))
    ensures forall e :: e in Sources(db, files, refs, codec) ==> EntryOk(e)
  {
    var sources := Sources(db, files, refs, codec);
    forall i | 0 <= i < |sources| ensures sources[i].name != MANIFEST_NAME && EntryOk(sources[i]) {
      SourceAt(db, files, refs, codec, i);
    }
    forall i, j | 0 <= i < j < |sources| ensures sources[i].name != sources[j].name {
      SourceAt(db, files, refs, codec, i);
      SourceAt(db, files, refs, codec, j);
      if i > 0 && sources[i].name == sources[j].name {
        ObjectNamesDiffer(refs[i - 1], refs[j - 1], refs, files);
      }
    }
  }

  lemma ArchiveEntriesOk(db: Db, files: Files, refs: seq<Reference>, createdAt: string, codec: Codec)
    requires Named(refs, files) && Listing(refs, db.rows)
    ensures var archive := ArchiveOf(db, files, refs, createdAt, codec);
            EntriesOk(archive) <==> Total(archive) <= MAX_TOTAL
  {
    var sources := Sources(db, files, refs, codec);
    SourcesDistinct(db, files, refs, codec);
    SnocEntriesOk(sources, Packed(MANIFEST_NAME, codec.writeManifest(ManifestFor(sources, createdAt, codec.env))));
  }

  /** The entry is the one of the database, or of a reference. */
  ghost predicate IsSource(db: Db, files: Files, refs: seq<Reference>, codec: Codec, e: ZipEntry) {
    e == DbEntry(db, codec) || exists ref :: ref in refs && e == ObjectEntry(ref, files)
  }

  lemma SourceIs(db: Db, files: Files, refs: seq<Reference>, codec: Codec, e: ZipEntry)
    requires e in Sources(db, files, refs, codec)
    ensures IsSource(db, files, refs, codec, e)
  {
    var i :| 0 <= i < |Sources(db, files, refs, codec)| && Sources(db, files, refs, codec)[i] == e;
    if i > 0 {
      assert refs[i - 1] in refs && e == ObjectEntry(refs[i - 1], files);
    }
  }

  /** Every name a backup lists: the database, or the object of one reference. */
  lemma SourceOfName(db: Db, files: Files, refs: seq<Reference>, codec: Codec, name: string)
    requires name in EntryMap(Sources(db, files, refs, codec))
    ensures var e := EntryMap(Sources(db, files, refs, codec))[name];
            || (name == DB_NAME && e == DbEntry(db, codec))
            || exists ref :: ref in refs && name == ObjectEntryName(ref, files) && e == ObjectEntry(ref, files)
  {
    EntryMapHolds(Sources(db, files, refs, codec));
    var e := EntryMap(Sources(db, files, refs, codec))[name];
    SourceIs(db, files, refs, codec, e);
    if e != DbEntry(db, codec) {
      var ref :| ref in refs && e == ObjectEntry(ref, files);
      assert name == ObjectEntryName(ref, files);
    }
  }

  lemma SourceFound(db: Db, files: Files, refs: seq<Reference>, codec: Codec, ref: Reference)
    requires Named(refs, files) && Listing(refs, db.rows) && ref in refs
    ensures var entries := EntryMap(Sources(db, files, refs, codec));
            ObjectEntryName(ref, files) in entries && entries[ObjectEntryName(ref, files)] == ObjectEntry(ref, files)
  {
    var sources := Sources(db, files, refs, codec);
    SourcesDistinct(db, files, refs, codec);
    var i :| 0 <= i < |refs| && refs[i] == ref;
    assert sources[i + 1] == ObjectEntry(ref, files);
    EntryMapFinds(sources, i + 1);
  }

  lemma DatabaseFound(db: Db, files: Files, refs: seq<Reference>, codec: Codec)
    requires Named(refs, files) && Listing(refs, db.rows)
    ensures var entries := EntryMap(Sources(db, files, refs, codec));
            DB_NAME in entries && entries[DB_NAME] == DbEntry(db, codec)
  {
    SourcesDistinct(db, files, refs, codec);
    EntryMapFinds(Sources(db, files, refs, codec), 0);
  }

  lemma BackupContents(db: Db, files: Files, refs: seq<Reference>, codec: Codec, name: string)
    requires Consistent(db, files, codec) && Listing(refs, db.rows) && CanBackUp(db, files, refs, codec)
    requires name in EntryMap(Sources(db, files, refs, codec))
    ensures var entries := EntryMap(Sources(db, files, refs, codec));
            && ListedOk(name, Listed(entries[name], codec.env), entries)
            && ContentOk(name, Listed(entries[name], codec.env), entries[name].content, codec.env)
  {
    var e := EntryMap(Sources(db, files, refs, codec))[name];
    SourceOfName(db, files, refs, codec, name);
    if name != DB_NAME {
      var ref :| ref in refs && name == ObjectEntryName(ref, files) && e == ObjectEntry(ref, files);
      assert CanPack(ref, files, codec.env);
      ReferenceHasObject(ref, files);
      var path := PathOf(ref, files);
      assert codec.env.detect(files.objects[path]) == Some(path.format);
      NameDeterminesReference(ref.owner, ref.book, path.format);
    }
  }

  lemma {:induction false} ListingCounted(refs: seq<Reference>, all: set<Reference>)
    requires forall ref :: ref in refs <==> ref in all
    requires forall i, j :: 0 <= i < j < |refs| ==> refs[i] != refs[j]
    ensures |all| == |refs|
    decreases |refs|
  {
    if refs != [] {
      var last := refs[|refs| - 1];
      assert refs == refs[..|refs| - 1] + [last];
      ListingCounted(refs[..|refs| - 1], all - {last});
    } else {
      assert all == {};
    }
  }

  lemma {:induction false} NamesCounted(archive: seq<ZipEntry>)
    requires DistinctNames(archive)
    ensures |Names(archive)| == |archive|
  {
    if archive != [] {
      var front, last := archive[..|archive| - 1], archive[|archive| - 1];
      NamesCounted(front);
      assert archive == front + [last];
      assert Names(archive) == Names(front) + {last.name};
      assert last.name !in Names(front);
    }
  }

  lemma BackupFindsOnce(db: Db, files: Files, refs: seq<Reference>, codec: Codec, ref: Reference)
    requires Named(refs, files) && Listing(refs, db.rows) && ref in refs
    ensures |FormatsFound(EntryMap(Sources(db, files, refs, codec)).Keys, ref)| == 1
  {
    var names := EntryMap(Sources(db, files, refs, codec)).Keys;
    var format := PathOf(ref, files).format;
    SourceFound(db, files, refs, codec, ref);
    forall f | f in Operations.BOOK_FORMATS && NameOf(ref.owner, ref.book, f) in names ensures f == format {
      var name := NameOf(ref.owner, ref.book, f);
      ObjectNamesAreNotSpecial(ref.owner, ref.book, f);
      SourceOfName(db, files, refs, codec, name);
      var other :| other in refs && name == ObjectEntryName(other, files);
      NameDeterminesReference(other.owner, other.book, PathOf(other, files).format);
      NameDeterminesReference(ref.owner, ref.book, f);
    }
    assert FormatsFound(names, ref) == {format};
  }

  lemma BackupNamed(db: Db, files: Files, refs: seq<Reference>, codec: Codec)
    requires Consistent(db, files, codec) && Listing(refs, db.rows) && CanBackUp(db, files, refs, codec)
    ensures Named(refs, files)
  {
    forall ref | ref in refs
      ensures IsObjectName(ObjectEntryName(ref, files)) && PathOf(ref, files).format in Operations.BOOK_FORMATS
    {
      assert CanPack(ref, files, codec.env);
      ReferenceHasObject(ref, files);
    }
  }

  lemma BackupReferences(db: Db, files: Files, refs: seq<Reference>, codec: Codec)
    requires Consistent(db, files, codec) && Listing(refs, db.rows) && CanBackUp(db, files, refs, codec)
    ensures ReferencesOk(Scrubbed(db), EntryMap(Sources(db, files, refs, codec)).Keys)
  {
    BackupNamed(db, files, refs, codec);
    var sources := Sources(db, files, refs, codec);
    forall ref | ref in References(db.rows) ensures |FormatsFound(EntryMap(sources).Keys, ref)| == 1 {
      BackupFindsOnce(db, files, refs, codec, ref);
    }
    ListingCounted(refs, References(db.rows));
    SourcesDistinct(db, files, refs, codec);
    NamesCounted(sources);
  }

  lemma ArchiveMap(db: Db, files: Files, refs: seq<Reference>, createdAt: string, codec: Codec)
    requires Named(refs, files) && Listing(refs, db.rows)
    ensures var sources := Sources(db, files, refs, codec);
            var manifest := codec.writeManifest(ManifestFor(sources, createdAt, codec.env));
            && EntryMap(ArchiveOf(db, files, refs, createdAt, codec)) ==
                 EntryMap(sources)[MANIFEST_NAME := Packed(MANIFEST_NAME, manifest)]
            && MANIFEST_NAME !in EntryMap(sources)
            && Total(ArchiveOf(db, files, refs, createdAt, codec)) == Total(sources) + |manifest|
  {
    var sources := Sources(db, files, refs, codec);
    SourcesDistinct(db, files, refs, codec);
    SnocEntriesOk(sources, Packed(MANIFEST_NAME, codec.writeManifest(ManifestFor(sources, createdAt, codec.env))));
  }

  lemma InventoryHolds(entries: map<string, ZipEntry>, e: ZipEntry, manifest: Manifest, env: Env)
    requires MANIFEST_NAME !in entries && DB_NAME in entries && manifest.format == 1
    requires manifest.files == map name | name in entries :: Listed(entries[name], env)
    requires forall name :: name in entries ==> ListedOk(name, Listed(entries[name], env), entries)
    requires forall name :: name in entries ==>
               ContentOk(name, Listed(entries[name], env), entries[name].content, env)
    ensures InventoryOk(manifest, entries[MANIFEST_NAME := e]) && ContentsOk(manifest, entries[MANIFEST_NAME := e], env)
  {
    var all := entries[MANIFEST_NAME := e];
    assert all.Keys == entries.Keys + {MANIFEST_NAME} && manifest.files.Keys == entries.Keys;
    assert |all| == |all.Keys| && |manifest.files| == |manifest.files.Keys|;
    forall name | name in manifest.files
      ensures ListedOk(name, manifest.files[name], all)
      ensures ContentOk(name, manifest.files[name], all[name].content, env)
    {
      assert name in entries && all[name] == entries[name];
    }
  }

  /** The files of a backup pass every check of restore but the limits. */
  lemma BackupFilesOk(db: Db, files: Files, refs: seq<Reference>, createdAt: string, codec: Codec)
    requires Consistent(db, files, codec) && Listing(refs, db.rows) && CanBackUp(db, files, refs, codec)
    ensures var entries := EntryMap(ArchiveOf(db, files, refs, createdAt, codec));
            var manifest := ManifestFor(Sources(db, files, refs, codec), createdAt, codec.env);
            FilesOk(manifest, entries, codec) && DbOf(entries, codec) == Some(Scrubbed(db))
  {
    BackupNamed(db, files, refs, codec);
    ArchiveMap(db, files, refs, createdAt, codec);
    DatabaseFound(db, files, refs, codec);
    BackupReferences(db, files, refs, codec);
    var entries := EntryMap(Sources(db, files, refs, codec));
    var all := EntryMap(ArchiveOf(db, files, refs, createdAt, codec));
    var manifest := ManifestFor(Sources(db, files, refs, codec), createdAt, codec.env);
    forall name | name in entries
      ensures ListedOk(name, Listed(entries[name], codec.env), entries)
      ensures ContentOk(name, Listed(entries[name], codec.env), entries[name].content, codec.env)
    {
      BackupContents(db, files, refs, codec, name);
    }
    InventoryHolds(entries, all[MANIFEST_NAME], manifest, codec.env);
    assert manifest.files.Keys == entries.Keys;
  }

  lemma BackupManifest(db: Db, files: Files, refs: seq<Reference>, createdAt: string, codec: Codec)
    requires Named(refs, files) && Listing(refs, db.rows) && |refs| <= MAX_REFERENCES
    requires ManifestReads(db, files, refs, createdAt, codec)
    ensures var m := ManifestFor(Sources(db, files, refs, codec), createdAt, codec.env);
            var size := |codec.writeManifest(m)|;
            ManifestOf(ArchiveOf(db, files, refs, createdAt, codec), codec) ==
              if size <= MAX_MANIFEST && Total(Sources(db, files, refs, codec)) + size <= MAX_TOTAL
              then Some(m) else None
  {
    ArchiveMap(db, files, refs, createdAt, codec);
    ArchiveEntriesOk(db, files, refs, createdAt, codec);
  }

  const MAX_ENTRY: nat := 256
  const MAX_TIME := 64

  /** A time as RFC 3339 writes it in UTC. */
  predicate IsTime(s: string) {
    |s| <= MAX_TIME && forall c :: c in s ==> '0' <= c <= '9' || c == '-' || c == ':' || c == 'T' || c == 'Z'
  }

  predicate PlainEntry(name: string, e: ManifestEntry) {
    IsArchiveName(name) && 0 <= e.size <= MAX_STORED_BOOK && |e.sha256| == 64 && AllHex(e.sha256)
  }

  /** What a written manifest consists of: a time, archive names, sizes and hexadecimal digests. JSON writes every
      character of these as it is. */
  predicate PlainManifest(m: Manifest) {
    m.format == 1 && IsTime(m.createdAt) && forall name :: name in m.files ==> PlainEntry(name, m.files[name])
  }

  /** Such a manifest takes at most 256 bytes to an entry, and as much for the rest. */
  ghost predicate CompactManifests(codec: Codec) {
    forall m: Manifest :: PlainManifest(m) ==> |codec.writeManifest(m)| <= MAX_ENTRY * (|m.files| + 1)
  }

  /** The manifest of any backup fits its own limit, even with the most books that a backup takes. */
  lemma ManifestFits(db: Db, files: Files, refs: seq<Reference>, createdAt: string, codec: Codec)
    requires Consistent(db, files, codec) && Listing(refs, db.rows) && CanBackUp(db, files, refs, codec)
    requires CompactManifests(codec) && IsTime(createdAt)
    ensures |codec.writeManifest(ManifestFor(Sources(db, files, refs, codec), createdAt, codec.env))| <= MAX_MANIFEST
  {
    BackupNamed(db, files, refs, codec);
    var sources := Sources(db, files, refs, codec);
    var m := ManifestFor(sources, createdAt, codec.env);
    SourcesDistinct(db, files, refs, codec);
    NamesCounted(sources);
    assert m.files.Keys == EntryMap(sources).Keys;
    assert |m.files| == |m.files.Keys| == |refs| + 1;
    forall name | name in m.files ensures PlainEntry(name, m.files[name]) {
      BackupContents(db, files, refs, codec, name);
    }
    ManifestSize(|m.files|, |codec.writeManifest(m)|);
  }

  lemma ManifestSize(entries: nat, size: nat)
    requires entries <= MAX_REFERENCES + 1 && size <= MAX_ENTRY * (entries + 1)
    ensures size <= MAX_MANIFEST
  {
  }

  /** A backup of a consistent store is accepted exactly when it is within 100 GiB together with its manifest, which
      `Backup` does not count. */
  lemma BackupAcceptedIff(db: Db, files: Files, refs: seq<Reference>, createdAt: string, codec: Codec)
    requires Consistent(db, files, codec) && Listing(refs, db.rows) && CanBackUp(db, files, refs, codec)
    requires ManifestReads(db, files, refs, createdAt, codec)
    requires CompactManifests(codec) && IsTime(createdAt)
    ensures var size := |codec.writeManifest(ManifestFor(Sources(db, files, refs, codec), createdAt, codec.env))|;
            Accepts(ArchiveOf(db, files, refs, createdAt, codec), codec) <==>
              Total(Sources(db, files, refs, codec)) + size <= MAX_TOTAL
  {
    BackupNamed(db, files, refs, codec);
    ManifestFits(db, files, refs, createdAt, codec);
    BackupManifest(db, files, refs, createdAt, codec);
    BackupFilesOk(db, files, refs, createdAt, codec);
  }

  ghost predicate ManifestReads(db: Db, files: Files, refs: seq<Reference>, createdAt: string, codec: Codec) {
    var m := ManifestFor(Sources(db, files, refs, codec), createdAt, codec.env);
    codec.readManifest(codec.writeManifest(m)) == Some(m)
  }

  /** What a backup keeps: everything but what identifies a device or acts by itself. */
  function Kept(db: Db): Db {
    db.(sessions := {}, opdsPasswords := {}, secrets := map s | s in db.secrets :: None, catalogOperations := {},
        trackingAccounts := {}, autoLinks := map l | l in db.autoLinks :: false, scanSeconds := 0)
  }

  lemma PreparedScrubbed(db: Db)
    requires db.version == CURRENT_VERSION
    ensures Prepared(Scrubbed(db)) == Kept(db)
  {
    var s := Scrubbed(db);
    assert (map x | x in s.secrets :: Option<string>.None) == s.secrets;
    assert (map x | x in s.autoLinks :: false) == s.autoLinks;
  }

  lemma RestoredParts(db: Db, files: Files, refs: seq<Reference>, createdAt: string, codec: Codec)
    requires Consistent(db, files, codec) && Listing(refs, db.rows) && CanBackUp(db, files, refs, codec)
    requires ManifestReads(db, files, refs, createdAt, codec)
    requires Accepts(ArchiveOf(db, files, refs, createdAt, codec), codec)
    ensures var archive := ArchiveOf(db, files, refs, createdAt, codec);
            var listed := EntryMap(Sources(db, files, refs, codec)).Keys;
            && listed <= EntryMap(archive).Keys
            && RestoredOf(archive, codec).db == Kept(db)
            && RestoredOf(archive, codec).objects ==
                 map name | name in listed && name != DB_NAME :: EntryMap(archive)[name].content
  {
    BackupNamed(db, files, refs, codec);
    BackupManifest(db, files, refs, createdAt, codec);
    ArchiveMap(db, files, refs, createdAt, codec);
    BackupFilesOk(db, files, refs, createdAt, codec);
    PreparedScrubbed(db);
    var listed := EntryMap(Sources(db, files, refs, codec)).Keys;
    assert ManifestOf(ArchiveOf(db, files, refs, createdAt, codec), codec).value.files.Keys == listed;
  }

  /** And an accepted one restores every row and account, and every object under its name. */
  lemma BackupRestores(db: Db, files: Files, refs: seq<Reference>, createdAt: string, codec: Codec)
    requires Consistent(db, files, codec) && Listing(refs, db.rows) && CanBackUp(db, files, refs, codec)
    requires ManifestReads(db, files, refs, createdAt, codec)
    requires Accepts(ArchiveOf(db, files, refs, createdAt, codec), codec)
    ensures var r := RestoredOf(ArchiveOf(db, files, refs, createdAt, codec), codec);
            && r.db == Kept(db)
            && r.objects.Keys == (set ref | ref in refs :: ObjectEntryName(ref, files))
            && forall ref :: ref in refs ==>
                 PathOf(ref, files) in files.objects &&
                 r.objects[ObjectEntryName(ref, files)] == files.objects[PathOf(ref, files)]
  {
    BackupNamed(db, files, refs, codec);
    RestoredParts(db, files, refs, createdAt, codec);
    RestoredObjects(db, files, refs, createdAt, codec,
        RestoredOf(ArchiveOf(db, files, refs, createdAt, codec), codec).objects);
  }

  lemma RestoredObjects(
      db: Db, files: Files, refs: seq<Reference>, createdAt: string, codec: Codec, objects: map<string, Bytes>)
    requires Named(refs, files) && Listing(refs, db.rows) && AllPackable(refs, files, codec.env)
    requires var all := EntryMap(ArchiveOf(db, files, refs, createdAt, codec));
             var listed := EntryMap(Sources(db, files, refs, codec)).Keys;
             listed <= all.Keys && objects == map name | name in listed && name != DB_NAME :: all[name].content
    ensures objects.Keys == set ref | ref in refs :: ObjectEntryName(ref, files)
    ensures forall ref :: ref in refs ==>
              PathOf(ref, files) in files.objects &&
              objects[ObjectEntryName(ref, files)] == files.objects[PathOf(ref, files)]
  {
    ArchiveMap(db, files, refs, createdAt, codec);
    forall ref | ref in refs
      ensures ObjectEntryName(ref, files) in objects && PathOf(ref, files) in files.objects
      ensures objects[ObjectEntryName(ref, files)] == files.objects[PathOf(ref, files)]
    {
      assert CanPack(ref, files, codec.env);
      SourceFound(db, files, refs, codec, ref);
      ObjectNamesAreNotSpecial(ref.owner, ref.book, PathOf(ref, files).format);
    }
    forall name | name in objects ensures name in ObjectNames(refs, files) {
      NameIsObject(db, files, refs, codec, name);
    }
  }

  function ObjectNames(refs: seq<Reference>, files: Files): set<string> {
    set ref | ref in refs :: ObjectEntryName(ref, files)
  }

  lemma NameIsObject(db: Db, files: Files, refs: seq<Reference>, codec: Codec, name: string)
    requires name in EntryMap(Sources(db, files, refs, codec)) && name != DB_NAME
    ensures name in ObjectNames(refs, files)
  {
    SourceOfName(db, files, refs, codec, name);
  }
}
