/** Backup and restore (internal/server/backup.go): what `Backup` writes, exactly which archives
    `RestoreBackup` accepts, and what an accepted archive restores. */
module Backups {
  import opened Text
  import Operations
  import Accounts
  import opened BookFiles
  import opened Archives

  /** The server database: what a backup must keep, and the device-local parts that it must not. */
  datatype Db = Db(
    version: int, intact: bool, rows: map<FileKey, nat>, accounts: map<string, Accounts.Account>,
    sessions: set<string>, opdsPasswords: set<string>, secrets: map<string, Option<string>>,
    catalogOperations: set<string>, trackingAccounts: set<string>, autoLinks: map<string, bool>, scanSeconds: nat)

  datatype ManifestEntry = ManifestEntry(size: int, sha256: string)

  datatype Manifest = Manifest(format: int, createdAt: string, files: map<string, ManifestEntry>)

  /** The database engine and the JSON codec, as functions between values and bytes. */
  datatype Codec = Codec(
    env: Env, writeDb: Db -> Bytes, readDb: Bytes -> Option<Db>,
    writeManifest: Manifest -> Bytes, readManifest: Bytes -> Option<Manifest>)

  const MAX_STORED_BOOK := 8 * 1024 * 1024 * 1024
  const MAX_DATABASE := 1024 * 1024 * 1024
  const MAX_MANIFEST := 32 * 1024 * 1024
  const MAX_REFERENCES := 100000
  const CURRENT_VERSION := 14

  function References(rows: map<FileKey, nat>): set<Reference> {
    set k | k in rows :: Reference(k.user, k.book)
  }

  // ---- what restore accepts ----

  predicate ListedOk(name: string, listed: ManifestEntry, entries: map<string, ZipEntry>) {
    && IsArchiveName(name) && name in entries && 0 <= listed.size == entries[name].declared
    && listed.size <= (if name == DB_NAME then MAX_DATABASE else MAX_STORED_BOOK) && |listed.sha256| == 64
  }

  predicate InventoryOk(manifest: Manifest, entries: map<string, ZipEntry>) {
    && manifest.format == 1 && |manifest.files| + 1 == |entries| && DB_NAME in entries
    && forall name :: name in manifest.files ==> ListedOk(name, manifest.files[name], entries)
  }

  /** The copied bytes have the listed size and digest, and an object its digest and format as name. */
  predicate ContentOk(name: string, listed: ManifestEntry, content: Bytes, env: Env) {
    && |content| == listed.size && env.hash(content) == listed.sha256
    && (name != DB_NAME ==>
          IsObjectName(name) && env.hash(content) == BookPart(name) && env.detect(content) == Some(FormatPart(name)))
  }

  predicate ContentsOk(manifest: Manifest, entries: map<string, ZipEntry>, env: Env) {
    forall name :: name in manifest.files ==>
      name in entries && ContentOk(name, manifest.files[name], entries[name].content, env)
  }

  predicate ReferencesOk(db: Db, names: set<string>) {
    && 6 <= db.version <= 14 && db.intact
    && AllFoundOnce(References(db.rows), names) && |References(db.rows)| + 1 == |names|
  }

  function DbOf(entries: map<string, ZipEntry>, codec: Codec): Option<Db> {
    if DB_NAME in entries then codec.readDb(entries[DB_NAME].content) else None
  }

  predicate FilesOk(manifest: Manifest, entries: map<string, ZipEntry>, codec: Codec) {
    && InventoryOk(manifest, entries) && ContentsOk(manifest, entries, codec.env) && DB_NAME in manifest.files
    && DbOf(entries, codec).Some? && ReferencesOk(DbOf(entries, codec).value, manifest.files.Keys)
  }

  function ManifestOf(archive: seq<ZipEntry>, codec: Codec): Option<Manifest> {
    var entries := EntryMap(archive);
    if |archive| <= MAX_REFERENCES + 2 && EntriesOk(archive) && MANIFEST_NAME in entries
       && entries[MANIFEST_NAME].declared <= MAX_MANIFEST
    then codec.readManifest(entries[MANIFEST_NAME].content)
    else None
  }

  /** Exactly the archives that restore accepts. */
  predicate Accepts(archive: seq<ZipEntry>, codec: Codec) {
    ManifestOf(archive, codec).Some? && FilesOk(ManifestOf(archive, codec).value, EntryMap(archive), codec)
  }

  /** The restored database: no sessions, credentials or tracking accounts, nothing automatic. */
  function Prepared(db: Db): Db {
    var catalog := if db.version >= 14 then
        db.(opdsPasswords := {}, secrets := map s | s in db.secrets :: None, catalogOperations := {}) else db;
    var tracking := if db.version >= 7 then
        catalog.(trackingAccounts := {}, autoLinks := map l | l in db.autoLinks :: false) else catalog;
    tracking.(sessions := {}, scanSeconds := 0)
  }

  /** What of a database is restored, by its version: books, accounts and links always, nothing of a session, no
      scanning by itself; from version 7 on nothing of a tracking account and nothing sent by itself, and from version
      14 on no secret and no password of a catalog. Earlier versions keep what they have of these. */
  ghost predicate RestoredBy(db: Db, after: Db) {
    && after.version == db.version && after.intact == db.intact
    && after.rows == db.rows && after.accounts == db.accounts
    && after.sessions == {} && after.scanSeconds == 0
    && after.autoLinks.Keys == db.autoLinks.Keys && after.secrets.Keys == db.secrets.Keys
    && (db.version < 7 ==> after.trackingAccounts == db.trackingAccounts && after.autoLinks == db.autoLinks)
    && (db.version >= 7 ==> after.trackingAccounts == {} && forall l :: l in after.autoLinks ==> !after.autoLinks[l])
    && (db.version < 14 ==>
          && after.opdsPasswords == db.opdsPasswords && after.catalogOperations == db.catalogOperations
          && after.secrets == db.secrets)
    && (db.version >= 14 ==>
          && after.opdsPasswords == {} && after.catalogOperations == {}
          && forall s :: s in after.secrets ==> after.secrets[s].None?)
  }

  lemma PreparedBy(db: Db)
    ensures RestoredBy(db, Prepared(db))
  {
  }

  datatype Restored = Restored(db: Db, objects: map<string, Bytes>)

  function RestoredFiles(manifest: Manifest, entries: map<string, ZipEntry>, codec: Codec): Restored
    requires FilesOk(manifest, entries, codec)
  {
    Restored(Prepared(DbOf(entries, codec).value),
             map name | name in manifest.files && name != DB_NAME :: entries[name].content)
  }

  function RestoredOf(archive: seq<ZipEntry>, codec: Codec): Restored
    requires Accepts(archive, codec)
  {
    RestoredFiles(ManifestOf(archive, codec).value, EntryMap(archive), codec)
  }

  /** Every archive that is accepted restores the database in it in this way, whatever its version. */
  lemma RestoredByVersion(archive: seq<ZipEntry>, codec: Codec)
    requires Accepts(archive, codec)
    ensures DB_NAME in EntryMap(archive) && codec.readDb(EntryMap(archive)[DB_NAME].content).Some?
    ensures var db := codec.readDb(EntryMap(archive)[DB_NAME].content).value;
            6 <= db.version <= CURRENT_VERSION && db.intact && RestoredBy(db, RestoredOf(archive, codec).db)
  {
    var entries := EntryMap(archive);
    AcceptedDb(ManifestOf(archive, codec).value, entries, codec);
    PreparedBy(codec.readDb(entries[DB_NAME].content).value);
  }

  lemma AcceptedDb(manifest: Manifest, entries: map<string, ZipEntry>, codec: Codec)
    requires FilesOk(manifest, entries, codec)
    ensures DB_NAME in entries && codec.readDb(entries[DB_NAME].content).Some?
    ensures var db := codec.readDb(entries[DB_NAME].content).value;
            && 6 <= db.version <= CURRENT_VERSION && db.intact
            && RestoredFiles(manifest, entries, codec).db == Prepared(db)
  {
  }

  // ---- restore, as the program runs it ----

  /** The loop over the manifest, in any order. */
  method CheckInventory(manifest: Manifest, entries: map<string, ZipEntry>) returns (ok: bool)
    ensures ok <==> InventoryOk(manifest, entries)
  {
    if manifest.format != 1 || |manifest.files| + 1 != |entries| || DB_NAME !in entries {
      return false;
    }
    var todo := manifest.files.Keys;
    while todo != {}
      invariant todo <= manifest.files.Keys
      invariant forall name :: name in manifest.files.Keys - todo ==> ListedOk(name, manifest.files[name], entries)
      decreases todo
    {
      var name :| name in todo;
      var listed := manifest.files[name];
      if !IsArchiveName(name) || name !in entries || listed.size < 0 || listed.size != entries[name].declared
         || |listed.sha256| != 64 {
        return false;
      }
      if name != DB_NAME && listed.size > MAX_STORED_BOOK {
        return false;
      }
      if name == DB_NAME && listed.size > MAX_DATABASE {
        return false;
      }
      todo := todo - {name};
    }
    return true;
  }

  /** The loop that copies and checks the listed files into the staging directory, in any order. */
  method CopyFiles(manifest: Manifest, entries: map<string, ZipEntry>, env: Env)
    returns (stage: Option<map<string, Bytes>>)
    requires forall name :: name in manifest.files ==> name in entries && IsArchiveName(name)
    ensures stage.Some? <==> ContentsOk(manifest, entries, env)
    ensures stage.Some? ==> stage.value == map name | name in manifest.files :: entries[name].content
  {
    var todo := manifest.files.Keys;
    var copied: map<string, Bytes> := map[];
    while todo != {}
      invariant todo <= manifest.files.Keys
      invariant copied == map name | name in manifest.files.Keys - todo :: entries[name].content
      invariant forall name :: name in manifest.files.Keys - todo ==>
                  ContentOk(name, manifest.files[name], entries[name].content, env)
      decreases todo
    {
      var name :| name in todo;
      var content, listed := entries[name].content, manifest.files[name];
      if |content| != listed.size || env.hash(content) != listed.sha256 {
        return None;
      }
      if name != DB_NAME && env.hash(content) != BookPart(name) {
        return None;
      }
      if name != DB_NAME && env.detect(content) != Some(FormatPart(name)) {
        return None;
      }
      copied := copied[name := content];
      todo := todo - {name};
    }
    return Some(copied);
  }

  /** `prepareRestoredDatabase`: the checks that make the archive match the database's rows. */
  method PrepareDatabase(db: Db, names: set<string>) returns (out: Option<Db>)
    ensures out.Some? <==> ReferencesOk(db, names)
    ensures out.Some? ==> out.value == Prepared(db) && RestoredBy(db, out.value)
  {
    if db.version < 6 || db.version > 14 || !db.intact {
      return None;
    }
    FormatsDistinct();
    var refs := References(db.rows);
    var todo := refs;
    var count := 0;
    while todo != {}
      invariant todo <= refs && count == |refs| - |todo|
      invariant AllFoundOnce(refs - todo, names)
      decreases todo
    {
      var ref :| ref in todo;
      var found := CountFormats(names, ref, Operations.BOOK_FORMATS);
      if found != 1 {
        return None;
      }
      count := count + 1;
      todo := todo - {ref};
    }
    if count + 1 != |names| {
      return None;
    }
    PreparedBy(db);
    return Some(Prepared(db));
  }

  method RestoreFiles(manifest: Manifest, entries: map<string, ZipEntry>, codec: Codec)
    returns (out: Option<Restored>)
    ensures out.Some? <==> FilesOk(manifest, entries, codec)
    ensures out.Some? ==> out.value == RestoredFiles(manifest, entries, codec)
  {
    var ok := CheckInventory(manifest, entries);
    if !ok {
      return None;
    }
    var stage := CopyFiles(manifest, entries, codec.env);
    if stage.None? || DB_NAME !in stage.value {
      return None;
    }
    var db := codec.readDb(stage.value[DB_NAME]);
    if db.None? {
      return None;
    }
    var prepared := PrepareDatabase(db.value, manifest.files.Keys);
    if prepared.None? {
      return None;
    }
    return Some(Restored(prepared.value, map name | name in stage.value && name != DB_NAME :: stage.value[name]));
  }

  method Restore(archive: seq<ZipEntry>, codec: Codec) returns (out: Option<Restored>)
    ensures out.Some? <==> Accepts(archive, codec)
    ensures out.Some? ==> out.value == RestoredOf(archive, codec)
  {
    if |archive| > MAX_REFERENCES + 2 {
      return None;
    }
    var read := ReadEntries(archive);
    if read.None? {
      return None;
    }
    var entries := read.value;
    if MANIFEST_NAME !in entries || entries[MANIFEST_NAME].declared > MAX_MANIFEST {
      return None;
    }
    var manifest := codec.readManifest(entries[MANIFEST_NAME].content);
    if manifest.None? {
      return None;
    }
    out := RestoreFiles(manifest.value, entries, codec);
  }

  // ---- what acceptance means ----

  lemma InventoryIsEverything(manifest: Manifest, entries: map<string, ZipEntry>)
    requires InventoryOk(manifest, entries) && MANIFEST_NAME in entries
    ensures entries.Keys == manifest.files.Keys + {MANIFEST_NAME} && MANIFEST_NAME !in manifest.files
  {
    assert !IsArchiveName(MANIFEST_NAME);
    assert MANIFEST_NAME !in manifest.files;
    assert |manifest.files.Keys| == |manifest.files| && |entries.Keys| == |entries|;
    SubsetOfSameSize(manifest.files.Keys + {MANIFEST_NAME}, entries.Keys);
  }

  /** The entries of an accepted archive are exactly the files its manifest lists and the manifest. */
  lemma AcceptedEntriesAreManifest(archive: seq<ZipEntry>, codec: Codec)
    requires Accepts(archive, codec)
    ensures Names(archive) == ManifestOf(archive, codec).value.files.Keys + {MANIFEST_NAME}
    ensures MANIFEST_NAME !in ManifestOf(archive, codec).value.files
  {
    InventoryIsEverything(ManifestOf(archive, codec).value, EntryMap(archive));
  }

  /** The bytes of an archive that restore writes out: all but the manifest's. */
  function WrittenBytes(archive: seq<ZipEntry>): nat {
    if archive == [] then 0
    else
      var last := archive[|archive| - 1];
      WrittenBytes(archive[..|archive| - 1]) + if last.name == MANIFEST_NAME then 0 else |last.content|
  }

  /** Every entry that an accepted archive restores holds as many bytes as it declares and the manifest lists, within
      the limit of its kind. */
  lemma AcceptedSizesAreTrue(archive: seq<ZipEntry>, codec: Codec, i: nat)
    requires Accepts(archive, codec) && i < |archive| && archive[i].name != MANIFEST_NAME
    ensures archive[i].name in ManifestOf(archive, codec).value.files
    ensures var e := archive[i];
            && ManifestOf(archive, codec).value.files[e.name] == ManifestEntry(|e.content|, codec.env.hash(e.content))
            && |e.content| == e.declared <= if e.name == DB_NAME then MAX_DATABASE else MAX_STORED_BOOK
  {
    var manifest, entries, name := ManifestOf(archive, codec).value, EntryMap(archive), archive[i].name;
    EntryMapFinds(archive, i);
    AcceptedEntriesAreManifest(archive, codec);
    assert name in Names(archive);
    assert ListedOk(name, manifest.files[name], entries);
    assert ContentOk(name, manifest.files[name], entries[name].content, codec.env);
  }

  /** So what is written out is never more than 100 GiB, whatever the archive claims. */
  lemma WrittenWithinLimit(archive: seq<ZipEntry>, codec: Codec)
    requires Accepts(archive, codec)
    ensures WrittenBytes(archive) <= MAX_TOTAL
  {
    forall i | 0 <= i < |archive| && archive[i].name != MANIFEST_NAME
      ensures |archive[i].content| == archive[i].declared
    {
      AcceptedSizesAreTrue(archive, codec, i);
    }
    WrittenAsDeclared(archive);
  }

  lemma {:induction false} WrittenAsDeclared(archive: seq<ZipEntry>)
    requires forall i :: 0 <= i < |archive| && archive[i].name != MANIFEST_NAME ==>
               |archive[i].content| == archive[i].declared
    ensures WrittenBytes(archive) <= Total(archive)
  {
    if archive != [] {
      WrittenAsDeclared(archive[..|archive| - 1]);
    }
  }

  /** Restored objects and the distinct (owner, book) rows are in bijection: every row has exactly one
      object, every object belongs to a row, and its digest and format are its name. */
  ghost predicate ObjectsAreReferences(r: Restored, env: Env) {
    && AllFoundOnce(References(r.db.rows), r.objects.Keys)
    && FoundNames(References(r.db.rows), r.objects.Keys) == r.objects.Keys
    && |r.objects| == |References(r.db.rows)|
    && forall name :: name in r.objects ==>
         && IsObjectName(name) && env.hash(r.objects[name]) == BookPart(name)
         && env.detect(r.objects[name]) == Some(FormatPart(name))
         && Reference(OwnerPart(name), BookPart(name)) in References(r.db.rows)
  }

  lemma WithoutDatabaseName(names: set<string>, ref: Reference)
    ensures FormatsFound(names - {DB_NAME}, ref) == FormatsFound(names, ref)
  {
    forall format | format in Operations.BOOK_FORMATS
      ensures NameOf(ref.owner, ref.book, format) in names - {DB_NAME} <==> NameOf(ref.owner, ref.book, format) in names
    {
      ObjectNamesAreNotSpecial(ref.owner, ref.book, format);
    }
  }

  lemma ReferencesWithoutDatabase(refs: set<Reference>, names: set<string>)
    requires AllFoundOnce(refs, names) && ArchiveNames(names) && DB_NAME in names && |refs| + 1 == |names|
    ensures var objects := names - {DB_NAME};
            AllFoundOnce(refs, objects) && FoundNames(refs, objects) == objects && |objects| == |refs|
  {
    var objects := names - {DB_NAME};
    forall ref | ref in refs ensures FormatsFound(objects, ref) == FormatsFound(names, ref) {
      WithoutDatabaseName(names, ref);
    }
    forall ref | ref in refs ensures FoundName(objects, ref) in objects {
      FoundNameFacts(objects, ref);
    }
    FoundNamesCounted(refs, objects);
    SubsetOfSameSize(FoundNames(refs, objects), objects);
  }

  lemma AcceptedObjectsAreReferences(archive: seq<ZipEntry>, codec: Codec)
    requires Accepts(archive, codec)
    ensures ObjectsAreReferences(RestoredOf(archive, codec), codec.env)
  {
    FilesAreReferences(ManifestOf(archive, codec).value, EntryMap(archive), codec);
  }

  /** SHA-256 being injective, the manifest decides what is restored: of two archives with one manifest, both accepted,
      however their entries are ordered or compressed, the same comes back. */
  lemma ManifestDecides(a: seq<ZipEntry>, b: seq<ZipEntry>, codec: Codec)
    requires Accepts(a, codec) && Accepts(b, codec) && ManifestOf(a, codec) == ManifestOf(b, codec)
    requires forall x: Bytes, y: Bytes :: codec.env.hash(x) == codec.env.hash(y) ==> x == y
    ensures RestoredOf(a, codec) == RestoredOf(b, codec)
  {
    FilesDecided(ManifestOf(a, codec).value, EntryMap(a), EntryMap(b), codec);
  }

  lemma FilesDecided(manifest: Manifest, a: map<string, ZipEntry>, b: map<string, ZipEntry>, codec: Codec)
    requires FilesOk(manifest, a, codec) && FilesOk(manifest, b, codec)
    requires forall x: Bytes, y: Bytes :: codec.env.hash(x) == codec.env.hash(y) ==> x == y
    ensures RestoredFiles(manifest, a, codec) == RestoredFiles(manifest, b, codec)
  {
    forall name | name in manifest.files ensures a[name].content == b[name].content {
      assert ContentOk(name, manifest.files[name], a[name].content, codec.env);
      assert ContentOk(name, manifest.files[name], b[name].content, codec.env);
    }
  }

  lemma FilesAreReferences(manifest: Manifest, entries: map<string, ZipEntry>, codec: Codec)
    requires FilesOk(manifest, entries, codec)
    ensures ObjectsAreReferences(RestoredFiles(manifest, entries, codec), codec.env)
  {
    var names, rows := manifest.files.Keys, DbOf(entries, codec).value.rows;
    var r := RestoredFiles(manifest, entries, codec);
    assert r.db.rows == rows;
    assert r.objects.Keys == names - {DB_NAME};
    InventoryNames(manifest, entries);
    NamesAreReferences(References(rows), names);
    ReferencesWithoutDatabase(References(rows), names);
    forall name | name in r.objects
      ensures && IsObjectName(name) && codec.env.hash(r.objects[name]) == BookPart(name)
              && codec.env.detect(r.objects[name]) == Some(FormatPart(name))
    {
      assert ContentOk(name, manifest.files[name], entries[name].content, codec.env);
    }
  }

  lemma InventoryNames(manifest: Manifest, entries: map<string, ZipEntry>)
    requires InventoryOk(manifest, entries)
    ensures ArchiveNames(manifest.files.Keys)
  {
    forall name | name in manifest.files.Keys ensures IsArchiveName(name) {
      assert ListedOk(name, manifest.files[name], entries);
    }
  }
}
