/** Stores that `Backup` (internal/server/backup.go) packs and whose archives `RestoreBackup` refuses: any uploads that
    fill the limit together with the database, for every encoder and digest. */
module RefusedBackup {
  import opened Text
  import opened BookFiles
  import opened Archives
  import opened Backups
  import opened BackupRoundTrip

  /** Different readers, each with one content that an upload takes. */
  ghost predicate CanUpload(owners: seq<string>, contents: seq<Bytes>, env: Env) {
    && |owners| == |contents| && EnvOk(env) && HexDigests(env)
    && (forall i, j :: 0 <= i < j < |owners| ==> owners[i] != owners[j])
    && (forall i :: 0 <= i < |owners| ==> |owners[i]| == 64 && AllHex(owners[i]))
    && forall i :: 0 <= i < |contents| ==> |contents[i]| <= env.maxUpload && env.detect(contents[i]).Some?
  }

  const EMPTY_STORE := System(Files(map[], map[]), map[], map[], Idle)

  /** The store after the first `n` uploads. */
  function Uploaded(owners: seq<string>, contents: seq<Bytes>, env: Env, n: nat): System
    requires n <= |owners| == |contents|
  {
    if n == 0 then EMPTY_STORE
    else
      var staged := Do(Uploaded(owners, contents, env, n - 1), StageUpload(owners[n - 1], contents[n - 1], ""), env);
      Do(staged, CommitUpload, env)
  }

  function KeyOf(owner: string, content: Bytes, env: Env): FileKey {
    FileKey(owner, env.hash(content), Upload, "")
  }

  function ObjectOf(owner: string, content: Bytes, env: Env): ObjectName
    requires env.detect(content).Some?
  {
    ObjectName(owner, env.hash(content), env.detect(content).value)
  }

  /** The rows and the objects of the first `n` uploads. */
  function RowsOf(owners: seq<string>, contents: seq<Bytes>, env: Env, n: nat): map<FileKey, nat>
    requires n <= |owners| == |contents|
  {
    if n == 0 then map[]
    else RowsOf(owners, contents, env, n - 1)[KeyOf(owners[n - 1], contents[n - 1], env) := |contents[n - 1]|]
  }

  function ObjectsOf(owners: seq<string>, contents: seq<Bytes>, env: Env, n: nat): map<ObjectName, Bytes>
    requires n <= |owners| == |contents| && forall i :: 0 <= i < n ==> env.detect(contents[i]).Some?
  {
    if n == 0 then map[]
    else ObjectsOf(owners, contents, env, n - 1)[ObjectOf(owners[n - 1], contents[n - 1], env) := contents[n - 1]]
  }

  lemma {:induction false} RowAt(owners: seq<string>, contents: seq<Bytes>, env: Env, n: nat, i: nat)
    requires i < n <= |owners| == |contents|
    ensures KeyOf(owners[i], contents[i], env) in RowsOf(owners, contents, env, n)
  {
    if i < n - 1 {
      RowAt(owners, contents, env, n - 1, i);
    }
  }

  lemma {:induction false} RowIndex(owners: seq<string>, contents: seq<Bytes>, env: Env, n: nat, k: FileKey)
    returns (i: nat)
    requires n <= |owners| == |contents| && k in RowsOf(owners, contents, env, n)
    ensures i < n && k == KeyOf(owners[i], contents[i], env)
  {
    if k == KeyOf(owners[n - 1], contents[n - 1], env) {
      i := n - 1;
    } else {
      i := RowIndex(owners, contents, env, n - 1, k);
    }
  }

  lemma {:induction false} ObjectIndex(owners: seq<string>, contents: seq<Bytes>, env: Env, n: nat, o: ObjectName)
    returns (i: nat)
    requires n <= |owners| == |contents| && forall i :: 0 <= i < n ==> env.detect(contents[i]).Some?
    requires o in ObjectsOf(owners, contents, env, n)
    ensures i < n && o == ObjectOf(owners[i], contents[i], env) && ObjectsOf(owners, contents, env, n)[o] == contents[i]
  {
    if o == ObjectOf(owners[n - 1], contents[n - 1], env) {
      i := n - 1;
    } else {
      i := ObjectIndex(owners, contents, env, n - 1, o);
    }
  }

  lemma ObjectIsNew(owners: seq<string>, contents: seq<Bytes>, env: Env, n: nat)
    requires CanUpload(owners, contents, env) && n < |owners|
    ensures ObjectOf(owners[n], contents[n], env) !in ObjectsOf(owners, contents, env, n)
  {
    if ObjectOf(owners[n], contents[n], env) in ObjectsOf(owners, contents, env, n) {
      var i := ObjectIndex(owners, contents, env, n, ObjectOf(owners[n], contents[n], env));
    }
  }

  lemma OneUpload(rows: map<FileKey, nat>, objects: map<ObjectName, Bytes>, owner: string, content: Bytes, env: Env)
    requires env.detect(content).Some? && |content| <= env.maxUpload && ObjectOf(owner, content, env) !in objects
    ensures var before := EMPTY_STORE.(files := Files(rows, objects));
            Do(Do(before, StageUpload(owner, content, ""), env), CommitUpload, env) ==
              before.(files := Files(rows[KeyOf(owner, content, env) := |content|],
                                     objects[ObjectOf(owner, content, env) := content]))
  {
  }

  /** The uploads leave just those. */
  lemma {:induction false} UploadsHold(owners: seq<string>, contents: seq<Bytes>, env: Env, n: nat)
    requires CanUpload(owners, contents, env) && n <= |owners|
    ensures Uploaded(owners, contents, env, n) ==
              EMPTY_STORE.(files := Files(RowsOf(owners, contents, env, n), ObjectsOf(owners, contents, env, n)))
  {
    if n > 0 {
      UploadsHold(owners, contents, env, n - 1);
      ObjectIsNew(owners, contents, env, n - 1);
      OneUpload(RowsOf(owners, contents, env, n - 1), ObjectsOf(owners, contents, env, n - 1),
                owners[n - 1], contents[n - 1], env);
    }
  }

  lemma {:induction false} UploadsSafe(owners: seq<string>, contents: seq<Bytes>, env: Env, n: nat)
    requires |owners| == |contents| && n <= |owners| && EnvOk(env)
    ensures SystemOk(Uploaded(owners, contents, env, n), env)
  {
    if n > 0 {
      UploadsSafe(owners, contents, env, n - 1);
      var before := Uploaded(owners, contents, env, n - 1);
      var upload := StageUpload(owners[n - 1], contents[n - 1], "");
      EffectOk(before, upload, env);
      EffectOk(Do(before, upload, env), CommitUpload, env);
    }
  }

  // ---- the references and their objects ----

  function RefsOf(owners: seq<string>, contents: seq<Bytes>, env: Env): seq<Reference>
    requires |owners| == |contents|
  {
    seq(|owners|, i requires 0 <= i < |owners| => Reference(owners[i], env.hash(contents[i])))
  }

  lemma UploadsListed(rows: map<FileKey, nat>, owners: seq<string>, contents: seq<Bytes>, env: Env)
    requires CanUpload(owners, contents, env) && rows == RowsOf(owners, contents, env, |owners|)
    ensures Listing(RefsOf(owners, contents, env), rows) && HexOwners(rows)
  {
    var refs := RefsOf(owners, contents, env);
    forall ref | ref in refs ensures ref in References(rows) {
      var i :| 0 <= i < |refs| && refs[i] == ref;
      RefIsListed(rows, owners, contents, env, i);
    }
    forall ref | ref in References(rows) ensures ref in refs {
      var k :| k in rows && ref == Reference(k.user, k.book);
      var i := RowIndex(owners, contents, env, |owners|, k);
      assert refs[i] == ref;
    }
    forall k | k in rows ensures |k.user| == 64 && AllHex(k.user) {
      var i := RowIndex(owners, contents, env, |owners|, k);
    }
  }

  lemma RefIsListed(rows: map<FileKey, nat>, owners: seq<string>, contents: seq<Bytes>, env: Env, i: nat)
    requires i < |owners| == |contents| && rows == RowsOf(owners, contents, env, |owners|)
    ensures RefsOf(owners, contents, env)[i] in References(rows)
  {
    RowAt(owners, contents, env, |owners|, i);
    var key := KeyOf(owners[i], contents[i], env);
    assert Reference(key.user, key.book) in References(rows);
  }

  lemma UploadFound(files: Files, owners: seq<string>, contents: seq<Bytes>, env: Env, i: nat)
    requires CanUpload(owners, contents, env) && i < |owners| && Backed(files)
    requires files == Files(RowsOf(owners, contents, env, |owners|), ObjectsOf(owners, contents, env, |owners|))
    ensures BytesAt(RefsOf(owners, contents, env)[i], files) == contents[i]
  {
    var ref := RefsOf(owners, contents, env)[i];
    RefIsListed(files.rows, owners, contents, env, i);
    ReferenceHasObject(ref, files);
    var j := ObjectIndex(owners, contents, env, |owners|, PathOf(ref, files));
    assert owners[j] == owners[i];
  }

  // ---- sizes ----

  function SizesOf(contents: seq<Bytes>): nat {
    if contents == [] then 0 else SizesOf(contents[..|contents| - 1]) + |contents[|contents| - 1]|
  }

  lemma {:induction false} TotalOf(
      db: Db, files: Files, refs: seq<Reference>, codec: Codec, contents: seq<Bytes>, n: nat)
    requires n <= |refs| == |contents|
    requires forall i :: 0 <= i < |refs| ==> BytesAt(refs[i], files) == contents[i]
    ensures Total(Sources(db, files, refs, codec)[..n + 1]) == |codec.writeDb(Scrubbed(db))| + SizesOf(contents[..n])
  {
    if n == 0 {
      StartOfSources(db, files, refs, codec);
    } else {
      TotalOf(db, files, refs, codec, contents, n - 1);
      SourcesStep(db, files, refs, n - 1, codec);
      assert contents[..n][..n - 1] == contents[..n - 1];
    }
  }

  lemma TotalOfAll(db: Db, files: Files, refs: seq<Reference>, codec: Codec, contents: seq<Bytes>)
    requires |refs| == |contents| && forall i :: 0 <= i < |refs| ==> BytesAt(refs[i], files) == contents[i]
    ensures Total(Sources(db, files, refs, codec)) == |codec.writeDb(Scrubbed(db))| + SizesOf(contents)
  {
    TotalOf(db, files, refs, codec, contents, |refs|);
    assert Sources(db, files, refs, codec)[..|refs| + 1] == Sources(db, files, refs, codec);
    assert contents[..|refs|] == contents;
  }

  // ---- refusal ----

  /** The server's database after the uploads, with any reading data, written and read by any engine. */
  ghost predicate IsDatabase(db: Db, files: Files, codec: Codec) {
    && db.rows == files.rows && db.version == CURRENT_VERSION && db.intact
    && codec.readDb(codec.writeDb(Scrubbed(db))) == Some(Scrubbed(db))
    && |codec.writeDb(Scrubbed(db))| <= MAX_DATABASE
  }

  lemma UploadsBackUp(db: Db, files: Files, owners: seq<string>, contents: seq<Bytes>, codec: Codec)
    requires CanUpload(owners, contents, codec.env) && |owners| <= MAX_REFERENCES
    requires files == Uploaded(owners, contents, codec.env, |owners|).files && IsDatabase(db, files, codec)
    requires forall i :: 0 <= i < |contents| ==> |contents[i]| <= MAX_STORED_BOOK
    requires |codec.writeDb(Scrubbed(db))| + SizesOf(contents) <= MAX_TOTAL
    ensures var refs := RefsOf(owners, contents, codec.env);
            && Consistent(db, files, codec) && Listing(refs, db.rows) && CanBackUp(db, files, refs, codec)
            && Total(Sources(db, files, refs, codec)) == |codec.writeDb(Scrubbed(db))| + SizesOf(contents)
  {
    UploadsHold(owners, contents, codec.env, |owners|);
    UploadsSafe(owners, contents, codec.env, |owners|);
    UploadsListed(files.rows, owners, contents, codec.env);
    var refs := RefsOf(owners, contents, codec.env);
    forall i | 0 <= i < |refs| ensures BytesAt(refs[i], files) == contents[i] {
      UploadFound(files, owners, contents, codec.env, i);
    }
    forall ref | ref in refs ensures |BytesAt(ref, files)| <= MAX_STORED_BOOK {
      var i :| 0 <= i < |refs| && refs[i] == ref;
    }
    TotalOfAll(db, files, refs, codec, contents);
    ConsistentBackUpIff(db, files, refs, codec);
  }

  /** Uploads of any contents by different readers, up to the limits, leave a store whose backup is made. It is refused
      exactly when it passes 100 GiB together with its manifest. */
  lemma UploadsRefusedIff(
      db: Db, files: Files, owners: seq<string>, contents: seq<Bytes>, createdAt: string, codec: Codec)
    requires CanUpload(owners, contents, codec.env) && |owners| <= MAX_REFERENCES
    requires files == Uploaded(owners, contents, codec.env, |owners|).files && IsDatabase(db, files, codec)
    requires forall i :: 0 <= i < |contents| ==> |contents[i]| <= MAX_STORED_BOOK
    requires |codec.writeDb(Scrubbed(db))| + SizesOf(contents) <= MAX_TOTAL
    requires ManifestReads(db, files, RefsOf(owners, contents, codec.env), createdAt, codec)
    requires CompactManifests(codec) && IsTime(createdAt)
    ensures var refs := RefsOf(owners, contents, codec.env);
            var manifest := ManifestFor(Sources(db, files, refs, codec), createdAt, codec.env);
            && CanBackUp(db, files, refs, codec)
            && (Accepts(ArchiveOf(db, files, refs, createdAt, codec), codec) <==>
                  |codec.writeDb(Scrubbed(db))| + SizesOf(contents) + |codec.writeManifest(manifest)| <= MAX_TOTAL)
  {
    UploadsBackUp(db, files, owners, contents, codec);
    BackupAcceptedIff(db, files, RefsOf(owners, contents, codec.env), createdAt, codec);
  }

  lemma {:induction false} SizesOfEqual(contents: seq<Bytes>, size: nat)
    requires forall i :: 0 <= i < |contents| ==> |contents[i]| == size
    ensures SizesOf(contents) == size * |contents|
  {
    if contents != [] {
      SizesOfEqual(contents[..|contents| - 1], size);
    }
  }

  lemma SizesAre(contents: seq<Bytes>, books: seq<Bytes>, last: Bytes)
    requires contents == books + [last]
    ensures SizesOf(contents) == SizesOf(books) + |last|
  {
    assert contents[..|contents| - 1] == books;
  }

  /** `n` books of one size and one that fills what is left of the limit beside a database. */
  ghost predicate FillsUp(contents: seq<Bytes>, n: nat, size: nat, database: nat) {
    && |contents| == n + 1 && size <= MAX_STORED_BOOK && |contents[n]| <= MAX_STORED_BOOK
    && (forall i :: 0 <= i < n ==> |contents[i]| == size) && database + size * n + |contents[n]| == MAX_TOTAL
  }

  lemma FilledUp(contents: seq<Bytes>, n: nat, size: nat, database: nat)
    requires FillsUp(contents, n, size, database)
    ensures database + SizesOf(contents) == MAX_TOTAL
    ensures forall i :: 0 <= i < |contents| ==> |contents[i]| <= MAX_STORED_BOOK
  {
    SizesOfEqual(contents[..n], size);
    SizesAre(contents, contents[..n], contents[n]);
  }

  /** When they fill the limit, it is refused, whatever the digest, the database engine and the encoder, as long as the
      latter writes something. */
  lemma FullStoreIsRefused(
      db: Db, files: Files, owners: seq<string>, contents: seq<Bytes>, createdAt: string, codec: Codec)
    requires CanUpload(owners, contents, codec.env) && |owners| <= MAX_REFERENCES
    requires files == Uploaded(owners, contents, codec.env, |owners|).files && IsDatabase(db, files, codec)
    requires forall i :: 0 <= i < |contents| ==> |contents[i]| <= MAX_STORED_BOOK
    requires |codec.writeDb(Scrubbed(db))| + SizesOf(contents) == MAX_TOTAL
    requires ManifestReads(db, files, RefsOf(owners, contents, codec.env), createdAt, codec)
    requires CompactManifests(codec) && IsTime(createdAt) && codec.readManifest([]) == None
    ensures CanBackUp(db, files, RefsOf(owners, contents, codec.env), codec)
    ensures !Accepts(ArchiveOf(db, files, RefsOf(owners, contents, codec.env), createdAt, codec), codec)
  {
    UploadsRefusedIff(db, files, owners, contents, createdAt, codec);
  }

  /** In particular `n` books of one size and one that fills what the database leaves: 12 books of 8 GiB, or 49 of the
      2 GiB that the server takes by default. */
  lemma FullBackupIsRefused(
      db: Db, files: Files, owners: seq<string>, contents: seq<Bytes>, n: nat, size: nat, createdAt: string,
          codec: Codec)
    requires CanUpload(owners, contents, codec.env) && |owners| == n + 1 <= MAX_REFERENCES
    requires files == Uploaded(owners, contents, codec.env, |owners|).files && IsDatabase(db, files, codec)
    requires FillsUp(contents, n, size, |codec.writeDb(Scrubbed(db))|)
    requires ManifestReads(db, files, RefsOf(owners, contents, codec.env), createdAt, codec)
    requires CompactManifests(codec) && IsTime(createdAt) && codec.readManifest([]) == None
    ensures CanBackUp(db, files, RefsOf(owners, contents, codec.env), codec)
    ensures !Accepts(ArchiveOf(db, files, RefsOf(owners, contents, codec.env), createdAt, codec), codec)
  {
    FilledUp(contents, n, size, |codec.writeDb(Scrubbed(db))|);
    FullStoreIsRefused(db, files, owners, contents, createdAt, codec);
  }
}
