/** What seeding (internal/server/files.go, `seedBook`) leaves in a book's record, read back from the stored members. */
module SeedContents {
  import opened Text
  import opened Json
  import opened Accounts
  import opened Seeds
  import Folders

  function TextMember(m: map<string, Value>, name: string): string {
    if name in m && m[name].Str? then m[name].s else ""
  }

  function NumberMember(m: map<string, Value>, name: string): Option<real> {
    if name in m && m[name].Num? then Some(m[name].n) else None
  }

  function FlagMember(m: map<string, Value>, name: string): Option<bool> {
    if name in m && m[name].Bool? then Some(m[name].b) else None
  }

  /** The metadata that a stored value decodes to: every member under its own name. */
  function ReadBack(m: map<string, Value>): Metadata {
    Metadata(FlagMember(m, "inLibrary"), ListAt(m, "folders"), TextMember(m, "folder"), TextMember(m, "format"),
             TextMember(m, "title"), TextMember(m, "author"), TextMember(m, "series"), NumberMember(m, "volume"))
  }

  /** The folders of a seed: the one of the scanned file, or else what the metadata has, as far as it is valid; a
      scanned file at the top takes no list. */
  function SeedFolders(folder: Option<string>, metadata: Metadata): seq<string> {
    var own := if metadata.folder != "" && Folders.ValidFolder(metadata.folder) then [metadata.folder] else [];
    if folder.None? && metadata.folders.Some? && Folders.ValidList(metadata.folders.value) then metadata.folders.value
    else if folder.Some? && folder.value != "" then [folder.value]
    else own
  }

  const MUST_HOLD := {"title", "author", "series", "volume", "folder", "folders"}
  const MAY_HOLD := MUST_HOLD + {"inLibrary", "format"}

  /** The value reads back as this metadata, with the name of the file for a missing title and with these folders, of
      which the first is the primary one; and it holds no other member. */
  predicate HoldsMetadata(m: map<string, Value>, name: string, metadata: Metadata, folders: seq<string>) {
    && MUST_HOLD <= m.Keys <= MAY_HOLD
    && ReadBack(m) == metadata.(title := if metadata.title == "" then name else metadata.title,
                                folders := Some(folders), folder := if folders == [] then "" else folders[0])
  }

  predicate ReadsAs(candidates: seq<Candidate>, name: string, metadata: Metadata, folders: seq<string>) {
    && Settled(candidates) && Members(candidates[0].value).Some?
    && HoldsMetadata(Members(candidates[0].value).value, name, metadata, folders)
  }

  /** The members of a seed before its folders become canonical. */
  lemma FieldsRead(seed: Seed)
    ensures var m := SeedFields(seed); var meta := seed.metadata;
            && m.Keys <= MAY_HOLD && {"title", "author", "series", "volume"} <= m.Keys
            && TextMember(m, "title") == (if meta.title == "" then seed.title else meta.title)
            && TextMember(m, "author") == meta.author && TextMember(m, "series") == meta.series
            && TextMember(m, "format") == meta.format && NumberMember(m, "volume") == meta.volume
            && FlagMember(m, "inLibrary") == meta.inLibrary
  {
  }

  lemma FoldersRead(seed: Seed)
    ensures Folders.NextMemberships(SeedFields(seed), map[]) == SeedFolders(seed.folder, seed.metadata)
  {
    var fields, meta := SeedFields(seed), seed.metadata;
    if seed.folder.None? && meta.folders.Some? && Folders.ValidList(meta.folders.value) {
      TextsOfStrArr(meta.folders.value);
    } else {
      assert "folders" !in fields;
      assert "folder" in fields ==> fields["folder"].Str?;
      var none: seq<string> := [];
      assert Folders.Memberships(map[]) == none && Folders.Without(none, TextAt(fields, "folder")) == none;
    }
  }

  /** Making the folders canonical changes only the two members for them. */
  lemma CanonicalReads(fields: map<string, Value>, folders: seq<string>)
    requires Folders.NextMemberships(fields, map[]) == folders
    ensures var m := Folders.Canonical(fields, map[]);
            && m.Keys == fields.Keys + {"folder", "folders"}
            && (forall name :: name in m && name != "folder" && name != "folders" ==> m[name] == fields[name])
            && TextMember(m, "folder") == Folders.Primary(folders) && ListAt(m, "folders") == Some(folders)
  {
    TextsOfStrArr(folders);
  }

  lemma SeedValueReads(seed: Seed)
    ensures HoldsMetadata(SeedValue(seed).members, seed.title, seed.metadata,
                          SeedFolders(seed.folder, seed.metadata))
  {
    FieldsRead(seed);
    FoldersRead(seed);
    CanonicalReads(SeedFields(seed), SeedFolders(seed.folder, seed.metadata));
  }

  /** What a seed that writes leaves: the only candidate of the record, under its own identifier and time. */
  lemma SeedIsRead(st: Account, seed: Seed)
    requires SeedWrites(st, seed)
    ensures LeftBy(SeedOne(st, seed), seed)
    ensures RevisionOf(SeedOne(st, seed), BookKey(seed.bookId)) == RevisionOf(st, BookKey(seed.bookId)) + 1
  {
    SeedValueReads(seed);
  }

  /** The record of the seed's book is this seed's. */
  predicate LeftBy(st: Account, seed: Seed) {
    var candidates := CandidatesOf(st, BookKey(seed.bookId));
    && ReadsAs(candidates, seed.title, seed.metadata, SeedFolders(seed.folder, seed.metadata))
    && candidates[0].operationId == seed.freshId && candidates[0].createdAt == seed.now
  }

  /** One of the first `n` seeds is of this record's book and left it. */
  ghost predicate OneLeft(st: Account, seeds: seq<Seed>, n: nat, key: Key)
    requires n <= |seeds|
  {
    exists i :: 0 <= i < n && BookKey(seeds[i].bookId) == key && LeftBy(st, seeds[i])
  }

  lemma OneLeftStep(before: Account, after: Account, seeds: seq<Seed>, n: nat, key: Key)
    requires n < |seeds| && OneLeft(before, seeds, n, key) && CandidatesOf(after, key) == CandidatesOf(before, key)
    ensures OneLeft(after, seeds, n + 1, key)
  {
    var i :| 0 <= i < n && BookKey(seeds[i].bookId) == key && LeftBy(before, seeds[i]);
    assert LeftBy(after, seeds[i]);
  }

  lemma SeedStepRead(st: Account, before: Account, seeds: seq<Seed>, n: nat, key: Key)
    requires n < |seeds|
    requires CandidatesOf(before, key) == CandidatesOf(st, key) || OneLeft(before, seeds, n, key)
    ensures var after := SeedOne(before, seeds[n]);
            CandidatesOf(after, key) == CandidatesOf(st, key) || OneLeft(after, seeds, n + 1, key)
  {
    var after := SeedOne(before, seeds[n]);
    if SeedWrites(before, seeds[n]) && BookKey(seeds[n].bookId) == key {
      SeedIsRead(before, seeds[n]);
      assert LeftBy(after, seeds[n]);
    } else {
      assert CandidatesOf(after, key) == CandidatesOf(before, key);
      if OneLeft(before, seeds, n, key) {
        OneLeftStep(before, after, seeds, n, key);
      }
    }
  }

  lemma SeedStepKeeps(before: Account, seed: Seed, key: Key)
    requires key in before.records || BookKey(seed.bookId) == key
    ensures key in SeedOne(before, seed).records
  {
  }

  /** After any seeds every record is as it was, or one of them wrote it last; and every book that was seeded has
      one. */
  lemma {:induction false} SeedsAreRead(st: Account, after: Account, seeds: seq<Seed>, n: nat, key: Key)
    requires n <= |seeds| && after == SeedMany(st, seeds, n)
    ensures CandidatesOf(after, key) == CandidatesOf(st, key) || OneLeft(after, seeds, n, key)
    ensures key in st.records ==> key in after.records
    ensures forall i :: 0 <= i < n && BookKey(seeds[i].bookId) == key ==> key in after.records
    decreases n
  {
    if n > 0 {
      var before := SeedMany(st, seeds, n - 1);
      SeedsAreRead(st, before, seeds, n - 1, key);
      SeedStepRead(st, before, seeds, n - 1, key);
      if key in before.records || BookKey(seeds[n - 1].bookId) == key {
        SeedStepKeeps(before, seeds[n - 1], key);
      }
    }
  }

  /** A shared seed reads back as the metadata of the book, outside the library, with `Untitled` for a missing title. */
  lemma SharedSeedIsRead(st: Account, item: SharedItem)
    requires SeedWrites(st, SharedSeed(item))
    ensures ReadsAs(CandidatesOf(SeedOne(st, SharedSeed(item)), BookKey(item.bookId)), "Untitled",
                    item.metadata.(inLibrary := Some(false)), SeedFolders(None, item.metadata))
  {
    SeedIsRead(st, SharedSeed(item));
  }
}
