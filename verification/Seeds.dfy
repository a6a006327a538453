/** The two automatic writers of the change log: `seedBook` (internal/server/files.go), and the
    read-then-recheck upgrade of shared seeds (internal/server/libraries.go). */
module Seeds {
  import opened Text
  import opened Json
  import Folders
  import opened Accounts
  import opened Sync

  // ---- seedBook ----

  datatype Metadata = Metadata(
    inLibrary: Option<bool>, folders: Option<seq<string>>, folder: string, format: string,
    title: string, author: string, series: string, volume: Option<real>)

  /** One call of `seedBook`: the metadata is the one after volume inference, `folder` is the scan's
      folder argument, and the random identifier and the time are inputs. */
  datatype Seed = Seed(
    bookId: string, title: string, metadata: Metadata, folder: Option<string>, freshId: string, now: int)

  const SEED_ID_LENGTH := 64

  function SeedFields(seed: Seed): map<string, Value> {
    var meta := seed.metadata;
    var base := map[
      "title" := Str(if meta.title != "" then meta.title else seed.title), "author" := Str(meta.author),
      "series" := Str(meta.series), "volume" := if meta.volume.Some? then Num(meta.volume.value) else Null];
    var flagged := if meta.inLibrary.Some? then base["inLibrary" := Bool(meta.inLibrary.value)] else base;
    var formatted := if meta.format != "" then flagged["format" := Str(meta.format)] else flagged;
    var placed :=
      if seed.folder.Some? && seed.folder.value != "" then formatted["folder" := Str(seed.folder.value)]
      else if meta.folder != "" && Folders.ValidFolder(meta.folder) then formatted["folder" := Str(meta.folder)]
      else formatted;
    if seed.folder.None? && meta.folders.Some? && Folders.ValidList(meta.folders.value)
    then placed["folders" := StrArr(meta.folders.value)] else placed
  }

  function SeedValue(seed: Seed): Stored {
    Marshalled(Folders.Canonical(SeedFields(seed), map[]))
  }

  /** What seeding takes for a seed of its own: a settled record whose operation identifier has 64
      characters, and whose title and author are still the seeded ones. */
  predicate LooksSeeded(candidates: seq<Candidate>, title: string) {
    && Settled(candidates) && |candidates[0].operationId| == SEED_ID_LENGTH
    && Members(candidates[0].value).Some?
    && var m := Members(candidates[0].value).value;
       "title" in m && m["title"] == Str(title) && "author" in m && m["author"] == Str("")
  }

  /** Whether this call of `seedBook` writes: the book has no record yet, or a replaceable seed that
      better and different metadata is known for. */
  predicate SeedWrites(st: Account, seed: Seed) {
    var key := BookKey(seed.bookId);
    key in st.records ==>
      && LooksSeeded(st.records[key].candidates, seed.title)
      && (seed.metadata.title != "" || seed.metadata.author != "")
      && st.records[key].candidates[0].value != SeedValue(seed)
  }

  function SeedOne(st: Account, seed: Seed): Account {
    if !SeedWrites(st, seed) then st
    else
      var key := BookKey(seed.bookId);
      Append(st, key, Row(RevisionOf(st, key) + 1, [Candidate(seed.freshId, false, SeedValue(seed), seed.now)]))
  }

  /** The first `n` seeds of one transaction. */
  function SeedMany(st: Account, seeds: seq<Seed>, n: nat): Account
    requires n <= |seeds|
  {
    if n == 0 then st else SeedOne(SeedMany(st, seeds, n - 1), seeds[n - 1])
  }

  method SeedBook(tx: Account, seed: Seed) returns (out: Account)
    ensures out == SeedOne(tx, seed)
  {
    out := tx;
    var key := BookKey(seed.bookId);
    var revision := 1;
    if key in tx.records {
      var candidates := tx.records[key].candidates;
      if |candidates| != 1 || candidates[0].deleted || |candidates[0].operationId| != SEED_ID_LENGTH {
        return;
      }
      var previous := Members(candidates[0].value);
      if previous.None? || "title" !in previous.value || previous.value["title"] != Str(seed.title)
         || "author" !in previous.value || previous.value["author"] != Str("") {
        return;
      }
      if seed.metadata.title == "" && seed.metadata.author == "" {
        return;
      }
      revision := tx.records[key].revision + 1;
    }
    var value := SeedValue(seed);
    if key in tx.records && tx.records[key].candidates[0].value == value {
      return;
    }
    var row := Row(revision, [Candidate(seed.freshId, false, value, seed.now)]);
    out := out.(records := out.records[key := row]);
    out := out.(cursor := out.cursor + 1);
    out := out.(changes := out.changes[out.cursor := Change(key, row)]);
  }

  lemma {:induction false} SeedManyPrefix(st: Account, a: seq<Seed>, b: seq<Seed>, n: nat)
    requires n <= |a| && n <= |b| && forall i :: 0 <= i < n ==> a[i] == b[i]
    ensures SeedMany(st, a, n) == SeedMany(st, b, n)
  {
    if n > 0 {
      SeedManyPrefix(st, a, b, n - 1);
    }
  }

  // ---- the second half of sharedSeeds ----

  /** A shared book without a record: its metadata, decoded before the transaction, and whether the library still
      offers it to the user by then. */
  datatype SharedItem = SharedItem(bookId: string, metadata: Metadata, available: bool, freshId: string, now: int)

  function SharedSeed(item: SharedItem): Seed {
    Seed(item.bookId, "Untitled", item.metadata.(inLibrary := Some(false)), None, item.freshId, item.now)
  }

  /** The seeds of the items that are still available. */
  function SharedSeedsOf(items: seq<SharedItem>): seq<Seed> {
    if items == [] then []
    else
      SharedSeedsOf(items[..|items| - 1]) +
      if items[|items| - 1].available then [SharedSeed(items[|items| - 1])] else []
  }

  function SharedAfter(st: Account, items: seq<SharedItem>): Account {
    SeedMany(st, SharedSeedsOf(items), |SharedSeedsOf(items)|)
  }

  lemma SharedSnoc(st: Account, items: seq<SharedItem>, i: nat)
    requires i < |items|
    ensures SharedAfter(st, items[..i + 1]) ==
              if items[i].available then SeedOne(SharedAfter(st, items[..i]), SharedSeed(items[i]))
              else SharedAfter(st, items[..i])
  {
    assert items[..i + 1][..i] == items[..i];
    var seeds := SharedSeedsOf(items[..i]);
    if items[i].available {
      assert SharedSeedsOf(items[..i + 1]) == seeds + [SharedSeed(items[i])];
      SeedManyPrefix(st, seeds, seeds + [SharedSeed(items[i])], |seeds|);
    } else {
      assert SharedSeedsOf(items[..i + 1]) == seeds;
    }
  }

  method SeedShared(store: AccountStore, items: seq<SharedItem>)
    modifies store
    ensures store.State() == SeedMany(old(store.State()), SharedSeedsOf(items), |SharedSeedsOf(items)|)
  {
    ghost var st := store.State();
    var tx := store.State();
    for i := 0 to |items|
      invariant store.State() == st && tx == SharedAfter(st, items[..i])
    {
      SharedSnoc(st, items, i);
      if !items[i].available {
        continue;
      }
      tx := SeedBook(tx, SharedSeed(items[i]));
    }
    assert items[..|items|] == items;
    store.records, store.changes, store.operations, store.cursor := tx.records, tx.changes, tx.operations, tx.cursor;
  }

  // ---- migrateSharedMembership ----

  /** One record the upgrade has read: its next revision and its rewritten candidate. */
  datatype Upgrade = Upgrade(bookId: string, revision: int, candidate: Candidate)

  /** The upgrade of a row: a settled one with a seed's identifier and no library flag gets one. */
  function UpgradeOf(bookId: string, row: Row): Option<Upgrade> {
    if !Settled(row.candidates) || |row.candidates[0].operationId| != SEED_ID_LENGTH then None
    else
      var members := Members(row.candidates[0].value);
      if members.None? || "inLibrary" in members.value then None
      else Some(Upgrade(bookId, row.revision + 1,
                        row.candidates[0].(value := Marshalled(members.value["inLibrary" := Bool(false)]))))
  }

  function ReadOne(st: Account, bookId: string): seq<Upgrade> {
    var key := BookKey(bookId);
    if key !in st.records then []
    else
      var upgrade := UpgradeOf(bookId, st.records[key]);
      if upgrade.Some? then [upgrade.value] else []
  }

  /** The read phase, over the books the query returns. */
  function ReadMany(st: Account, books: seq<string>): seq<Upgrade> {
    if books == [] then [] else ReadMany(st, books[..|books| - 1]) + ReadOne(st, books[|books| - 1])
  }

  /** Whether the write phase still applies an upgrade: no client sent an operation with the seed's
      identifier, and the record has the revision it was read at. */
  predicate UpgradeApplies(st: Account, up: Upgrade) {
    && up.candidate.operationId !in st.operations
    && BookKey(up.bookId) in st.records
    && st.records[BookKey(up.bookId)].revision == up.revision - 1
  }

  function WriteOne(st: Account, up: Upgrade): Account {
    if UpgradeApplies(st, up) then Append(st, BookKey(up.bookId), Row(up.revision, [up.candidate])) else st
  }

  /** The write phase. */
  function WriteMany(st: Account, ups: seq<Upgrade>): Account {
    if ups == [] then st else WriteOne(WriteMany(st, ups[..|ups| - 1]), ups[|ups| - 1])
  }

  method ReadUpgrades(store: AccountStore, books: seq<string>) returns (ups: seq<Upgrade>)
    ensures ups == ReadMany(store.State(), books)
  {
    ups := [];
    for i := 0 to |books|
      invariant ups == ReadMany(store.State(), books[..i])
    {
      assert books[..i + 1][..i] == books[..i];
      var key := BookKey(books[i]);
      if key in store.records {
        var row := store.records[key];
        if |row.candidates| != 1 || row.candidates[0].deleted || |row.candidates[0].operationId| != SEED_ID_LENGTH {
          continue;
        }
        var candidate := row.candidates[0];
        var fields := Members(candidate.value);
        if fields.None? || "inLibrary" in fields.value {
          continue;
        }
        candidate := candidate.(value := Marshalled(fields.value["inLibrary" := Bool(false)]));
        ups := ups + [Upgrade(books[i], row.revision + 1, candidate)];
      }
    }
    assert books[..|books|] == books;
  }

  method WriteUpgrades(store: AccountStore, ups: seq<Upgrade>)
    modifies store
    ensures store.State() == WriteMany(old(store.State()), ups)
  {
    var tx := store.State();
    for i := 0 to |ups|
      invariant store.State() == old(store.State())
      invariant tx == WriteMany(old(store.State()), ups[..i])
    {
      assert ups[..i + 1][..i] == ups[..i];
      var up := ups[i];
      if up.candidate.operationId in tx.operations {
        continue;
      }
      var key := BookKey(up.bookId);
      if key !in tx.records || tx.records[key].revision != up.revision - 1 {
        continue;
      }
      var row := Row(up.revision, [up.candidate]);
      tx := tx.(records := tx.records[key := row]);
      tx := tx.(cursor := tx.cursor + 1);
      tx := tx.(changes := tx.changes[tx.cursor := Change(key, row)]);
    }
    assert ups[..|ups|] == ups;
    store.records, store.changes, store.operations, store.cursor := tx.records, tx.changes, tx.operations, tx.cursor;
  }

  // ---- seeding twice ----

  lemma SameValue(seed: Seed, again: Seed)
    requires again == seed.(freshId := again.freshId, now := again.now)
    ensures SeedValue(again) == SeedValue(seed)
  {
    assert SeedFields(again) == SeedFields(seed);
  }

  /** Seeding again with the same metadata changes nothing. */
  lemma SeedIdempotent(st: Account, seed: Seed, again: Seed)
    requires again == seed.(freshId := again.freshId, now := again.now)
    requires SeedWrites(st, seed)
    ensures SeedOne(SeedOne(st, seed), again) == SeedOne(st, seed)
  {
    SameValue(seed, again);
    assert SeedOne(st, seed).records[BookKey(seed.bookId)].candidates[0].value == SeedValue(again);
  }

  // ---- the upgrade behaves as one step ----

  /** The upgrade with its read and its write in one transaction. */
  function UpgradeAtOnce(st: Account, books: seq<string>): Account {
    if books == [] then st
    else
      var before := UpgradeAtOnce(st, books[..|books| - 1]);
      WriteMany(before, ReadOne(before, books[|books| - 1]))
  }

  /** The books whose record did not change between two states. */
  function Unchanged(st: Account, later: Account, books: seq<string>): (r: seq<string>)
    ensures forall b :: b in r ==> b in books
  {
    if books == [] then []
    else
      var front := Unchanged(st, later, books[..|books| - 1]);
      var book := books[|books| - 1];
      var key := BookKey(book);
      if CandidatesOf(st, key) == CandidatesOf(later, key) && RevisionOf(st, key) == RevisionOf(later, key)
      then front + [book] else front
  }

  lemma WriteManyOfOne(st: Account, ups: seq<Upgrade>)
    requires |ups| <= 1
    ensures WriteMany(st, ups) == if ups == [] then st else WriteOne(st, ups[0])
  {
    if ups != [] {
      assert ups[..0] == [];
    }
  }

  lemma {:induction false} UpgradeAtOnceElsewhere(st: Account, books: seq<string>, book: string)
    requires book !in books
    ensures RevisionOf(UpgradeAtOnce(st, books), BookKey(book)) == RevisionOf(st, BookKey(book))
    ensures CandidatesOf(UpgradeAtOnce(st, books), BookKey(book)) == CandidatesOf(st, BookKey(book))
    ensures (BookKey(book) in UpgradeAtOnce(st, books).records) == (BookKey(book) in st.records)
    ensures UpgradeAtOnce(st, books).operations == st.operations
  {
    if books != [] {
      var front := books[..|books| - 1];
      assert book !in front;
      UpgradeAtOnceElsewhere(st, front, book);
      var before := UpgradeAtOnce(st, front);
      WriteManyOfOne(before, ReadOne(before, books[|books| - 1]));
    }
  }

  /** A book whose record changed in between is not upgraded. */
  lemma ChangedIsSkipped(st: Account, later: Account, done: Account, book: string)
    requires Consistent(st) && Consistent(later) && Extends(st, later)
    requires RevisionOf(done, BookKey(book)) == RevisionOf(later, BookKey(book)) > RevisionOf(st, BookKey(book))
    ensures WriteMany(done, ReadOne(st, book)) == done
  {
    WriteManyOfOne(done, ReadOne(st, book));
  }

  /** A book whose record did not change reads the same later. */
  lemma UnchangedReadsSame(st: Account, later: Account, done: Account, book: string)
    requires Consistent(st) && Consistent(later) && Extends(st, later)
    requires RevisionOf(later, BookKey(book)) == RevisionOf(st, BookKey(book))
    requires RevisionOf(done, BookKey(book)) == RevisionOf(later, BookKey(book))
    requires CandidatesOf(done, BookKey(book)) == CandidatesOf(later, BookKey(book))
    requires (BookKey(book) in done.records) == (BookKey(book) in later.records)
    ensures CandidatesOf(st, BookKey(book)) == CandidatesOf(later, BookKey(book))
    ensures ReadOne(done, book) == ReadOne(st, book)
  {
    SameRevisionSameRecord(st, later, BookKey(book));
    RecordFacts(st, BookKey(book));
    RecordFacts(later, BookKey(book));
  }

  /** Reading at `st` and writing at a later state is the same as upgrading at once, in the later
      state, exactly the books whose record is still the one read. */
  lemma {:induction false} TwoPhasesActAtOnce(st: Account, later: Account, books: seq<string>)
    requires Consistent(st) && Consistent(later) && Extends(st, later)
    requires Folders.Distinct(books)
    ensures WriteMany(later, ReadMany(st, books)) == UpgradeAtOnce(later, Unchanged(st, later, books))
  {
    if books != [] {
      var front, book := books[..|books| - 1], books[|books| - 1];
      assert Folders.Distinct(front) && book !in front;
      TwoPhasesActAtOnce(st, later, front);
      var done, key := WriteMany(later, ReadMany(st, front)), BookKey(book);
      var same := Unchanged(st, later, front);
      WriteManySplit(later, ReadMany(st, front), ReadOne(st, book));
      UpgradeAtOnceElsewhere(later, same, book);
      SameRevisionSameRecord(st, later, key);
      if RevisionOf(st, key) == RevisionOf(later, key) {
        UnchangedReadsSame(st, later, done, book);
        assert Unchanged(st, later, books) == same + [book];
        assert (same + [book])[..|same|] == same;
      } else {
        ChangedIsSkipped(st, later, done, book);
      }
    }
  }

  lemma {:induction false} WriteManySplit(st: Account, a: seq<Upgrade>, b: seq<Upgrade>)
    ensures WriteMany(st, a + b) == WriteMany(WriteMany(st, a), b)
    decreases |b|
  {
    if b == [] {
      assert a + b == a;
    } else {
      assert (a + b)[..|a + b| - 1] == a + b[..|b| - 1];
      WriteManySplit(st, a, b[..|b| - 1]);
    }
  }

  /** The record of a seed without a library flag whose identifier no client used. */
  predicate LacksFlag(st: Account, candidates: seq<Candidate>) {
    && Settled(candidates) && Members(candidates[0].value).Some?
    && |candidates[0].operationId| == SEED_ID_LENGTH && candidates[0].operationId !in st.operations
    && "inLibrary" !in Members(candidates[0].value).value
  }

  /** The seed with the flag added, and nothing else changed. */
  function WithFlag(candidates: seq<Candidate>): seq<Candidate>
    requires Settled(candidates) && Members(candidates[0].value).Some?
  {
    [candidates[0].(value := Marshalled(Members(candidates[0].value).value["inLibrary" := Bool(false)]))]
  }

  lemma UpgradeOneAddsFlag(st: Account, book: string, key: Key)
    ensures var was := CandidatesOf(st, key); var after := WriteMany(st, ReadOne(st, book));
            && CandidatesOf(after, key) == (if key == BookKey(book) && LacksFlag(st, was) then WithFlag(was) else was)
            && after.operations == st.operations
  {
    WriteManyOfOne(st, ReadOne(st, book));
  }

  lemma FlaggedLacksNone(st: Account, candidates: seq<Candidate>)
    requires LacksFlag(st, candidates)
    ensures !LacksFlag(st, WithFlag(candidates))
  {
  }

  /** Upgrading any list of books adds the flag to the records of the listed books that hold a seed without one, and
      leaves every other record as it is. */
  lemma {:induction false} UpgradeOnlyAddsFlag(st: Account, books: seq<string>, key: Key)
    ensures var was, now := CandidatesOf(st, key), CandidatesOf(UpgradeAtOnce(st, books), key);
            if key.bookId in books && key == BookKey(key.bookId) && LacksFlag(st, was) then now == WithFlag(was)
            else now == was
    ensures UpgradeAtOnce(st, books).operations == st.operations
  {
    if books != [] {
      var front, book := books[..|books| - 1], books[|books| - 1];
      UpgradeOnlyAddsFlag(st, front, key);
      UpgradeOneAddsFlag(UpgradeAtOnce(st, front), book, key);
      assert books == front + [book];
      var was := CandidatesOf(st, key);
      if LacksFlag(st, was) {
        FlaggedLacksNone(st, was);
      }
    }
  }
}
