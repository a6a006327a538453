/** Scanning a watched root (internal/server/files.go, `ScanWatch` and `scanDiagnostics.add`). */
module Scans {
  import opened Text
  import Folders
  import opened BookFiles
  import opened Seeds
  import Accounts
  import CanonicalBooks
  import SeedContents
  import Sync
  import SyncRuns

  datatype SkippedFile = SkippedFile(path: string, reason: string)

  const MAX_DETAILS := 100
  const MAX_DETAIL_BYTES := 65536

  /** A bounded report of skipped files; `encoded` is the length of the JSON text of a list. */
  class ScanDiagnostics {
    var files: seq<SkippedFile>
    var omitted: nat
    var skipped: nat

    constructor ()
      ensures files == [] && omitted == 0 && skipped == 0
    {
      files, omitted, skipped := [], 0, 0;
    }

    /** Every skipped file is counted and is either listed or omitted; what is listed stays, and the list
        stays within both bounds. */
    method Add(path: string, reason: string, encoded: seq<SkippedFile> -> nat)
      requires skipped == |files| + omitted
      modifies this
      ensures skipped == old(skipped) + 1 == |files| + omitted
      ensures old(files) <= files
      ensures files != old(files) ==> files == old(files) + [SkippedFile(path, reason)]
      ensures files != old(files) <==> |old(files)| < MAX_DETAILS &&
                                       encoded(old(files) + [SkippedFile(path, reason)]) <= MAX_DETAIL_BYTES
    {
      skipped := skipped + 1;
      if |files| >= MAX_DETAILS {
        omitted := omitted + 1;
        return;
      }
      var candidate := files + [SkippedFile(path, reason)];
      if encoded(candidate) > MAX_DETAIL_BYTES {
        omitted := omitted + 1;
        return;
      }
      files := candidate;
    }
  }

  /** One visit of the directory walk: an entry that cannot be read or escapes the root, a skipped one, or
      a file with its bytes, which is `stable` when it did not change while it was copied. */
  datatype Visit =
    | Unreadable
    | Skip(path: string, reason: string)
    | Found(path: string, title: string, content: Bytes, stable: bool)

  const MAX_BOOKS := 10000

  /** The items of a walk, as far as `n` visits, when each of them succeeds. */
  function ItemsOf(env: Env, walk: seq<Visit>, n: nat): seq<Item>
    requires n <= |walk|
  {
    if n == 0 then []
    else if walk[n - 1].Found? then
      var visit := walk[n - 1];
      ItemsOf(env, walk, n - 1) + [Item(env.hash(visit.content), visit.path, visit.title, |visit.content|)]
    else ItemsOf(env, walk, n - 1)
  }

  /** The item of a file that was found: its digest, path, name and size. */
  predicate IsItemOf(env: Env, visit: Visit, item: Item) {
    && visit.Found? && item.book == env.hash(visit.content) && item.path == visit.path && item.title == visit.title
    && item.size == |visit.content|
  }

  /** The items are those of the files found in the first `n` visits, in their order; `at` says at which visit. */
  ghost predicate ItemsAre(env: Env, walk: seq<Visit>, n: nat, items: seq<Item>, at: seq<nat>)
    requires n <= |walk|
  {
    && |at| == |items| && (forall i :: 0 <= i < |at| ==> at[i] < n && IsItemOf(env, walk[at[i]], items[i]))
    && (forall i, j :: 0 <= i < j < |at| ==> at[i] < at[j])
    && (forall k: nat :: k < n && walk[k].Found? ==> k in at)
  }

  lemma ItemsAreMore(env: Env, walk: seq<Visit>, n: nat, items: seq<Item>, at: seq<nat>, item: Item)
    requires n < |walk| && ItemsAre(env, walk, n, items, at) && IsItemOf(env, walk[n], item)
    ensures ItemsAre(env, walk, n + 1, items + [item], at + [n])
  {
    assert forall k :: k in at + [n] <==> k in at || k == n;
  }

  /** Every file that the walk finds is an item, once, and there are no others. */
  lemma {:induction false} ItemsAreVisits(env: Env, walk: seq<Visit>, n: nat) returns (at: seq<nat>)
    requires n <= |walk|
    ensures ItemsAre(env, walk, n, ItemsOf(env, walk, n), at)
  {
    at := [];
    if n > 0 {
      at := ItemsAreVisits(env, walk, n - 1);
      if walk[n - 1].Found? {
        var visit := walk[n - 1];
        ItemsAreMore(env, walk, n - 1, ItemsOf(env, walk, n - 1), at,
                     Item(env.hash(visit.content), visit.path, visit.title, |visit.content|));
        at := at + [n - 1];
      }
    }
  }

  function SkipsOf(walk: seq<Visit>, n: nat): nat
    requires n <= |walk|
  {
    if n == 0 then 0 else SkipsOf(walk, n - 1) + (if walk[n - 1].Skip? then 1 else 0)
  }

  function Books(items: seq<Item>): set<string> {
    set item | item in items :: item.book
  }

  predicate HasRow(s: Files, user: string, book: string) {
    exists k :: k in s.rows && k.user == user && k.book == book
  }

  /** The books of the items that have a row, of either kind, for the user. */
  function KnownBooks(s: Files, user: string, items: seq<Item>): set<string> {
    set book | book in Books(items) && HasRow(s, user, book)
  }

  /** The books for which the user has a row. */
  function Owned(rows: map<FileKey, nat>, user: string): set<string> {
    set k | k in rows && k.user == user :: k.book
  }

  datatype Report = Report(failed: bool, imported: nat, existing: nat, skipped: nat, listed: seq<SkippedFile>,
      omitted: nat)

  /** Staging one visited file is one effect of the lock holder. */
  lemma StageItemEffect(sys: System, start: System, effects: seq<Effect>, env: Env, visit: Visit)
    requires sys == Run(start, effects, env) && sys.phase.Scanning? && visit.Found?
    requires Stage(sys.files, env, sys.phase.user, visit.content, "").Ok?
    ensures Run(start, effects + [StageItem(visit.path, visit.title, visit.content)], env) ==
              sys.(files := Stage(sys.files, env, sys.phase.user, visit.content, "").value.0,
                   phase := sys.phase.(items := sys.phase.items +
                     [Item(env.hash(visit.content), visit.path, visit.title, |visit.content|)]))
  {
    RunSnoc(start, effects, StageItem(visit.path, visit.title, visit.content), env);
  }

  /** What a walk goes on after: a file that stayed as it was while it was copied and may be a book, or a skip. */
  predicate VisitOk(env: Env, visit: Visit) {
    match visit
    case Unreadable => false
    case Skip(_, _) => true
    case Found(_, _, content, stable) => stable && Acceptable(env, content, "")
  }

  predicate WalkOk(env: Env, walk: seq<Visit>) {
    (forall i :: 0 <= i < |walk| ==> VisitOk(env, walk[i])) && |ItemsOf(env, walk, |walk|)| <= MAX_BOOKS
  }

  lemma {:induction false} ItemsGrow(env: Env, walk: seq<Visit>, m: nat, n: nat)
    requires m <= n <= |walk|
    ensures |ItemsOf(env, walk, m)| <= |ItemsOf(env, walk, n)|
  {
    if m < n {
      ItemsGrow(env, walk, m, n - 1);
    }
  }

  /** The walk: skipped entries are reported, files are staged one by one, and anything else ends it. */
  method Walk(store: FileStore, watch: string, user: string, walk: seq<Visit>, report: ScanDiagnostics,
      encoded: seq<SkippedFile> -> nat)
    returns (ok: bool, items: seq<Item>, ghost effects: seq<Effect>)
    requires watch in store.watches && store.watches[watch] == user
    requires report.skipped == |report.files| + report.omitted
    modifies store`objects, report
    ensures store.rows == old(store.rows) && report.skipped == |report.files| + report.omitted
    ensures Run(old(store.State()), effects, store.env) == store.State().(phase := Scanning(watch, user, items))
    ensures ok <==> WalkOk(store.env, walk)
    ensures ok ==> items == ItemsOf(store.env, walk, |walk|)
    ensures ok ==> report.skipped == old(report.skipped) + SkipsOf(walk, |walk|)
  {
    ghost var start := store.State();
    items, effects := [], [BeginScan(watch)];
    RunSnoc(start, [], BeginScan(watch), store.env);
    assert [] + [BeginScan(watch)] == [BeginScan(watch)];
    for i := 0 to |walk|
      invariant store.rows == old(store.rows) && report.skipped == |report.files| + report.omitted
      invariant Run(start, effects, store.env) == store.State().(phase := Scanning(watch, user, items))
      invariant items == ItemsOf(store.env, walk, i) && |items| <= MAX_BOOKS
      invariant report.skipped == old(report.skipped) + SkipsOf(walk, i)
      invariant forall j :: 0 <= j < i ==> VisitOk(store.env, walk[j])
    {
      match walk[i]
      case Unreadable => return false, items, effects;
      case Skip(path, reason) => report.Add(path, reason, encoded);
      case Found(path, title, content, stable) =>
        if |items| >= MAX_BOOKS {
          ItemsGrow(store.env, walk, i + 1, |walk|);
          return false, items, effects;
        }
        ghost var before := store.State().(phase := Scanning(watch, user, items));
        var staged := store.StageObject(user, content, "");
        if staged.Err? {
          return false, items, effects;
        }
        StageItemEffect(before, start, effects, store.env, walk[i]);
        effects := effects + [StageItem(path, title, content)];
        items := items + [Item(staged.value, path, title, |content|)];
        if !stable {
          return false, items, effects;
        }
    }
    return true, items, effects;
  }

  /** How many of the books found are new to the user, and how many are not. */
  method CountBooks(store: FileStore, user: string, items: seq<Item>) returns (imported: nat, existing: nat)
    ensures imported + existing == |Books(items)|
    ensures existing == |Owned(store.rows, user) * Books(items)|
  {
    imported, existing := 0, 0;
    var seen: set<string> := {};
    for i := 0 to |items|
      invariant seen == Books(items[..i])
      invariant imported + existing == |Books(items[..i])|
      invariant existing == |KnownBooks(store.Contents(), user, items[..i])|
    {
      var item := items[i];
      BooksSnoc(store.Contents(), user, items[..i], item);
      assert items[..i + 1] == items[..i] + [item];
      if item.book in seen {
        continue;
      }
      seen := seen + {item.book};
      if HasRow(store.Contents(), user, item.book) {
        existing := existing + 1;
      } else {
        imported := imported + 1;
      }
    }
    assert items[..|items|] == items;
    assert KnownBooks(store.Contents(), user, items) == Owned(store.rows, user) * Books(items);
  }

  lemma BooksSnoc(s: Files, user: string, items: seq<Item>, item: Item)
    ensures Books(items + [item]) == Books(items) + {item.book}
    ensures KnownBooks(s, user, items + [item]) ==
              KnownBooks(s, user, items) + (if HasRow(s, user, item.book) then {item.book} else {})
  {
    assert forall x :: x in items + [item] <==> x in items || x == item;
  }

  // ---- the transaction of a scan ----

  /** What seeding takes from outside: the metadata of an item's object, fresh identifiers and the clock. */
  datatype Source = Source(describe: Item -> Metadata, freshId: int -> string, clock: int -> int)

  function SeedOf(items: seq<Item>, source: Source, i: nat): Seed
    requires i < |items|
  {
    var item := items[i];
    Seed(item.book, item.title, source.describe(item), Some(FolderOf(item.path)), source.freshId(i), source.clock(i))
  }

  function SeedsOf(items: seq<Item>, source: Source): seq<Seed> {
    seq(|items|, i requires 0 <= i < |items| => SeedOf(items, source, i))
  }

  /** One item of the loop: its row, its folder and its seed. */
  function OneInserted(tx: Files, account: Accounts.Account, user: string, watch: string, item: Item, seed: Seed)
    : Outcome<(Files, Accounts.Account)>
  {
    var key := ItemKey(user, watch, item);
    if key in tx.rows then Err(Failed) else if !FolderOk(item) then Err(Invalid)
    else Ok((tx.(rows := tx.rows[key := item.size]), SeedOne(account, seed)))
  }

  method InsertOne(tx: Files, account: Accounts.Account, user: string, watch: string, item: Item, seed: Seed)
    returns (out: Outcome<(Files, Accounts.Account)>)
    ensures out == OneInserted(tx, account, user, watch, item, seed)
  {
    var key := ItemKey(user, watch, item);
    if key in tx.rows {
      return Err(Failed);
    }
    var inserted := tx.(rows := tx.rows[key := item.size]);
    if !Folders.ValidFolder(FolderOf(item.path)) {
      return Err(Invalid);
    }
    var seeded := SeedBook(account, seed);
    return Ok((inserted, seeded));
  }

  /** The first `n` items are inserted and seeded. */
  ghost predicate InsertedSoFar(cleared: Files, account: Accounts.Account, user: string, watch: string,
      items: seq<Item>, source: Source, n: nat, at: (Files, Accounts.Account))
  {
    && n <= |items| && InsertItems(cleared, user, watch, items[..n]) == Ok(at.0)
    && at.1 == SeedMany(account, SeedsOf(items, source), n)
  }

  lemma InsertedStep(cleared: Files, account: Accounts.Account, user: string, watch: string, items: seq<Item>,
      source: Source, n: nat, at: (Files, Accounts.Account))
    requires n < |items| && InsertedSoFar(cleared, account, user, watch, items, source, n, at)
    ensures match OneInserted(at.0, at.1, user, watch, items[n], SeedOf(items, source, n))
            case Err(e) => InsertItems(cleared, user, watch, items) == Err(e)
            case Ok(next) => InsertedSoFar(cleared, account, user, watch, items, source, n + 1, next)
  {
    assert items[..n + 1][..n] == items[..n];
    if InsertItems(cleared, user, watch, items[..n + 1]).Err? {
      InsertFails(cleared, user, watch, items, n + 1);
    }
  }

  /** The loop of the transaction on local views of both tables. */
  method InsertAndSeed(cleared: Files, account: Accounts.Account, user: string, watch: string, items: seq<Item>,
      source: Source)
    returns (out: Outcome<(Files, Accounts.Account)>)
    ensures match InsertItems(cleared, user, watch, items)
            case Err(e) => out == Err(e)
            case Ok(files) => out == Ok((files, SeedMany(account, SeedsOf(items, source), |items|)))
  {
    var at := (cleared, account);
    for i := 0 to |items|
      invariant InsertedSoFar(cleared, account, user, watch, items, source, i, at)
    {
      InsertedStep(cleared, account, user, watch, items, source, i, at);
      var one := InsertOne(at.0, at.1, user, watch, items[i], SeedOf(items, source, i));
      if one.Err? {
        return Err(one.error);
      }
      at := one.value;
    }
    assert items[..|items|] == items;
    return Ok(at);
  }

  predicate FolderOk(item: Item) {
    Folders.ValidFolder(FolderOf(item.path))
  }

  lemma {:induction false} InsertedFolder(s: Files, user: string, watch: string, items: seq<Item>, i: nat)
    requires InsertItems(s, user, watch, items).Ok? && i < |items|
    ensures FolderOk(items[i])
  {
    if i < |items| - 1 {
      InsertedFolder(s, user, watch, items[..|items| - 1], i);
    }
  }

  /** No two of the items are one file of a book, and each lies in a folder that a book can be in. */
  predicate ItemsOk(items: seq<Item>) {
    && (forall i :: 0 <= i < |items| ==> FolderOk(items[i]))
    && (forall i, j :: 0 <= i < j < |items| ==> items[i].book != items[j].book || items[i].path != items[j].path)
  }

  /** Over a table without rows of the watch the inserts fail only for what the items are. */
  lemma {:induction false} InsertsOkIff(s: Files, user: string, watch: string, items: seq<Item>)
    requires WatchRows(s, user, watch) == {}
    ensures InsertItems(s, user, watch, items).Ok? <==> ItemsOk(items)
  {
    if items != [] {
      var front, last := items[..|items| - 1], items[|items| - 1];
      InsertsOkIff(s, user, watch, front);
      assert items == front + [last];
      if InsertItems(s, user, watch, front).Ok? {
        InsertItemsFacts(s, user, watch, front);
        var key := ItemKey(user, watch, last);
        assert watch + "/" <= watch + "/" + last.path;
        assert key in s.rows ==> key in WatchRows(s, user, watch);
        KeyRepeats(user, watch, front, last);
      } else {
        assert ItemsOk(items) ==> ItemsOk(front);
      }
    }
  }

  lemma KeyRepeats(user: string, watch: string, items: seq<Item>, item: Item)
    ensures ItemKey(user, watch, item) in ItemKeys(user, watch, items) <==>
              exists i :: 0 <= i < |items| && items[i].book == item.book && items[i].path == item.path
  {
    var key, start := ItemKey(user, watch, item), watch + "/";
    if key in ItemKeys(user, watch, items) {
      var other :| other in items && ItemKey(user, watch, other) == key;
      assert (start + other.path)[|start|..] == other.path && (start + item.path)[|start|..] == item.path;
      var i :| 0 <= i < |items| && items[i] == other;
    }
    forall i | 0 <= i < |items| && items[i].book == item.book && items[i].path == item.path
      ensures key in ItemKeys(user, watch, items)
    {
      assert items[i] in items && ItemKey(user, watch, items[i]) == key;
    }
  }

  /** The seeds of a scan that commits pass the folder checks that keep book values canonical. */
  lemma ScanSeedsExact(s: Files, user: string, watch: string, items: seq<Item>, source: Source)
    requires InsertItems(s, user, watch, items).Ok?
    ensures CanonicalBooks.ExactEvent(SyncRuns.Seeded(SeedsOf(items, source)))
  {
    forall seed | seed in SeedsOf(items, source) ensures seed.folder.Some? && Folders.ValidFolder(seed.folder.value) {
      var i :| 0 <= i < |items| && SeedsOf(items, source)[i] == seed;
      InsertedFolder(s, user, watch, items, i);
    }
  }

  lemma {:induction false} InsertFails(s: Files, user: string, watch: string, items: seq<Item>, n: nat)
    requires n <= |items| && InsertItems(s, user, watch, items[..n]).Err?
    ensures InsertItems(s, user, watch, items) == InsertItems(s, user, watch, items[..n])
    decreases |items|
  {
    if n == |items| {
      assert items[..n] == items;
    } else {
      var front := items[..|items| - 1];
      assert front[..n] == items[..n];
      InsertFails(s, user, watch, front, n);
    }
  }

  lemma ScanAborts(start: System, effects: seq<Effect>, env: Env, sys: System, watch: string, user: string,
      items: seq<Item>)
    requires Run(start, effects, env) == sys.(phase := Scanning(watch, user, items)) && sys.phase == Idle
    ensures Run(start, effects + [Crash], env) == sys
  {
    RunSnoc(start, effects, Crash, env);
  }

  lemma ScanCommits(start: System, effects: seq<Effect>, env: Env, sys: System, watch: string, user: string,
      items: seq<Item>)
    requires Run(start, effects, env) == sys.(phase := Scanning(watch, user, items)) && sys.phase == Idle
    ensures var out := InsertItems(WithoutRows(sys.files, WatchRows(sys.files, user, watch)), user, watch, items);
            Run(start, effects + [CommitScan], env) == sys.(files := if out.Ok? then out.value else sys.files)
  {
    RunSnoc(start, effects, CommitScan, env);
  }

  /** The watch's rows are exactly the items, and every other row is as it was. */
  ghost predicate RowsReplaced(was: map<FileKey, nat>, s: Files, user: string, watch: string, items: seq<Item>) {
    && WatchRows(s, user, watch) == ItemKeys(user, watch, items)
    && (forall i :: 0 <= i < |items| ==> HasSize(s.rows, user, watch, items[i]))
    && (forall k :: !IsWatchRow(k, user, watch) ==>
          (k in s.rows) == (k in was) && (k in s.rows ==> s.rows[k] == was[k]))
  }

  /** What a file's path says of its folder. */
  lemma FolderOfFile(folder: string, name: string)
    requires '/' !in name
    ensures FolderOf(folder + "/" + name) == folder && FolderOf(name) == ""
  {
    PathOfParent(folder, name);
  }

  /** The record of an item's book holds the metadata of that item: the name of the file for a missing title, the
      folder of the file, and at the top of the root the valid folder of the metadata, if any. */
  ghost predicate ItemLeft(now: Accounts.Account, items: seq<Item>, source: Source, i: nat)
    requires i < |items|
  {
    var item, metadata := items[i], source.describe(items[i]);
    var candidates := Accounts.CandidatesOf(now, Accounts.BookKey(item.book));
    var folder := if FolderOf(item.path) != "" then FolderOf(item.path) else metadata.folder;
    var folders := if folder == "" || !Folders.ValidFolder(folder) then [] else [folder];
    && SeedContents.ReadsAs(candidates, item.title, metadata, folders)
    && candidates[0].operationId == source.freshId(i) && candidates[0].createdAt == source.clock(i)
  }

  /** A record is as it was, or it is a book's that was found, and holds what one of the files of that book says. */
  ghost predicate RecordRead(was: Accounts.Account, now: Accounts.Account, items: seq<Item>, source: Source,
      key: Accounts.Key)
  {
    || Accounts.CandidatesOf(now, key) == Accounts.CandidatesOf(was, key)
    || exists i :: 0 <= i < |items| && Accounts.BookKey(items[i].book) == key && ItemLeft(now, items, source, i)
  }

  /** The account after a scan's seeds is the one after a step of its writers, whose folders are valid; every book that
      was found has a record, and every record that changed holds what a file of the book says. */
  ghost predicate BooksSeeded(was: Accounts.Account, now: Accounts.Account, items: seq<Item>, source: Source) {
    var seeded := SyncRuns.Seeded(SeedsOf(items, source));
    && now == SyncRuns.Step(SyncRuns.System(was, []), seeded).account && CanonicalBooks.ExactEvent(seeded)
    && (forall i :: 0 <= i < |items| ==> Accounts.BookKey(items[i].book) in now.records)
    && (forall key :: RecordRead(was, now, items, source, key))
  }

  lemma SeedLeftIsItemLeft(now: Accounts.Account, items: seq<Item>, source: Source, i: nat)
    requires i < |items| && FolderOk(items[i]) && SeedContents.LeftBy(now, SeedOf(items, source, i))
    ensures ItemLeft(now, items, source, i)
  {
  }

  /** What the seeds of a scan leave, as the metadata of its items. */
  lemma ScanRead(was: Accounts.Account, now: Accounts.Account, items: seq<Item>, source: Source, key: Accounts.Key)
    requires now == SeedMany(was, SeedsOf(items, source), |items|)
    requires forall i :: 0 <= i < |items| ==> FolderOk(items[i])
    ensures RecordRead(was, now, items, source, key)
    ensures forall i :: 0 <= i < |items| && Accounts.BookKey(items[i].book) == key ==> key in now.records
  {
    var seeds := SeedsOf(items, source);
    SeedContents.SeedsAreRead(was, now, seeds, |items|, key);
    assert forall i :: 0 <= i < |items| ==> seeds[i].bookId == items[i].book;
    if SeedContents.OneLeft(now, seeds, |items|, key) {
      var i :| 0 <= i < |items| && Accounts.BookKey(seeds[i].bookId) == key && SeedContents.LeftBy(now, seeds[i]);
      assert FolderOk(items[i]);
      SeedLeftIsItemLeft(now, items, source, i);
    }
  }

  lemma ScanReadAll(was: Accounts.Account, now: Accounts.Account, items: seq<Item>, source: Source)
    requires now == SeedMany(was, SeedsOf(items, source), |items|)
    requires forall i :: 0 <= i < |items| ==> FolderOk(items[i])
    ensures forall key :: RecordRead(was, now, items, source, key)
    ensures forall i :: 0 <= i < |items| ==> Accounts.BookKey(items[i].book) in now.records
  {
    forall key ensures RecordRead(was, now, items, source, key) {
      ScanRead(was, now, items, source, key);
    }
    forall i | 0 <= i < |items| ensures Accounts.BookKey(items[i].book) in now.records {
      ScanRead(was, now, items, source, Accounts.BookKey(items[i].book));
    }
  }

  /** A scan of an existing watch. `sameRoot` and `stillSameRoot` are the identity checks around the walk, and
      `account` holds the reading data of the watch's owner. On success the watch's rows are exactly the files
      found, all other rows are as before, every book found is seeded, and the report counts the distinct books; on
      failure no row changes, and no record and no change of the log, whatever item the transaction failed at. In
      both cases the files go through a run of single effects. */
  method ScanWatch(store: FileStore, account: Sync.AccountStore, watch: string, sameRoot: bool, walk: seq<Visit>,
                   stillSameRoot: bool, encoded: seq<SkippedFile> -> nat, source: Source)
    returns (report: Report, items: seq<Item>, ghost effects: seq<Effect>)
    modifies store`objects, store`rows, account
    ensures report.skipped == |report.listed| + report.omitted
    ensures report.failed ==>
              store.rows == old(store.rows) && account.State() == old(account.State())
                  && report.imported == report.existing == 0
    ensures !report.failed <==>
              && watch in store.watches && sameRoot && stillSameRoot && WalkOk(store.env, walk)
              && ItemsOk(ItemsOf(store.env, walk, |walk|))
    ensures Run(old(store.State()), effects, store.env) == store.State()
    ensures !report.failed ==>
              && items == ItemsOf(store.env, walk, |walk|)
              && (exists at :: ItemsAre(store.env, walk, |walk|, items, at))
              && report.skipped == SkipsOf(walk, |walk|)
              && report.imported + report.existing == |Books(items)|
              && report.existing == |Owned(old(store.rows), store.watches[watch]) * Books(items)|
    ensures !report.failed ==>
              && RowsReplaced(old(store.rows), store.Contents(), store.watches[watch], watch, items)
              && BooksSeeded(old(account.State()), account.State(), items, source)
  {
    items, effects := [], [];
    report := Report(true, 0, 0, 0, [], 0);
    if watch !in store.watches || !sameRoot {
      return;
    }
    ghost var start := store.State();
    var user := store.watches[watch];
    var diagnostics := new ScanDiagnostics();
    var ok;
    ok, items, effects := Walk(store, watch, user, walk, diagnostics, encoded);
    if !ok || !stillSameRoot {
      ScanAborts(start, effects, store.env, store.State(), watch, user, items);
      effects := effects + [Crash];
      report := Report(true, 0, 0, diagnostics.skipped, diagnostics.files, diagnostics.omitted);
      return;
    }
    ghost var at := ItemsAreVisits(store.env, walk, |walk|);
    report, effects := FinishScan(store, account, user, watch, items, diagnostics, source, start, effects);
  }

  /** The rest of a scan after a complete walk. */
  method FinishScan(store: FileStore, account: Sync.AccountStore, user: string, watch: string, items: seq<Item>,
                    diagnostics: ScanDiagnostics, source: Source, ghost start: System, ghost effects: seq<Effect>)
    returns (report: Report, ghost after: seq<Effect>)
    requires diagnostics.skipped == |diagnostics.files| + diagnostics.omitted
    requires Run(start, effects, store.env) == store.State().(phase := Scanning(watch, user, items))
    modifies store`rows, account
    ensures report.skipped == old(diagnostics.skipped) == |report.listed| + report.omitted
    ensures Run(start, after, store.env) == store.State()
    ensures !report.failed <==> ItemsOk(items)
    ensures if report.failed
            then store.rows == old(store.rows) && account.State() == old(account.State())
                && report.imported == report.existing == 0
            else
              && report.imported + report.existing == |Books(items)|
              && report.existing == |Owned(old(store.rows), user) * Books(items)|
              && RowsReplaced(old(store.rows), store.Contents(), user, watch, items)
              && BooksSeeded(old(account.State()), account.State(), items, source)
  {
    report := Report(true, 0, 0, diagnostics.skipped, diagnostics.files, diagnostics.omitted);
    ScanCommits(start, effects, store.env, store.State(), watch, user, items);
    after := effects + [CommitScan];
    var committed, imported, existing := CommitItems(store, account, user, watch, items, source);
    if committed {
      report := report.(failed := false, imported := imported, existing := existing);
    }
  }

  /** The end of a scan: the books are counted, and the transaction commits or fails. */
  method CommitItems(store: FileStore, account: Sync.AccountStore, user: string, watch: string, items: seq<Item>,
      source: Source)
    returns (committed: bool, imported: nat, existing: nat)
    modifies store`rows, account
    ensures imported + existing == |Books(items)| && existing == |Owned(old(store.rows), user) * Books(items)|
    ensures var out := InsertItems(WithoutRows(old(store.Contents()), WatchRows(old(store.Contents()), user, watch)),
              user, watch, items);
            committed == out.Ok? && store.Contents() == if out.Ok? then out.value else old(store.Contents())
    ensures committed <==> ItemsOk(items)
    ensures !committed ==> account.State() == old(account.State())
    ensures committed ==>
              && RowsReplaced(old(store.rows), store.Contents(), user, watch, items)
              && BooksSeeded(old(account.State()), account.State(), items, source)
  {
    imported, existing := CountBooks(store, user, items);
    committed := ReplaceRows(store, account, user, watch, items, source);
  }

  /** The rows and the account that a committing transaction writes. */
  lemma Committed(was: Files, files: Files, account: Accounts.Account, user: string, watch: string, items: seq<Item>,
      source: Source)
    requires InsertItems(WithoutRows(was, WatchRows(was, user, watch)), user, watch, items) == Ok(files)
    ensures RowsReplaced(was.rows, files, user, watch, items) && files.objects == was.objects
    ensures BooksSeeded(account, SeedMany(account, SeedsOf(items, source), |items|), items, source)
  {
    var cleared := WithoutRows(was, WatchRows(was, user, watch));
    InsertItemsFacts(cleared, user, watch, items);
    InsertItemsSizes(cleared, user, watch, items);
    ScannedRows(cleared, files, WatchRows(was, user, watch), was, user, watch, items);
    ScanSeedsExact(cleared, user, watch, items, source);
    forall i | 0 <= i < |items| ensures FolderOk(items[i]) {
      InsertedFolder(cleared, user, watch, items, i);
    }
    ScanReadAll(account, SeedMany(account, SeedsOf(items, source), |items|), items, source);
  }

  /** The transaction of a scan: out with the watch's rows, in with the items and their seeds, or nothing. */
  method ReplaceRows(store: FileStore, account: Sync.AccountStore, user: string, watch: string, items: seq<Item>,
      source: Source)
    returns (committed: bool)
    modifies store`rows, account
    ensures var out := InsertItems(WithoutRows(old(store.Contents()), WatchRows(old(store.Contents()), user, watch)),
              user, watch, items);
            committed == out.Ok? && store.Contents() == if out.Ok? then out.value else old(store.Contents())
    ensures committed <==> ItemsOk(items)
    ensures !committed ==> account.State() == old(account.State())
    ensures committed ==>
              && RowsReplaced(old(store.rows), store.Contents(), user, watch, items)
              && BooksSeeded(old(account.State()), account.State(), items, source)
  {
    var cleared := WithoutRows(store.Contents(), WatchRows(store.Contents(), user, watch));
    InsertsOkIff(cleared, user, watch, items);
    var out := InsertAndSeed(cleared, account.State(), user, watch, items, source);
    committed := out.Ok?;
    if committed {
      var (files, seeded) := out.value;
      Committed(store.Contents(), files, account.State(), user, watch, items, source);
      store.rows := files.rows;
      account.records, account.changes, account.operations, account.cursor :=
        seeded.records, seeded.changes, seeded.operations, seeded.cursor;
      assert store.Contents() == files;
    }
  }

  /** Clearing a watch's rows and inserting the items leaves exactly the items as its rows. */
  lemma ScannedRows(cleared: Files, t: Files, gone: set<FileKey>, s: Files, user: string, watch: string,
      items: seq<Item>)
    requires cleared == WithoutRows(s, gone) && gone == WatchRows(s, user, watch)
    requires t.rows.Keys == cleared.rows.Keys + ItemKeys(user, watch, items)
    requires forall k :: k in cleared.rows ==> t.rows[k] == cleared.rows[k]
    ensures WatchRows(t, user, watch) == ItemKeys(user, watch, items)
    ensures forall k :: !IsWatchRow(k, user, watch) ==>
              (k in t.rows) == (k in s.rows) && (k in t.rows ==> t.rows[k] == s.rows[k])
  {
    forall k | k in ItemKeys(user, watch, items) ensures IsWatchRow(k, user, watch) {
      var item :| item in items && k == ItemKey(user, watch, item);
      assert watch + "/" <= watch + "/" + item.path;
    }
  }
}
