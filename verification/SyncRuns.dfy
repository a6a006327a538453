/** What holds of an account over every run of its three writers: the log agrees with the tables, and
    operations take effect exactly once. */
module SyncRuns {
  import opened Text
  import Folders
  import opened Operations
  import opened Accounts
  import opened Sync
  import opened Seeds

  // ---- one operation ----

  /** The only reasons to refuse an operation: a reused identifier with other content, a future
      base revision, or a 17th candidate. In particular a fresh operation at the current revision
      is always accepted. */
  lemma RefusedIff(st: Account, op: Operation, now: int)
    requires Consistent(st) && ValidOperation(op)
    ensures Apply(st, op, now).Err? <==>
              if op.id in st.operations then st.operations[op.id].digest != Digest(op)
              else op.baseRevision > RevisionOf(st, OperationKey(op)) ||
                   (op.baseRevision < RevisionOf(st, OperationKey(op)) && |CandidatesOf(st, OperationKey(op))| == 16)
    ensures Apply(st, op, now).Err? ==> Apply(st, op, now).error == Conflict
  {
    RecordFacts(st, OperationKey(op));
  }

  /** What a valid operation contributes to the log's consistency. */
  predicate WellKeyed(ops: seq<Operation>) {
    forall i :: 0 <= i < |ops| ==> ValidKey(OperationKey(ops[i]))
  }

  lemma ValidRequestWellKeyed(req: Request)
    requires ValidRequest(req)
    ensures WellKeyed(req.operations)
  {
    forall i | 0 <= i < |req.operations| ensures ValidKey(OperationKey(req.operations[i])) {
      assert req.operations[i] in req.operations;
    }
  }

  lemma ApplyConsistent(st: Account, op: Operation, now: int)
    requires Consistent(st) && ValidKey(OperationKey(op)) && Apply(st, op, now).Ok?
    ensures Consistent(Apply(st, op, now).value.0) && Extends(st, Apply(st, op, now).value.0)
    ensures Apply(st, op, now).value.0.cursor == st.cursor + if op.id in st.operations then 0 else 1
  {
    if op.id !in st.operations {
      var key := OperationKey(op);
      var conflict := op.baseRevision != RevisionOf(st, key);
      var row := Apply(st, op, now).value.0.records[key];
      RecordFacts(st, key);
      AppendConsistent(st, key, row);
      var appended := Append(st, key, row);
      assert Apply(st, op, now).value.0 == appended.(operations := Apply(st, op, now).value.0.operations);
      ReplayFrame(appended.changes, Apply(st, op, now).value.0.changes, appended.cursor);
    }
  }

  lemma {:induction false} BatchConsistent(st: Account, ops: seq<Operation>, clock: int -> int, n: nat)
    requires Consistent(st) && n <= |ops| && WellKeyed(ops)
    requires Batch(st, ops, clock, n).Ok?
    ensures Consistent(Batch(st, ops, clock, n).value.0) && Extends(st, Batch(st, ops, clock, n).value.0)
    ensures |Batch(st, ops, clock, n).value.1| == n
  {
    if n > 0 {
      BatchConsistent(st, ops, clock, n - 1);
      var before := Batch(st, ops, clock, n - 1).value.0;
      ApplyConsistent(before, ops[n - 1], clock(n - 1));
      ExtendsTransitive(st, before, Batch(st, ops, clock, n).value.0);
    }
  }

  // ---- exactly once ----

  lemma ApplyStoresResult(st: Account, op: Operation, now: int)
    requires Apply(st, op, now).Ok?
    ensures op.id in Apply(st, op, now).value.0.operations
    ensures Apply(st, op, now).value.0.operations[op.id] == Applied(Digest(op), Apply(st, op, now).value.1)
              || (op.id in st.operations && st.operations[op.id].digest == Digest(op)
                  && Apply(st, op, now).value == (st, st.operations[op.id].result))
    ensures forall id :: id in st.operations ==>
              id in Apply(st, op, now).value.0.operations
                  && Apply(st, op, now).value.0.operations[id] == st.operations[id]
    ensures forall id :: id in Apply(st, op, now).value.0.operations ==> id == op.id || id in st.operations
  {
  }

  /** The replay table holds this operation's content with this result. */
  predicate Remembers(st: Account, op: Operation, result: OperationResult) {
    op.id in st.operations && st.operations[op.id] == Applied(Digest(op), result)
  }

  /** After a batch every operation of it is in the replay table with its content and the result
      that was answered, duplicates inside the batch included. */
  lemma {:induction false} BatchRecordsResults(st: Account, ops: seq<Operation>, clock: int -> int, n: nat)
    requires n <= |ops| && Batch(st, ops, clock, n).Ok?
    ensures |Batch(st, ops, clock, n).value.1| == n
    ensures forall i :: 0 <= i < n ==>
              Remembers(Batch(st, ops, clock, n).value.0, ops[i], Batch(st, ops, clock, n).value.1[i])
  {
    if n > 0 {
      BatchRecordsResults(st, ops, clock, n - 1);
      ApplyStoresResult(Batch(st, ops, clock, n - 1).value.0, ops[n - 1], clock(n - 1));
    }
  }

  /** How many of the first `n` operations carry this identifier and take effect. */
  function FreshCount(st: Account, ops: seq<Operation>, clock: int -> int, n: nat, id: string): nat
    requires n <= |ops|
  {
    if n == 0 || Batch(st, ops, clock, n - 1).Err? then 0
    else
      FreshCount(st, ops, clock, n - 1, id) +
      (if ops[n - 1].id == id && id !in Batch(st, ops, clock, n - 1).value.0.operations then 1 else 0)
  }

  lemma {:induction false} FreshAtMostOnce(st: Account, ops: seq<Operation>, clock: int -> int, n: nat, id: string)
    requires n <= |ops| && Batch(st, ops, clock, n).Ok?
    ensures id in st.operations ==> id in Batch(st, ops, clock, n).value.0.operations
    ensures FreshCount(st, ops, clock, n, id) ==
              if id !in st.operations && id in Batch(st, ops, clock, n).value.0.operations then 1 else 0
  {
    if n > 0 {
      FreshAtMostOnce(st, ops, clock, n - 1, id);
      ApplyStoresResult(Batch(st, ops, clock, n - 1).value.0, ops[n - 1], clock(n - 1));
    }
  }

  // ---- runs ----

  /** An account and the upgrade lists read so far, each of which may be written at any later time. */
  datatype System = System(account: Account, pending: seq<seq<Upgrade>>)

  datatype Event =
    | Synced(req: Request, clock: int -> int)
    | Seeded(seeds: seq<Seed>)
    | ReadShared(books: seq<string>)
    | WroteShared(index: nat)

  function Step(sys: System, event: Event): System {
    match event
    case Synced(req, clock) =>
      var out := Transact(sys.account, req, clock);
      if out.Ok? then sys.(account := out.value.0) else sys
    case Seeded(seeds) => sys.(account := SeedMany(sys.account, seeds, |seeds|))
    case ReadShared(books) => sys.(pending := sys.pending + [ReadMany(sys.account, books)])
    case WroteShared(index) =>
      if index < |sys.pending| then sys.(account := WriteMany(sys.account, sys.pending[index])) else sys
  }

  function Run(sys: System, events: seq<Event>): System {
    if events == [] then sys else Step(Run(sys, events[..|events| - 1]), events[|events| - 1])
  }

  /** The upgrade was read from a row that is in the log. */
  ghost predicate FromLog(st: Account, up: Upgrade) {
    exists i :: i in st.changes && st.changes[i].key == BookKey(up.bookId) &&
                UpgradeOf(up.bookId, st.changes[i].row) == Some(up)
  }

  ghost predicate SystemOk(sys: System) {
    && Consistent(sys.account)
    && forall i, j :: 0 <= i < |sys.pending| && 0 <= j < |sys.pending[i]| ==> FromLog(sys.account, sys.pending[i][j])
  }

  lemma SeedOneConsistent(st: Account, seed: Seed)
    requires Consistent(st)
    ensures Consistent(SeedOne(st, seed)) && Extends(st, SeedOne(st, seed))
  {
    if SeedWrites(st, seed) {
      var key, candidate := BookKey(seed.bookId), Candidate(seed.freshId, false, SeedValue(seed), seed.now);
      AppendConsistent(st, key, Row(RevisionOf(st, key) + 1, [candidate]));
    }
  }

  lemma {:induction false} SeedManyConsistent(st: Account, seeds: seq<Seed>, n: nat)
    requires Consistent(st) && n <= |seeds|
    ensures Consistent(SeedMany(st, seeds, n)) && Extends(st, SeedMany(st, seeds, n))
  {
    if n > 0 {
      SeedManyConsistent(st, seeds, n - 1);
      var before := SeedMany(st, seeds, n - 1);
      SeedOneConsistent(before, seeds[n - 1]);
      ExtendsTransitive(st, before, SeedMany(st, seeds, n));
    }
  }

  lemma {:induction false} WriteManyConsistent(st: Account, ups: seq<Upgrade>)
    requires Consistent(st)
    ensures Consistent(WriteMany(st, ups)) && Extends(st, WriteMany(st, ups))
  {
    if ups != [] {
      var before, up := WriteMany(st, ups[..|ups| - 1]), ups[|ups| - 1];
      WriteManyConsistent(st, ups[..|ups| - 1]);
      if UpgradeApplies(before, up) {
        AppendConsistent(before, BookKey(up.bookId), Row(up.revision, [up.candidate]));
      }
      ExtendsTransitive(st, before, WriteMany(st, ups));
    }
  }

  lemma {:induction false} ReadManyFromLog(st: Account, books: seq<string>)
    requires Consistent(st)
    ensures forall up :: up in ReadMany(st, books) ==> FromLog(st, up)
  {
    if books != [] {
      ReadManyFromLog(st, books[..|books| - 1]);
      var book := books[|books| - 1];
      var ups := ReadOne(st, book);
      if ups != [] {
        var at := LastChange(st.changes, st.cursor, BookKey(book));
        assert UpgradeOf(book, st.changes[at].row) == Some(ups[0]);
        assert FromLog(st, ups[0]);
      }
    }
  }

  lemma FromLogLater(st: Account, later: Account, up: Upgrade)
    requires FromLog(st, up) && Extends(st, later)
    ensures FromLog(later, up)
  {
    var i :| i in st.changes && st.changes[i].key == BookKey(up.bookId) &&
             UpgradeOf(up.bookId, st.changes[i].row) == Some(up);
    assert later.changes[i] == st.changes[i];
  }

  lemma StepOk(sys: System, event: Event)
    requires SystemOk(sys)
    ensures SystemOk(Step(sys, event)) && Extends(sys.account, Step(sys, event).account)
  {
    var next := Step(sys, event);
    match event {
      case Synced(req, clock) =>
        if Transact(sys.account, req, clock).Ok? {
          ValidRequestWellKeyed(req);
          BatchConsistent(sys.account, req.operations, clock, |req.operations|);
        }
      case Seeded(seeds) => SeedManyConsistent(sys.account, seeds, |seeds|);
      case ReadShared(books) => ReadManyFromLog(sys.account, books);
      case WroteShared(index) =>
        if index < |sys.pending| {
          WriteManyConsistent(sys.account, sys.pending[index]);
        }
    }
    forall i, j | 0 <= i < |next.pending| && 0 <= j < |next.pending[i]|
        ensures FromLog(next.account, next.pending[i][j]) {
      if i < |sys.pending| {
        FromLogLater(sys.account, next.account, sys.pending[i][j]);
      } else {
        assert next.pending[i][j] in next.pending[i];
      }
    }
  }

  /** Every reachable state is consistent, and only grew from every earlier one. */
  lemma {:induction false} RunOk(sys: System, events: seq<Event>)
    requires SystemOk(sys)
    ensures SystemOk(Run(sys, events)) && Extends(sys.account, Run(sys, events).account)
  {
    if events != [] {
      var before := Run(sys, events[..|events| - 1]);
      RunOk(sys, events[..|events| - 1]);
      StepOk(before, events[|events| - 1]);
      ExtendsTransitive(sys.account, before.account, Run(sys, events).account);
    }
  }

  /** Starting empty, cursors are 1 to `cursor`, replaying the log gives the record table, and every
      record's revision is its number of changes, whatever the writers do in whatever order. */
  lemma ReachableLogAgrees(events: seq<Event>)
    ensures var st := Run(System(EMPTY, []), events).account;
            && st.cursor >= 0
            && (forall i :: i in st.changes <==> 1 <= i <= st.cursor)
            && st.records == Replay(st.changes, st.cursor)
            && (forall key :: key in st.records ==>
                  st.records[key].revision == ChangeCount(st.changes, st.cursor, key) &&
                  1 <= |st.records[key].candidates| <= 16)
  {
    RunOk(System(EMPTY, []), events);
    var st := Run(System(EMPTY, []), events).account;
    forall key ensures RevisionOf(st, key) == ChangeCount(st.changes, st.cursor, key)
                       && (key in st.records ==> 1 <= |st.records[key].candidates| <= 16)
    {
      RecordFacts(st, key);
    }
  }

  lemma {:induction false} PendingStays(sys: System, events: seq<Event>, index: nat)
    requires index < |sys.pending|
    ensures index < |Run(sys, events).pending| && Run(sys, events).pending[index] == sys.pending[index]
  {
    if events != [] {
      PendingStays(sys, events[..|events| - 1], index);
    }
  }

  /** With any events between its read and its write, the upgrade acts as if it read and wrote at
      the moment of the write, on the books whose record nobody changed in between. */
  lemma InterleavedUpgradeActsAtOnce(sys: System, books: seq<string>, between: seq<Event>)
    requires SystemOk(sys) && Folders.Distinct(books)
    ensures var later := Run(Step(sys, ReadShared(books)), between);
            Step(later, WroteShared(|sys.pending|)).account ==
              UpgradeAtOnce(later.account, Unchanged(sys.account, later.account, books))
  {
    var read := Step(sys, ReadShared(books));
    StepOk(sys, ReadShared(books));
    RunOk(read, between);
    PendingStays(read, between, |sys.pending|);
    TwoPhasesActAtOnce(sys.account, Run(read, between).account, books);
  }

  /** How often an operation identifier took effect in a run. */
  function RunFreshCount(sys: System, events: seq<Event>, id: string): nat {
    if events == [] then 0
    else
      var before := Run(sys, events[..|events| - 1]);
      var event := events[|events| - 1];
      RunFreshCount(sys, events[..|events| - 1], id) +
      if event.Synced? && Transact(before.account, event.req, event.clock).Ok?
      then FreshCount(before.account, event.req.operations, event.clock, |event.req.operations|, id) else 0
  }

  lemma {:induction false} SeedsKeepOperations(st: Account, seeds: seq<Seed>, n: nat)
    requires n <= |seeds|
    ensures SeedMany(st, seeds, n).operations == st.operations
  {
    if n > 0 {
      SeedsKeepOperations(st, seeds, n - 1);
    }
  }

  lemma {:induction false} UpgradesKeepOperations(st: Account, ups: seq<Upgrade>)
    ensures WriteMany(st, ups).operations == st.operations
  {
    if ups != [] {
      UpgradesKeepOperations(st, ups[..|ups| - 1]);
    }
  }

  /** In any run an operation identifier takes effect at most once, and never again once it is known. */
  lemma {:induction false} ExactlyOnce(sys: System, events: seq<Event>, id: string)
    requires SystemOk(sys)
    ensures RunFreshCount(sys, events, id) ==
              if id !in sys.account.operations && id in Run(sys, events).account.operations then 1 else 0
  {
    if events != [] {
      var front, event := events[..|events| - 1], events[|events| - 1];
      ExactlyOnce(sys, front, id);
      RunOk(sys, front);
      var before := Run(sys, front);
      StepOk(before, event);
      match event
      case Synced(req, clock) =>
        if Transact(before.account, req, clock).Ok? {
          FreshAtMostOnce(before.account, req.operations, clock, |req.operations|, id);
        }
      case Seeded(seeds) => SeedsKeepOperations(before.account, seeds, |seeds|);
      case ReadShared(books) =>
      case WroteShared(index) =>
        if index < |before.pending| {
          UpgradesKeepOperations(before.account, before.pending[index]);
        }
    }
  }

  /** An accepted request leaves every one of its operations remembered with its answer. */
  lemma TransactRemembers(st: Account, req: Request, clock: int -> int)
    requires Transact(st, req, clock).Ok?
    ensures |Transact(st, req, clock).value.1.results| == |req.operations|
    ensures forall i :: 0 <= i < |req.operations| ==>
              Remembers(Transact(st, req, clock).value.0, req.operations[i],
                  Transact(st, req, clock).value.1.results[i])
  {
    BatchRecordsResults(st, req.operations, clock, |req.operations|);
  }

  /** Operations that are all known with their content are answered from the replay table. */
  lemma {:induction false} BatchReplays(st: Account, ops: seq<Operation>, clock: int -> int, n: nat)
    requires n <= |ops|
    requires forall i :: 0 <= i < n ==> ops[i].id in st.operations && st.operations[ops[i].id].digest == Digest(ops[i])
    ensures Batch(st, ops, clock, n).Ok? && Batch(st, ops, clock, n).value.0 == st
    ensures |Batch(st, ops, clock, n).value.1| == n
    ensures forall i :: 0 <= i < n ==> Batch(st, ops, clock, n).value.1[i] == st.operations[ops[i].id].result
  {
    if n > 0 {
      BatchReplays(st, ops, clock, n - 1);
    }
  }

  /** The operations of a request are operations of an earlier one, in any order and however often. */
  ghost predicate Repeats(retry: Request, first: Request) {
    forall j :: 0 <= j < |retry.operations| ==>
      exists i :: 0 <= i < |first.operations| && Digest(first.operations[i]) == Digest(retry.operations[j])
  }

  lemma StillRemembered(sys: System, first: Request, clock: int -> int, between: seq<Event>, i: nat)
    requires SystemOk(sys) && Transact(sys.account, first, clock).Ok? && i < |first.operations|
    ensures |Transact(sys.account, first, clock).value.1.results| == |first.operations|
    ensures Remembers(Run(Step(sys, Synced(first, clock)), between).account, first.operations[i],
                      Transact(sys.account, first, clock).value.1.results[i])
  {
    var after := Step(sys, Synced(first, clock));
    StepOk(sys, Synced(first, clock));
    RunOk(after, between);
    TransactRemembers(sys.account, first, clock);
    assert Remembers(after.account, first.operations[i], Transact(sys.account, first, clock).value.1.results[i]);
  }

  /** Whatever happens after an accepted request, a retry of it or of any of its operations is accepted, changes
      nothing, and gets for each operation the result that was given first. */
  lemma RetryGetsFirstResult(sys: System, first: Request, clock: int -> int, between: seq<Event>,
                             retry: Request, clock': int -> int)
    requires SystemOk(sys) && Transact(sys.account, first, clock).Ok?
    requires ValidRequest(retry) && retry.cursor <= Run(Step(sys, Synced(first, clock)), between).account.cursor
    requires Repeats(retry, first)
    ensures var now := Run(Step(sys, Synced(first, clock)), between).account;
            var given := Transact(sys.account, first, clock).value.1.results;
            && Transact(now, retry, clock').Ok? && Transact(now, retry, clock').value.0 == now
            && var again := Transact(now, retry, clock').value.1.results;
               && |given| == |first.operations| && |again| == |retry.operations|
               && forall i, j ::
                    (0 <= i < |given| && 0 <= j < |again| && Digest(first.operations[i]) == Digest(retry.operations[j]))
                    ==> again[j] == given[i]
  {
    var now := Run(Step(sys, Synced(first, clock)), between).account;
    forall j | 0 <= j < |retry.operations|
      ensures retry.operations[j].id in now.operations
      ensures now.operations[retry.operations[j].id].digest == Digest(retry.operations[j])
    {
      var i :| 0 <= i < |first.operations| && Digest(first.operations[i]) == Digest(retry.operations[j]);
      StillRemembered(sys, first, clock, between, i);
    }
    BatchReplays(now, retry.operations, clock', |retry.operations|);
    TransactRemembers(sys.account, first, clock);
    forall i, j | 0 <= i < |first.operations| && 0 <= j < |retry.operations| &&
                  Digest(first.operations[i]) == Digest(retry.operations[j])
      ensures Transact(now, retry, clock').value.1.results[j] == Transact(sys.account, first, clock).value.1.results[i]
    {
      StillRemembered(sys, first, clock, between, i);
    }
  }

  /** In particular the very request, with whatever cursor the client has by then. */
  lemma IdenticalRetry(sys: System, first: Request, clock: int -> int, between: seq<Event>, cursor: int,
      clock': int -> int)
    requires SystemOk(sys) && Transact(sys.account, first, clock).Ok?
    requires 0 <= cursor <= Run(Step(sys, Synced(first, clock)), between).account.cursor
    ensures var now := Run(Step(sys, Synced(first, clock)), between).account;
            var again := Transact(now, Request(cursor, first.operations), clock');
            again.Ok? && again.value.0 == now
                && again.value.1.results == Transact(sys.account, first, clock).value.1.results
  {
    RetryGetsFirstResult(sys, first, clock, between, Request(cursor, first.operations), clock');
  }

  /** And a later accepted request cannot use an identifier of it for anything else. */
  lemma IdentifierNamesContent(sys: System, first: Request, clock: int -> int, between: seq<Event>,
                               later: Request, clock': int -> int, i: nat, j: nat)
    requires SystemOk(sys) && Transact(sys.account, first, clock).Ok?
    requires Transact(Run(Step(sys, Synced(first, clock)), between).account, later, clock').Ok?
    requires i < |first.operations| && j < |later.operations| && first.operations[i].id == later.operations[j].id
    ensures Digest(first.operations[i]) == Digest(later.operations[j])
  {
    StepOk(sys, Synced(first, clock));
    RunOk(Step(sys, Synced(first, clock)), between);
    StillRemembered(sys, first, clock, between, i);
    RetryRemembered(Run(Step(sys, Synced(first, clock)), between).account, later, clock', j);
  }

  lemma RetryRemembered(st: Account, retry: Request, clock: int -> int, j: nat)
    requires Transact(st, retry, clock).Ok? && Consistent(st)
    requires j < |retry.operations| && retry.operations[j].id in st.operations
    ensures |Transact(st, retry, clock).value.1.results| == |retry.operations|
    ensures Remembers(st, retry.operations[j], Transact(st, retry, clock).value.1.results[j])
  {
    TransactRemembers(st, retry, clock);
    ValidRequestWellKeyed(retry);
    BatchConsistent(st, retry.operations, clock, |retry.operations|);
    var done := Transact(st, retry, clock).value;
    assert Remembers(done.0, retry.operations[j], done.1.results[j]);
  }
}
