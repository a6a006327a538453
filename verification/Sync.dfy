/** The record sync transaction (internal/server/sync.go, `Sync`): one operation, a batch, a page
    of the change log, and the account whose tables the transaction rewrites. */
module Sync {
  import opened Text
  import opened Json
  import Folders
  import opened Operations
  import opened Accounts

  datatype Error = Invalid | Conflict

  type Outcome<+T> = Result<T, Error>

  /** The value stored for an operation on a record with these candidates: a book edit inherits
      the library flag of a settled record, and a current edit, or a stale one that lists its
      folders, is canonicalised. */
  function StoredValue(op: Operation, candidates: seq<Candidate>, conflict: bool): Stored {
    if op.deleted || op.value.Absent? then Nothing
    else if op.kind != "book" || !op.value.value.Obj? then Raw(op.value.value)
    else
      var incoming := ToMap(op.value.value.fields);
      var existing := if Settled(candidates) then Members(candidates[0].value) else None;
      var carried := "inLibrary" !in incoming && existing.Some? && "inLibrary" in existing.value;
      var edited := if carried then incoming["inLibrary" := existing.value["inLibrary"]] else incoming;
      if !conflict || "folders" in incoming then
        Marshalled(Folders.Canonical(edited, if !conflict && existing.Some? then existing.value else map[]))
      else if carried then Marshalled(edited)
      else Raw(op.value.value)
  }

  function OperationKey(op: Operation): Key {
    Key(op.bookId, op.kind, op.recordId)
  }

  /** One operation of the batch, at time `now`. */
  function Apply(st: Account, op: Operation, now: int): Outcome<(Account, OperationResult)> {
    if op.id in st.operations then
      if st.operations[op.id].digest != Digest(op) then Err(Conflict) else Ok((st, st.operations[op.id].result))
    else
      var key := OperationKey(op);
      var revision, candidates := RevisionOf(st, key), CandidatesOf(st, key);
      if op.baseRevision > revision then Err(Conflict)
      else
        var conflict := op.baseRevision != revision;
        var kept := if conflict then candidates else [];
        if |kept| >= 16 then Err(Conflict)
        else
          var candidate := Candidate(op.id, op.deleted, StoredValue(op, candidates, conflict), now);
          var result := OperationResult(op.id, revision + 1, conflict);
          var next := Append(st, key, Row(revision + 1, kept + [candidate]));
          Ok((next.(operations := next.operations[op.id := Applied(Digest(op), result)]), result))
  }

  /** The first `n` operations of a batch, the i-th at time `clock(i)`. */
  function Batch(st: Account, ops: seq<Operation>, clock: int -> int, n: nat): Outcome<(Account, seq<OperationResult>)>
    requires n <= |ops|
  {
    if n == 0 then Ok((st, []))
    else
      match Batch(st, ops, clock, n - 1)
      case Err(e) => Err(e)
      case Ok(before) =>
        match Apply(before.0, ops[n - 1], clock(n - 1))
        case Err(e) => Err(e)
        case Ok(after) => Ok((after.0, before.1 + [after.1]))
  }

  lemma {:induction false} FollowingExists(cursors: set<int>, after: int, i: int)
    requires i in cursors && i > after
    ensures exists k :: k in cursors && k > after && forall j :: j in cursors && j > after ==> k <= j
    decreases i - after
  {
    if j :| j in cursors && after < j < i {
      FollowingExists(cursors, after, j);
    }
  }

  /** The smallest logged cursor above `after`. */
  function Following(changes: map<int, Change>, after: int): (k: int)
    requires exists i :: i in changes && i > after
    ensures k in changes && k > after && forall j :: j in changes && j > after ==> k <= j
  {
    FollowingExists(changes.Keys, after, var i :| i in changes && i > after; i);
    var k :| k in changes && k > after && forall j :: j in changes && j > after ==> k <= j;
    k
  }

  datatype Numbered = Numbered(cursor: int, change: Change)

  /** Changes above `after`, ordered by cursor, at most `limit` of them. */
  function Page(changes: map<int, Change>, after: int, limit: nat): seq<Numbered>
    decreases limit
  {
    if limit == 0 || !exists i :: i in changes && i > after then []
    else
      var k := Following(changes, after);
      [Numbered(k, changes[k])] + Page(changes, k, limit - 1)
  }

  const PAGE_SIZE: nat := 100

  datatype Request = Request(cursor: int, operations: seq<Operation>)

  datatype Response = Response(
    results: seq<OperationResult>, changes: seq<Numbered>, cursor: int, hasMore: bool)

  function LastCursor(changes: seq<Numbered>, start: int): int {
    if |changes| == 0 then start else changes[|changes| - 1].cursor
  }

  predicate ValidRequest(req: Request) {
    req.cursor >= 0 && |req.operations| <= 50 && forall op :: op in req.operations ==> ValidOperation(op)
  }

  /** The whole transaction. An error carries no state: the transaction rolls back. */
  function Transact(st: Account, req: Request, clock: int -> int): Outcome<(Account, Response)> {
    if !ValidRequest(req) then Err(Invalid)
    else if req.cursor > st.cursor then Err(Conflict)
    else
      match Batch(st, req.operations, clock, |req.operations|)
      case Err(e) => Err(e)
      case Ok(done) =>
        var changes := Page(done.0.changes, req.cursor, PAGE_SIZE);
        var cursor := LastCursor(changes, req.cursor);
        Ok((done.0, Response(done.1, changes, cursor, cursor < done.0.cursor)))
  }

  /** The four tables of one account. The methods work as the program does: read, compute in local
      variables, and write the tables only when the transaction commits. */
  class AccountStore {
    var records: map<Key, Row>
    var changes: map<int, Change>
    var operations: map<string, Applied>
    var cursor: int

    constructor ()
      ensures State() == EMPTY
    {
      records, changes, operations, cursor := map[], map[], map[], 0;
    }

    function State(): Account
      reads this
    {
      Account(records, changes, operations, cursor)
    }

    method Sync(req: Request, clock: int -> int) returns (out: Outcome<Response>)
      modifies this
      ensures match Transact(old(State()), req, clock)
              case Err(e) => out == Err(e) && State() == old(State())
              case Ok(done) => out == Ok(done.1) && State() == done.0
    {
      var valid := CheckRequest(req);
      if !valid {
        return Err(Invalid);
      }
      if req.cursor > cursor {
        return Err(Conflict);
      }
      var batch := RunBatch(State(), req.operations, clock);
      if batch.Err? {
        return Err(batch.error);
      }
      var (tx, results) := batch.value;
      var sent, last := ReadPage(tx.changes, req.cursor, PAGE_SIZE);
      records, changes, operations, cursor := tx.records, tx.changes, tx.operations, tx.cursor;
      return Ok(Response(results, sent, last, last < cursor));
    }
  }

  /** The loop over the operations, on the transaction's view of the tables. */
  method RunBatch(st: Account, ops: seq<Operation>, clock: int -> int)
    returns (out: Outcome<(Account, seq<OperationResult>)>)
    ensures out == Batch(st, ops, clock, |ops|)
  {
    var tx, results := st, [];
    for i := 0 to |ops|
      invariant Batch(st, ops, clock, i) == Ok((tx, results))
    {
      var applied := ApplyOperation(tx, ops[i], clock(i));
      if applied.Err? {
        BatchFailsAt(st, ops, clock, i + 1, |ops|);
        return Err(applied.error);
      }
      tx := applied.value.0;
      results := results + [applied.value.1];
    }
    return Ok((tx, results));
  }

  method CheckRequest(req: Request) returns (ok: bool)
    ensures ok == ValidRequest(req)
  {
    if req.cursor < 0 || |req.operations| > 50 {
      return false;
    }
    for i := 0 to |req.operations|
      invariant forall op :: op in req.operations[..i] ==> ValidOperation(op)
    {
      if !ValidOperation(req.operations[i]) {
        assert req.operations[i] in req.operations;
        return false;
      }
      assert req.operations[..i + 1] == req.operations[..i] + [req.operations[i]];
    }
    assert req.operations[..|req.operations|] == req.operations;
    return true;
  }

  /** What the page query asks for: logged changes above `after`, in strictly increasing order, and of those
      at most `limit`, leaving out none that comes before one it holds. */
  ghost predicate IsPage(sent: seq<Numbered>, changes: map<int, Change>, after: int, limit: nat) {
    && |sent| <= limit
    && (forall i :: 0 <= i < |sent| ==>
          sent[i].cursor > after && sent[i].cursor in changes && sent[i].change == changes[sent[i].cursor])
    && (forall i, j :: 0 <= i < j < |sent| ==> sent[i].cursor < sent[j].cursor)
    && LeavesNoneOut(sent, changes, after, limit)
  }

  /** Every logged cursor above `after` is sent, as far as the last one or, on a short page, all of them. */
  ghost predicate LeavesNoneOut(sent: seq<Numbered>, changes: map<int, Change>, after: int, limit: nat) {
    forall c :: c in changes && after < c && (|sent| < limit || c <= LastCursor(sent, after)) ==> Sends(sent, c)
  }

  predicate Sends(sent: seq<Numbered>, c: int) {
    exists i :: 0 <= i < |sent| && sent[i].cursor == c
  }

  lemma NoneOutStep(k: int, rest: seq<Numbered>, changes: map<int, Change>, after: int, limit: nat)
    requires limit > 0 && k in changes && k > after && forall j :: j in changes && j > after ==> k <= j
    requires LeavesNoneOut(rest, changes, k, limit - 1)
    ensures LeavesNoneOut([Numbered(k, changes[k])] + rest, changes, after, limit)
  {
    var page := [Numbered(k, changes[k])] + rest;
    assert LastCursor(page, after) == LastCursor(rest, k);
    forall c | c in changes && after < c && (|page| < limit || c <= LastCursor(page, after)) ensures Sends(page, c) {
      if c == k {
        assert page[0].cursor == c;
      } else {
        assert Sends(rest, c);
        var i :| 0 <= i < |rest| && rest[i].cursor == c;
        assert page[i + 1].cursor == c;
      }
    }
  }

  lemma PageStep(k: int, rest: seq<Numbered>, changes: map<int, Change>, after: int, limit: nat)
    requires limit > 0 && k in changes && k > after && forall j :: j in changes && j > after ==> k <= j
    requires IsPage(rest, changes, k, limit - 1)
    ensures IsPage([Numbered(k, changes[k])] + rest, changes, after, limit)
  {
    NoneOutStep(k, rest, changes, after, limit);
  }

  lemma {:induction false} PageIsPage(changes: map<int, Change>, after: int, limit: nat)
    ensures IsPage(Page(changes, after, limit), changes, after, limit)
    decreases limit
  {
    if limit > 0 && exists i :: i in changes && i > after {
      var k := Following(changes, after);
      PageIsPage(changes, k, limit - 1);
      PageStep(k, Page(changes, k, limit - 1), changes, after, limit);
    }
  }

  /** The row with the least cursor above `after`, from the rows in any order. */
  method NextChange(changes: map<int, Change>, after: int) returns (next: Option<Numbered>)
    ensures next.None? ==> forall i :: i in changes ==> i <= after
    ensures next.Some? ==>
              && next.value.cursor in changes && next.value.change == changes[next.value.cursor]
              && next.value.cursor > after && forall i :: i in changes && i > after ==> next.value.cursor <= i
  {
    next := None;
    var rows := set c | c in changes :: Numbered(c, changes[c]);
    var todo := rows;
    while todo != {}
      invariant todo <= rows
      invariant next.Some? ==> next.value in rows && next.value.cursor > after
      invariant forall row :: row in rows - todo && row.cursor > after ==>
                  next.Some? && next.value.cursor <= row.cursor
      decreases todo
    {
      var row :| row in todo;
      if row.cursor > after && (next.None? || row.cursor < next.value.cursor) {
        next := Some(row);
      }
      todo := todo - {row};
    }
    assert forall c :: c in changes ==> Numbered(c, changes[c]) in rows;
  }

  /** What is sent and what a page from there on would add make up the whole page. */
  ghost predicate Ahead(
      page: seq<Numbered>, changes: map<int, Change>, after: int, sent: seq<Numbered>, last: int, left: nat) {
    page == sent + Page(changes, last, left) && last == LastCursor(sent, after)
  }

  lemma AheadStep(
      page: seq<Numbered>, changes: map<int, Change>, after: int, sent: seq<Numbered>, last: int, left: nat, k: int)
    requires left > 0 && Ahead(page, changes, after, sent, last, left)
    requires k in changes && k > last && forall i :: i in changes && i > last ==> k <= i
    ensures Ahead(page, changes, after, sent + [Numbered(k, changes[k])], k, left - 1)
  {
    assert Following(changes, last) == k;
    var rest := Page(changes, k, left - 1);
    assert Page(changes, last, left) == [Numbered(k, changes[k])] + rest;
    assert sent + ([Numbered(k, changes[k])] + rest) == (sent + [Numbered(k, changes[k])]) + rest;
  }

  lemma AheadEnd(
      page: seq<Numbered>, changes: map<int, Change>, after: int, sent: seq<Numbered>, last: int, left: nat)
    requires Ahead(page, changes, after, sent, last, left) && (left == 0 || forall i :: i in changes ==> i <= last)
    ensures page == sent
  {
  }

  method CollectPage(changes: map<int, Change>, after: int, limit: nat) returns (sent: seq<Numbered>, last: int)
    ensures sent == Page(changes, after, limit) && last == LastCursor(sent, after)
  {
    sent, last := [], after;
    var left := limit;
    ghost var page := Page(changes, after, limit);
    while left > 0
      invariant Ahead(page, changes, after, sent, last, left)
    {
      var next := NextChange(changes, last);
      if next.None? {
        AheadEnd(page, changes, after, sent, last, left);
        return;
      }
      AheadStep(page, changes, after, sent, last, left, next.value.cursor);
      sent := sent + [next.value];
      last := next.value.cursor;
      left := left - 1;
    }
    AheadEnd(page, changes, after, sent, last, left);
  }

  /** The rows of the page query, one after the other, and the cursor of the last of them. */
  method ReadPage(changes: map<int, Change>, after: int, limit: nat) returns (sent: seq<Numbered>, last: int)
    ensures IsPage(sent, changes, after, limit) && last == LastCursor(sent, after)
    ensures sent == Page(changes, after, limit)
  {
    sent, last := CollectPage(changes, after, limit);
    PageIsPage(changes, after, limit);
  }

  /** The body of the batch loop, on the transaction's view of the tables. */
  method ApplyOperation(st: Account, op: Operation, now: int) returns (out: Outcome<(Account, OperationResult)>)
    ensures out == Apply(st, op, now)
  {
    if op.id in st.operations {
      if st.operations[op.id].digest != Digest(op) {
        return Err(Conflict);
      }
      return Ok((st, st.operations[op.id].result));
    }
    var key := OperationKey(op);
    var revision, candidates := 0, [];
    if key in st.records {
      revision, candidates := st.records[key].revision, st.records[key].candidates;
    }
    if op.baseRevision > revision {
      return Err(Conflict);
    }
    var conflict := op.baseRevision != revision;
    var value := StoredValue(op, candidates, conflict);
    if !conflict {
      candidates := [];
    }
    if |candidates| >= 16 {
      return Err(Conflict);
    }
    candidates := candidates + [Candidate(op.id, op.deleted, value, now)];
    revision := revision + 1;
    var tx := st.(records := st.records[key := Row(revision, candidates)]);
    tx := tx.(cursor := tx.cursor + 1);
    tx := tx.(changes := tx.changes[tx.cursor := Change(key, Row(revision, candidates))]);
    var result := OperationResult(op.id, revision, conflict);
    tx := tx.(operations := tx.operations[op.id := Applied(Digest(op), result)]);
    return Ok((tx, result));
  }

  /** A failing operation fails the whole batch with its error. */
  lemma {:induction false} BatchFailsAt(st: Account, ops: seq<Operation>, clock: int -> int, i: nat, n: nat)
    requires i <= n <= |ops| && Batch(st, ops, clock, i).Err?
    ensures Batch(st, ops, clock, n) == Err(Batch(st, ops, clock, i).error)
    decreases n
  {
    if i < n {
      BatchFailsAt(st, ops, clock, i, n - 1);
    }
  }
}
