/** `SyncStatistics` (internal/server/statistics.go): one transaction merges a batch into the numbered
    history and returns what follows the client's cursor. */
module StatisticsSync {
  import opened Text
  import opened Statistics

  datatype Request = Request(cursor: int, activities: seq<Activity>)

  datatype Response = Response(cursor: int, activities: seq<Activity>, hasMore: bool)

  datatype Error = Invalid | Conflict

  type Outcome = Result<Response, Error>

  datatype Numbered = Numbered(cursor: int, activity: Activity)

  const MAX_BATCH: nat := 100
  const PAGE: nat := 100

  // ---- specification on the history as a sequence ----

  function CanonicalAll(activities: seq<Activity>): Option<seq<Activity>> {
    if activities == [] then Some([])
    else
      var front, last := CanonicalAll(activities[..|activities| - 1]), Canonical(activities[|activities| - 1]);
      if front.None? || last.None? then None else Some(front.value + [last.value])
  }

  function PageEnd(total: nat, after: nat, limit: nat): nat {
    if after + limit <= total then after + limit else total
  }

  function ResponseOf(log: seq<Activity>, after: nat, limit: nat): Response
    requires after <= |log|
  {
    var end := PageEnd(|log|, after, limit);
    Response(end, log[after..end], end < |log|)
  }

  datatype Synced = Synced(log: seq<Activity>, outcome: Outcome)

  function SyncLog(log: seq<Activity>, req: Request): Synced {
    if req.cursor < 0 || |req.activities| > MAX_BATCH then Synced(log, Err(Invalid))
    else
      match CanonicalAll(req.activities)
      case None => Synced(log, Err(Invalid))
      case Some(batch) =>
        if req.cursor > |log| then Synced(log, Err(Conflict))
        else
          match Merge(log, batch)
          case None => Synced(log, Err(Conflict))
          case Some(merged) =>
            LongerLog(log, batch);
            Synced(merged, Ok(ResponseOf(merged, req.cursor, PAGE)))
  }

  // ---- the table ----

  /** The rows are the history: cursors exactly 1 to its length, each identity once. */
  ghost predicate TableOk(rows: map<string, Numbered>, log: seq<Activity>) {
    && DistinctIds(log) && rows.Keys == Ids(log)
    && forall i :: 0 <= i < |log| ==> log[i].id in rows && rows[log[i].id] == Numbered(i + 1, log[i])
  }

  lemma TableRow(rows: map<string, Numbered>, log: seq<Activity>, id: string)
    requires TableOk(rows, log) && id in rows
    ensures 1 <= rows[id].cursor <= |log| && rows[id].activity == log[rows[id].cursor - 1] && rows[id].activity.id == id
  {
    var a :| a in log && a.id == id;
    var i :| 0 <= i < |log| && log[i] == a;
  }

  lemma TableInsert(rows: map<string, Numbered>, log: seq<Activity>, a: Activity)
    requires TableOk(rows, log) && a.id !in rows
    ensures TableOk(rows[a.id := Numbered(|log| + 1, a)], log + [a])
  {
    assert Ids(log + [a]) == Ids(log) + {a.id};
    forall i | 0 <= i < |log| ensures log[i].id != a.id {
      assert log[i].id in Ids(log);
    }
  }

  /** `SELECT COALESCE(MAX(cursor),0)`. */
  method MaxCursor(rows: map<string, Numbered>, ghost log: seq<Activity>) returns (cursor: int)
    requires TableOk(rows, log)
    ensures cursor == |log|
  {
    cursor := 0;
    var todo := rows.Keys;
    while todo != {}
      invariant todo <= rows.Keys && 0 <= cursor <= |log|
      invariant forall id :: id in rows.Keys - todo ==> rows[id].cursor <= cursor
      decreases todo
    {
      var id :| id in todo;
      TableRow(rows, log, id);
      if rows[id].cursor > cursor {
        cursor := rows[id].cursor;
      }
      todo := todo - {id};
    }
    if log != [] {
      assert log[|log| - 1].id in rows;
    }
  }

  /** The row with the least cursor above `after`. */
  method NextRow(rows: map<string, Numbered>, after: int, ghost log: seq<Activity>) returns (next: Option<Numbered>)
    requires TableOk(rows, log) && after >= 0
    ensures next == if after < |log| then Some(Numbered(after + 1, log[after])) else None
  {
    next := None;
    var todo := rows.Keys;
    while todo != {}
      invariant todo <= rows.Keys
      invariant next.Some? ==> after < next.value.cursor <= |log| && next.value.activity == log[next.value.cursor - 1]
      invariant forall id :: id in rows.Keys - todo && rows[id].cursor > after ==>
                  next.Some? && next.value.cursor <= rows[id].cursor
      decreases todo
    {
      var id :| id in todo;
      TableRow(rows, log, id);
      if rows[id].cursor > after && (next.None? || rows[id].cursor < next.value.cursor) {
        next := Some(rows[id]);
      }
      todo := todo - {id};
    }
    if after < |log| {
      assert log[after].id in rows && rows[log[after].id].cursor == after + 1;
    }
  }

  method CanonicalBatch(activities: seq<Activity>) returns (out: Option<seq<Activity>>)
    ensures out == CanonicalAll(activities)
  {
    var done: seq<Activity> := [];
    for i := 0 to |activities|
      invariant CanonicalAll(activities[..i]) == Some(done)
    {
      assert activities[..i + 1][..i] == activities[..i];
      var a := CanonicalActivity(activities[i]);
      if a.None? {
        FailsWithPart(activities, i + 1);
        return None;
      }
      done := done + [a.value];
    }
    assert activities[..|activities|] == activities;
    return Some(done);
  }

  lemma {:induction false} FailsWithPart(activities: seq<Activity>, n: nat)
    requires n <= |activities| && CanonicalAll(activities[..n]).None?
    ensures CanonicalAll(activities).None?
  {
    if n < |activities| {
      assert activities[..|activities| - 1][..n] == activities[..n];
      FailsWithPart(activities[..|activities| - 1], n);
    } else {
      assert activities[..n] == activities;
    }
  }

  class ActivityStore {
    var rows: map<string, Numbered>
    ghost var log: seq<Activity>

    ghost predicate Valid()
      reads this
    {
      TableOk(rows, log)
    }

    constructor ()
      ensures Valid() && log == []
    {
      rows, log := map[], [];
    }

    /** All of a batch or nothing of it, and the page after the client's cursor. */
    method Sync(req: Request) returns (out: Outcome)
      requires Valid()
      modifies this
      ensures Valid() && Synced(log, out) == SyncLog(old(log), req)
      ensures out.Err? ==> rows == old(rows)
    {
      if req.cursor < 0 || |req.activities| > MAX_BATCH {
        return Err(Invalid);
      }
      var canonical := CanonicalBatch(req.activities);
      if canonical.None? {
        return Err(Invalid);
      }
      var cursor := MaxCursor(rows, log);
      if req.cursor > cursor {
        return Err(Conflict);
      }
      var merged, mergedCursor, pending := MergeBatch(rows, cursor, canonical.value, log);
      if merged.None? {
        return Err(Conflict);
      }
      LongerLog(log, canonical.value);
      rows, log := merged.value, pending;
      var response := ReadPage(rows, req.cursor, PAGE, mergedCursor, log);
      return Ok(response);
    }
  }

  lemma {:induction false} LongerLog(log: seq<Activity>, batch: seq<Activity>)
    requires Merge(log, batch).Some?
    ensures |Merge(log, batch).value| >= |log|
  {
    if batch != [] {
      LongerLog(log, batch[..|batch| - 1]);
    }
  }

  /** The loop of the transaction, on the rows as the transaction sees them. */
  method MergeBatch(rows: map<string, Numbered>, cursor: int, batch: seq<Activity>, ghost log: seq<Activity>)
    returns (merged: Option<map<string, Numbered>>, next: int, ghost after: seq<Activity>)
    requires TableOk(rows, log) && cursor == |log|
    ensures merged.Some? <==> Merge(log, batch).Some?
    ensures merged.Some? ==> Merge(log, batch) == Some(after) && TableOk(merged.value, after) && next == |after|
  {
    var pending := rows;
    next, after := cursor, log;
    for i := 0 to |batch|
      invariant Merge(log, batch[..i]) == Some(after)
      invariant TableOk(pending, after) && next == |after|
    {
      var a := batch[i];
      assert batch[..i + 1][..i] == batch[..i];
      if a.id in pending {
        TableRow(pending, after, a.id);
        if pending[a.id].activity != a {
          KnownDiffers(pending, after, a);
          MergeFailsWithPart(log, batch, i + 1);
          return None, next, after;
        }
        continue;
      }
      TableInsert(pending, after, a);
      next := next + 1;
      pending := pending[a.id := Numbered(next, a)];
      after := after + [a];
    }
    assert batch[..|batch|] == batch;
    return Some(pending), next, after;
  }

  lemma KnownDiffers(rows: map<string, Numbered>, log: seq<Activity>, a: Activity)
    requires TableOk(rows, log) && a.id in rows && rows[a.id].activity != a
    ensures MergeOne(log, a).None?
  {
  }

  lemma {:induction false} MergeFailsWithPart(log: seq<Activity>, batch: seq<Activity>, n: nat)
    requires n <= |batch| && Merge(log, batch[..n]).None?
    ensures Merge(log, batch).None?
  {
    if n < |batch| {
      assert batch[..|batch| - 1][..n] == batch[..n];
      MergeFailsWithPart(log, batch[..|batch| - 1], n);
    } else {
      assert batch[..n] == batch;
    }
  }

  method ReadPage(rows: map<string, Numbered>, after: int, limit: nat, cursor: int, ghost log: seq<Activity>)
    returns (out: Response)
    requires TableOk(rows, log) && 0 <= after <= |log| && cursor == |log|
    ensures out == ResponseOf(log, after, limit)
  {
    var last, activities := after, [];
    for i := 0 to limit
      invariant after <= last <= |log| && last == PageEnd(|log|, after, i) && activities == log[after..last]
    {
      var row := NextRow(rows, last, log);
      if row.None? {
        break;
      }
      assert log[after..last + 1] == log[after..last] + [log[last]];
      activities := activities + [row.value.activity];
      last := row.value.cursor;
    }
    return Response(last, activities, last < cursor);
  }

  // ---- runs ----

  function Run(log: seq<Activity>, requests: seq<Request>): seq<Activity> {
    if requests == [] then log
    else SyncLog(Run(log, requests[..|requests| - 1]), requests[|requests| - 1]).log
  }

  ghost predicate LogOk(log: seq<Activity>) {
    DistinctIds(log) && forall a :: a in log ==> Canonical(a) == Some(a)
  }

  lemma {:induction false} CanonicalAllIs(activities: seq<Activity>)
    requires CanonicalAll(activities).Some?
    ensures |CanonicalAll(activities).value| == |activities|
    ensures forall i :: 0 <= i < |activities| ==> Canonical(activities[i]) == Some(CanonicalAll(activities).value[i])
  {
    if activities != [] {
      CanonicalAllIs(activities[..|activities| - 1]);
    }
  }

  lemma SyncKeeps(log: seq<Activity>, req: Request)
    requires LogOk(log)
    ensures log <= SyncLog(log, req).log && LogOk(SyncLog(log, req).log)
  {
    var batch := CanonicalAll(req.activities);
    if SyncLog(log, req).outcome.Ok? {
      MergeAppends(log, batch.value);
      CanonicalAllIs(req.activities);
      forall a | a in batch.value ensures Canonical(a) == Some(a) {
        var i :| 0 <= i < |batch.value| && batch.value[i] == a;
        CanonicalIdempotent(req.activities[i]);
      }
    }
  }

  /** In every run the history only grows at its end: no cursor is reused, no stored activity changes, no
      identity comes twice, and all are in canonical form. */
  lemma {:induction false} RunAppends(log: seq<Activity>, requests: seq<Request>)
    requires LogOk(log)
    ensures log <= Run(log, requests) && LogOk(Run(log, requests))
  {
    if requests != [] {
      RunAppends(log, requests[..|requests| - 1]);
      SyncKeeps(Run(log, requests[..|requests| - 1]), requests[|requests| - 1]);
    }
  }

  /** A batch that was accepted can be sent again at any later time, its activities in any order and with
      their chapters in any order: it is accepted and adds nothing. */
  lemma RetryAddsNothing(log: seq<Activity>, first: Request, between: seq<Request>, retry: Request)
    requires LogOk(log) && SyncLog(log, first).outcome.Ok?
    requires |retry.activities| <= MAX_BATCH && 0 <= retry.cursor <= |SyncLog(log, first).log|
    requires forall a :: a in retry.activities ==> exists b :: b in first.activities && Reordered(b, a)
    ensures var now := Run(SyncLog(log, first).log, between);
            SyncLog(now, retry).log == now && SyncLog(now, retry).outcome.Ok?
  {
    var after := SyncLog(log, first).log;
    var now := Run(after, between);
    SyncKeeps(log, first);
    RunAppends(after, between);
    forall a | a in retry.activities ensures Canonical(a).Some? && Canonical(a).value in now {
      var b :| b in first.activities && Reordered(b, a);
      StoredCanonical(log, first, b);
      CanonicalIffReordered(b, a);
      var k :| 0 <= k < |after| && after[k] == Canonical(b).value;
      assert now[k] == after[k];
    }
    AllKnown(retry.activities, now);
    KnownAddNothing(now, CanonicalAll(retry.activities).value);
  }

  lemma StoredCanonical(log: seq<Activity>, req: Request, b: Activity)
    requires LogOk(log) && SyncLog(log, req).outcome.Ok? && b in req.activities
    ensures Canonical(b).Some? && Canonical(b).value in SyncLog(log, req).log
  {
    var i :| 0 <= i < |req.activities| && req.activities[i] == b;
    CanonicalAllIs(req.activities);
    MergeAppends(log, CanonicalAll(req.activities).value);
  }

  lemma {:induction false} AllKnown(activities: seq<Activity>, log: seq<Activity>)
    requires forall a :: a in activities ==> Canonical(a).Some? && Canonical(a).value in log
    ensures CanonicalAll(activities).Some? && forall a :: a in CanonicalAll(activities).value ==> a in log
  {
    if activities != [] {
      assert activities == activities[..|activities| - 1] + [activities[|activities| - 1]];
      AllKnown(activities[..|activities| - 1], log);
    }
  }

  /** A client that holds the first `cursor` activities holds the first ones of the history after any
      accepted request; all of them when nothing more is announced, and otherwise a whole page more. */
  lemma PullKeepsPrefix(log: seq<Activity>, req: Request)
    requires LogOk(log) && SyncLog(log, req).outcome.Ok?
    ensures var (now, r) := (SyncLog(log, req).log, SyncLog(log, req).outcome.value);
            && 0 <= req.cursor <= r.cursor <= |now|
            && log[..req.cursor] + r.activities == now[..r.cursor]
            && (if r.hasMore then r.cursor == req.cursor + PAGE else r.cursor == |now|)
  {
    SyncKeeps(log, req);
    var now, r := SyncLog(log, req).log, SyncLog(log, req).outcome.value;
    assert now[..req.cursor] == log[..req.cursor];
    assert now[..r.cursor] == now[..req.cursor] + now[req.cursor..r.cursor];
  }
}
