/** What the answers of a sync request (internal/server/sync.go) say about the account: the result of every operation
    that takes effect, and what a book edit carries over from the record. */
module Answers {
  import opened Text
  import opened Json
  import opened Operations
  import opened Accounts
  import opened Sync
  import opened SyncRuns
  import opened KeptEdits
  import Folders

  /** The result is about this operation: its revision is the number of changes that the log has for the record right
      after it, one more than before; it reports a conflict exactly when the operation was based on an older revision
      than the record had, and that is when the earlier candidates stayed. */
  ghost predicate Tells(result: OperationResult, before: Account, after: Account, op: Operation, now: int)
    requires Consistent(after)
  {
    var key := OperationKey(op);
    var was, candidates := CandidatesOf(before, key), CandidatesOf(after, key);
    && result.id == op.id
    && result.revision == RevisionOf(before, key) + 1 == RevisionOf(after, key)
    && result.revision == ChangeCount(after.changes, after.cursor, key)
    && (result.conflict <==> op.baseRevision < RevisionOf(before, key))
    && (result.conflict ==> was != [])
    && candidates != [] && candidates[..|candidates| - 1] == (if result.conflict then was else [])
    && candidates[|candidates| - 1].operationId == op.id && candidates[|candidates| - 1].createdAt == now
    && after.cursor == before.cursor + 1 && after.changes[after.cursor] == Change(key, after.records[key])
  }

  lemma ApplyTells(st: Account, op: Operation, now: int)
    requires Consistent(st) && ValidKey(OperationKey(op)) && op.baseRevision >= 0
    requires op.id !in st.operations && Apply(st, op, now).Ok?
    ensures Consistent(Apply(st, op, now).value.0)
    ensures Tells(Apply(st, op, now).value.1, st, Apply(st, op, now).value.0, op, now)
  {
    var key, next := OperationKey(op), Apply(st, op, now).value.0;
    ApplyConsistent(st, op, now);
    RecordFacts(st, key);
    RecordFacts(next, key);
    var candidates := CandidatesOf(next, key);
    assert candidates[..|candidates| - 1] ==
           (if op.baseRevision != RevisionOf(st, key) then CandidatesOf(st, key) else []);
  }

  lemma {:induction false} ResultStays(st: Account, ops: seq<Operation>, clock: int -> int, i: nat, n: nat)
    requires i < n <= |ops| && Batch(st, ops, clock, n).Ok?
    ensures Batch(st, ops, clock, i).Ok? && Apply(Batch(st, ops, clock, i).value.0, ops[i], clock(i)).Ok?
    ensures |Batch(st, ops, clock, n).value.1| == n
    ensures Batch(st, ops, clock, n).value.1[i] == Apply(Batch(st, ops, clock, i).value.0, ops[i], clock(i)).value.1
    decreases n
  {
    BatchRecordsResults(st, ops, clock, n);
    BatchRecordsResults(st, ops, clock, n - 1);
    if i < n - 1 {
      ResultStays(st, ops, clock, i, n - 1);
    }
  }

  /** Every operation of an accepted request that takes effect gets such a result at its own place. */
  lemma ResultsTell(st: Account, req: Request, clock: int -> int, i: nat)
    requires Consistent(st) && Transact(st, req, clock).Ok? && i < |req.operations|
    requires TakesEffect(st, req.operations, clock, i)
    ensures |Transact(st, req, clock).value.1.results| == |req.operations|
    ensures Batch(st, req.operations, clock, i + 1).Ok? && Consistent(Batch(st, req.operations, clock, i + 1).value.0)
    ensures Tells(Transact(st, req, clock).value.1.results[i], Batch(st, req.operations, clock, i).value.0,
                  Batch(st, req.operations, clock, i + 1).value.0, req.operations[i], clock(i))
  {
    var ops := req.operations;
    TransactResults(st, req, clock);
    TransactIsBatch(st, req, clock);
    assert ops[i] in ops;
    ResultStays(st, ops, clock, i, |ops|);
    BatchConsistent(st, ops, clock, i);
    ApplyTells(Batch(st, ops, clock, i).value.0, ops[i], clock(i));
  }

  lemma TransactResults(st: Account, req: Request, clock: int -> int)
    requires Transact(st, req, clock).Ok?
    ensures Batch(st, req.operations, clock, |req.operations|).Ok? && WellKeyed(req.operations)
    ensures Transact(st, req, clock).value.1.results == Batch(st, req.operations, clock, |req.operations|).value.1
  {
    ValidRequestWellKeyed(req);
  }

  // ---- what a book edit carries over ----

  /** The value of a member in a record with a single live candidate. */
  function Held(candidates: seq<Candidate>, name: string): Option<Value> {
    if !Settled(candidates) || Members(candidates[0].value).None? then None
    else
      var m := Members(candidates[0].value).value;
      if name in m then Some(m[name]) else None
  }

  function Sent(op: Operation, name: string): Option<Value> {
    if !op.value.Given? || !op.value.value.Obj? then None
    else
      var m := ToMap(op.value.value.fields);
      if name in m then Some(m[name]) else None
  }

  function Either(first: Option<Value>, second: Option<Value>): Option<Value> {
    if first.Some? then first else second
  }

  /** A current book edit keeps the format and the library flag that the record had, unless it sends its own; a stale
      one keeps the flag, and has a format only if it sends one. */
  lemma EditCarriesOver(st: Account, op: Operation, now: int)
    requires Consistent(st) && ValidOperation(op) && IsBookEdit(op) && op.id !in st.operations && Apply(st, op, now).Ok?
    ensures var key := OperationKey(op);
            var was, candidates := CandidatesOf(st, key), CandidatesOf(Apply(st, op, now).value.0, key);
            && candidates != []
            && var stored := [candidates[|candidates| - 1]];
               && Held(stored, "inLibrary") == Either(Sent(op, "inLibrary"), Held(was, "inLibrary"))
               && Held(stored, "format") ==
                    if op.baseRevision == RevisionOf(st, key) then Either(Sent(op, "format"), Held(was, "format"))
                    else Sent(op, "format")
  {
    var key := OperationKey(op);
    var was, conflict := CandidatesOf(st, key), op.baseRevision != RevisionOf(st, key);
    AcceptedIsStored(st, op, now);
    StoredCarries(op, was, conflict);
    var candidates := CandidatesOf(Apply(st, op, now).value.0, key);
    assert candidates[|candidates| - 1].value == StoredValue(op, was, conflict);
  }

  lemma StoredCarries(op: Operation, was: seq<Candidate>, conflict: bool)
    requires ValidOperation(op) && IsBookEdit(op)
    ensures var stored := [Candidate(op.id, false, StoredValue(op, was, conflict), 0)];
            && Held(stored, "inLibrary") == Either(Sent(op, "inLibrary"), Held(was, "inLibrary"))
            && Held(stored, "format") ==
                 if conflict then Sent(op, "format") else Either(Sent(op, "format"), Held(was, "format"))
  {
    var m := ToMap(op.value.value.fields);
    var existing := if Settled(was) then Members(was[0].value) else None;
    var carried := "inLibrary" !in m && existing.Some? && "inLibrary" in existing.value;
    var edited := if carried then m["inLibrary" := existing.value["inLibrary"]] else m;
    CanonicalCarries(edited, if !conflict && existing.Some? then existing.value else map[]);
  }

  lemma CanonicalCarries(incoming: map<string, Value>, previous: map<string, Value>)
    ensures var out := Folders.Canonical(incoming, previous);
            && ("inLibrary" in out <==> "inLibrary" in incoming)
            && ("inLibrary" in out ==> out["inLibrary"] == incoming["inLibrary"])
            && ("format" in out <==> "format" in incoming || "format" in previous)
            && ("format" in out ==>
                  out["format"] == if "format" in incoming then incoming["format"] else previous["format"])
  {
  }
}
