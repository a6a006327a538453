/** What validation (internal/server/sync.go) promises to whoever reads positions: in every reachable account each
    stored position is in range, so that progress tracking (internal/server/tracking.go) reads one that it can use. */
module StoredPositions {
  import opened Text
  import opened Json
  import opened Operations
  import opened Accounts
  import opened Sync
  import opened Seeds
  import opened SyncRuns
  import KeptEdits
  import Tracking

  /** A deleted candidate has no value, and a live one the text of a position that was accepted. */
  predicate FromClient(c: Candidate) {
    if c.deleted then c.value == Nothing else c.value.Raw? && ValidPositionValue(c.value.value)
  }

  predicate AllFromClient(candidates: seq<Candidate>) {
    forall i :: 0 <= i < |candidates| ==> FromClient(candidates[i])
  }

  ghost predicate PositionsOk(st: Account) {
    forall key: Key :: key.kind == "position" ==> AllFromClient(CandidatesOf(st, key))
  }

  lemma ApplyPositions(st: Account, op: Operation, now: int)
    requires PositionsOk(st) && ValidOperation(op) && Apply(st, op, now).Ok?
    ensures PositionsOk(Apply(st, op, now).value.0)
  {
    if op.id !in st.operations {
      KeptEdits.AcceptedIsStored(st, op, now);
      var next, key := Apply(st, op, now).value.0, OperationKey(op);
      assert key.kind == "position" ==> AllFromClient(CandidatesOf(st, key));
    }
  }

  lemma {:induction false} BatchPositions(st: Account, ops: seq<Operation>, clock: int -> int, n: nat)
    requires PositionsOk(st) && n <= |ops| && Batch(st, ops, clock, n).Ok?
    requires forall op :: op in ops ==> ValidOperation(op)
    ensures PositionsOk(Batch(st, ops, clock, n).value.0)
  {
    if n > 0 {
      BatchPositions(st, ops, clock, n - 1);
      ApplyPositions(Batch(st, ops, clock, n - 1).value.0, ops[n - 1], clock(n - 1));
    }
  }

  lemma {:induction false} SeedsKeepPositions(st: Account, seeds: seq<Seed>, n: nat, key: Key)
    requires n <= |seeds| && key.kind != "book"
    ensures CandidatesOf(SeedMany(st, seeds, n), key) == CandidatesOf(st, key)
  {
    if n > 0 {
      SeedsKeepPositions(st, seeds, n - 1, key);
    }
  }

  lemma {:induction false} UpgradesKeepPositions(st: Account, ups: seq<Upgrade>, key: Key)
    requires key.kind != "book"
    ensures CandidatesOf(WriteMany(st, ups), key) == CandidatesOf(st, key)
  {
    if ups != [] {
      UpgradesKeepPositions(st, ups[..|ups| - 1], key);
    }
  }

  lemma StepPositions(sys: System, event: Event)
    requires PositionsOk(sys.account)
    ensures PositionsOk(Step(sys, event).account)
  {
    match event {
      case Synced(req, clock) =>
        if Transact(sys.account, req, clock).Ok? {
          KeptEdits.TransactIsBatch(sys.account, req, clock);
          BatchPositions(sys.account, req.operations, clock, |req.operations|);
        }
      case Seeded(seeds) =>
        forall key: Key | key.kind == "position" ensures AllFromClient(CandidatesOf(Step(sys, event).account, key)) {
          SeedsKeepPositions(sys.account, seeds, |seeds|, key);
        }
      case ReadShared(_) =>
      case WroteShared(index) =>
        if index < |sys.pending| {
          forall key: Key | key.kind == "position" ensures AllFromClient(CandidatesOf(Step(sys, event).account, key)) {
            UpgradesKeepPositions(sys.account, sys.pending[index], key);
          }
        }
    }
  }

  lemma {:induction false} RunPositions(sys: System, events: seq<Event>)
    requires PositionsOk(sys.account)
    ensures PositionsOk(Run(sys, events).account)
  {
    if events != [] {
      RunPositions(sys, events[..|events| - 1]);
      StepPositions(Run(sys, events[..|events| - 1]), events[|events| - 1]);
    }
  }

  /** `json.Unmarshal` of a stored value into the position that tracking reads; a missing number stays zero. */
  function Decoded(v: Value): Tracking.Position
    requires v.Obj?
  {
    var fraction, completed := NumberField(v.fields, "fraction"), NumberField(v.fields, "completedchapter");
    var current := NumberField(v.fields, "currentchapter");
    Tracking.Position(
      if fraction.Some? then fraction.value else 0.0, if completed.Some? then completed.value.Floor else 0,
      if current.Some? then Some(current.value.Floor) else None)
  }

  /** Over any run from the empty account, whatever the writers do, the position that tracking reads from a record
      without a conflict is a share between 0 and 1, in a chapter that tracking accepts or in none; and a place in the
      book is missing only at its end. */
  lemma TrackedPositionInRange(events: seq<Event>, bookId: string)
    ensures var candidates := CandidatesOf(Run(System(EMPTY, []), events).account, Key(bookId, "position", "default"));
            Accounts.Settled(candidates) ==>
              && candidates[0].value.Raw? && candidates[0].value.value.Obj?
              && var v := candidates[0].value.value; var pos := Decoded(v);
                 && 0.0 <= pos.fraction <= 1.0 && 0 <= pos.completed <= 100000
                 && (pos.current.Some? ==> 1 <= pos.current.value <= 100000)
                 && TextPointerField(v.fields, "cfi").Some?
                 && (TextPointerField(v.fields, "cfi") == Some("") ==> pos.fraction == 1.0)
  {
    var key := Key(bookId, "position", "default");
    RunPositions(System(EMPTY, []), events);
    var candidates := CandidatesOf(Run(System(EMPTY, []), events).account, key);
    assert AllFromClient(candidates);
    if Accounts.Settled(candidates) {
      assert FromClient(candidates[0]);
    }
  }

  /** So a link without a volume has a chapter exactly when the position has a current one or has completed one. */
  lemma TrackedChapter(events: seq<Event>, bookId: string)
    ensures var candidates := CandidatesOf(Run(System(EMPTY, []), events).account, Key(bookId, "position", "default"));
            Accounts.Settled(candidates) && candidates[0].value.Raw? && candidates[0].value.value.Obj? ==>
              var pos := Decoded(candidates[0].value.value);
              (exists n :: Tracking.InChapter(0.0, pos, n)) <==> pos.current.Some? || pos.completed > 0
  {
    TrackedPositionInRange(events, bookId);
    var candidates := CandidatesOf(Run(System(EMPTY, []), events).account, Key(bookId, "position", "default"));
    if Accounts.Settled(candidates) && candidates[0].value.Raw? && candidates[0].value.value.Obj? {
      var pos := Decoded(candidates[0].value.value);
      assert Tracking.InChapter(0.0, pos, if pos.current.Some? then pos.current.value else pos.completed) <==>
             pos.current.Some? || pos.completed > 0;
    }
  }
}
