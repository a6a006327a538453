/** Book values over any run: when a settled book record holds a canonical list of folders. */
module CanonicalBooks {
  import opened Text
  import opened Json
  import opened Folders
  import opened Operations
  import opened Accounts
  import opened Sync
  import opened Seeds
  import opened SyncRuns
  import KeptEdits

  predicate CanonicalBook(candidates: seq<Candidate>) {
    Settled(candidates) ==> candidates[0].value.Marshalled? && IsCanonical(candidates[0].value.members)
  }

  /** Every settled book record holds a canonical value. */
  ghost predicate CanonicalBooks(st: Account) {
    forall key :: key in st.records && key.kind == "book" ==> CanonicalBook(st.records[key].candidates)
  }

  predicate ExactEdit(op: Operation) {
    IsBookEdit(op) && op.value.Given? && op.value.value.Obj? ==> ExactFoldersOk(ToMap(op.value.value.fields))
  }

  lemma FlagKeepsCanonical(m: map<string, Value>, flag: Value)
    ensures IsCanonical(m["inLibrary" := flag]) == IsCanonical(m)
    ensures ExactFoldersOk(m["inLibrary" := flag]) == ExactFoldersOk(m)
    ensures forall p :: NextMemberships(m["inLibrary" := flag], p) == NextMemberships(m, p)
  {
  }

  /** Applying an operation keeps every settled book canonical, except in exactly one case: a book
      edit takes effect on the current revision and its exact-key folders fail the validator's test. */
  lemma ApplyCanonicalIff(st: Account, op: Operation, now: int)
    requires Consistent(st) && CanonicalBooks(st) && ValidOperation(op) && Apply(st, op, now).Ok?
    ensures CanonicalBooks(Apply(st, op, now).value.0) <==>
              (op.id in st.operations || op.baseRevision < RevisionOf(st, OperationKey(op)) || ExactEdit(op))
  {
    if op.id !in st.operations {
      var next, key := Apply(st, op, now).value.0, OperationKey(op);
      var candidates := CandidatesOf(st, key);
      RecordFacts(st, key);
      KeptEdits.AcceptedIsStored(st, op, now);
      assert forall k :: k in next.records && k != key ==> k in st.records && next.records[k] == st.records[k];
      assert CanonicalBooks(next) <==> (key.kind == "book" ==> CanonicalBook(next.records[key].candidates));
      if op.baseRevision == RevisionOf(st, key) && IsBookEdit(op) {
        var fields := op.value.value.fields;
        var previous := if Settled(candidates) then candidates[0].value.members else map[];
        AcceptedBookCanonicalIff(op.value.value, previous);
        StoredCurrentEdit(op, candidates);
      }
    }
  }

  /** A current book edit stores the canonical form of its text over the settled previous value. */
  lemma StoredCurrentEdit(op: Operation, candidates: seq<Candidate>)
    requires IsBookEdit(op) && op.value.Given? && op.value.value.Obj? && CanonicalBook(candidates)
    ensures var m := ToMap(op.value.value.fields);
            var previous := if Settled(candidates) then candidates[0].value.members else map[];
            var stored := StoredValue(op, candidates, false);
            && stored.Marshalled?
            && Memberships(stored.members) == NextMemberships(m, previous)
            && IsCanonical(stored.members) == IsCanonical(Canonical(m, previous))
  {
    var m := ToMap(op.value.value.fields);
    var previous := if Settled(candidates) then candidates[0].value.members else map[];
    if Settled(candidates) && "inLibrary" !in m && "inLibrary" in previous {
      FlagKeepsCanonical(m, previous["inLibrary"]);
      CanonicalMemberships(m["inLibrary" := previous["inLibrary"]], previous);
      CanonicalIffValidList(m["inLibrary" := previous["inLibrary"]], previous);
    }
    CanonicalMemberships(m, previous);
    CanonicalIffValidList(m, previous);
  }

  /** A current edit without a `folders` list keeps the record's memberships when it has no `folder`
      either, and otherwise replaces only the primary one. */
  lemma LegacyEditThroughSync(st: Account, op: Operation, now: int)
    requires Consistent(st) && CanonicalBooks(st) && ValidOperation(op) && IsBookEdit(op)
    requires op.id !in st.operations && op.baseRevision == RevisionOf(st, OperationKey(op))
    requires Settled(CandidatesOf(st, OperationKey(op))) && "folders" !in ToMap(op.value.value.fields)
    ensures Apply(st, op, now).Ok?
    ensures var key := OperationKey(op);
            var was := CandidatesOf(st, key)[0].value.members;
            var stored := CandidatesOf(Apply(st, op, now).value.0, key);
            && Settled(stored) && stored[0].value.Marshalled?
            && Memberships(stored[0].value.members) ==
                 if "folder" in ToMap(op.value.value.fields)
                 then LegacyEdit(Memberships(was), TextAt(ToMap(op.value.value.fields), "folder"))
                 else Memberships(was)
  {
    StoredCurrentEdit(op, CandidatesOf(st, OperationKey(op)));
  }

  /** A seed's value is canonical when the scan's folder is a valid path. */
  lemma SeedCanonical(seed: Seed)
    requires seed.folder.Some? ==> ValidFolder(seed.folder.value)
    ensures IsCanonical(SeedValue(seed).members)
  {
    var m := SeedFields(seed);
    CanonicalIffValidList(m, map[]);
    if "folders" in m {
      TextsOfStrArr(seed.metadata.folders.value);
    } else if "folder" in m {
      LegacyEditReplacesOnlyPrimary([], TextAt(m, "folder"));
    }
  }

  lemma {:induction false} BatchCanonical(st: Account, ops: seq<Operation>, clock: int -> int, n: nat)
    requires Consistent(st) && CanonicalBooks(st) && WellKeyed(ops) && n <= |ops| && Batch(st, ops, clock, n).Ok?
    requires forall op :: op in ops ==> ValidOperation(op) && ExactEdit(op)
    ensures CanonicalBooks(Batch(st, ops, clock, n).value.0)
  {
    if n > 0 {
      BatchCanonical(st, ops, clock, n - 1);
      BatchConsistent(st, ops, clock, n - 1);
      ApplyCanonicalIff(Batch(st, ops, clock, n - 1).value.0, ops[n - 1], clock(n - 1));
    }
  }

  lemma {:induction false} SeedManyCanonical(st: Account, seeds: seq<Seed>, n: nat)
    requires CanonicalBooks(st) && n <= |seeds|
    requires forall seed :: seed in seeds && seed.folder.Some? ==> ValidFolder(seed.folder.value)
    ensures CanonicalBooks(SeedMany(st, seeds, n))
  {
    if n > 0 {
      SeedManyCanonical(st, seeds, n - 1);
      SeedCanonical(seeds[n - 1]);
    }
  }

  lemma {:induction false} WriteManyCanonical(st: Account, ups: seq<Upgrade>)
    requires Consistent(st) && CanonicalBooks(st) && forall up :: up in ups ==> FromLog(st, up)
    ensures CanonicalBooks(WriteMany(st, ups))
  {
    if ups != [] {
      var front, up := ups[..|ups| - 1], ups[|ups| - 1];
      WriteManyCanonical(st, front);
      WriteManyConsistent(st, front);
      var before := WriteMany(st, front);
      FromLogLater(st, before, up);
      if UpgradeApplies(before, up) {
        KeptEdits.UpgradeRewritesItsRow(before, up);
        var was := before.records[BookKey(up.bookId)].candidates[0];
        FlagKeepsCanonical(was.value.members, Bool(false));
      }
    }
  }

  /** The inputs of an event pass the folder checks on exact keys. */
  ghost predicate ExactEvent(event: Event) {
    && (event.Synced? ==> forall op :: op in event.req.operations ==> ExactEdit(op))
    && (event.Seeded? ==> forall seed :: seed in event.seeds && seed.folder.Some? ==> ValidFolder(seed.folder.value))
  }

  /** Over a run whose inputs pass those checks every settled book stays canonical. */
  lemma {:induction false} RunCanonical(sys: System, events: seq<Event>)
    requires SystemOk(sys) && CanonicalBooks(sys.account) && forall e :: e in events ==> ExactEvent(e)
    ensures CanonicalBooks(Run(sys, events).account)
  {
    if events != [] {
      var front, event := events[..|events| - 1], events[|events| - 1];
      RunCanonical(sys, front);
      RunOk(sys, front);
      var before := Run(sys, front);
      assert ExactEvent(event);
      match event
      case Synced(req, clock) =>
        if Transact(before.account, req, clock).Ok? {
          ValidRequestWellKeyed(req);
          BatchCanonical(before.account, req.operations, clock, |req.operations|);
        }
      case Seeded(seeds) => SeedManyCanonical(before.account, seeds, |seeds|);
      case ReadShared(books) =>
      case WroteShared(index) =>
        if index < |before.pending| {
          forall up | up in before.pending[index] ensures FromLog(before.account, up) {
            var j :| 0 <= j < |before.pending[index]| && before.pending[index][j] == up;
          }
          WriteManyCanonical(before.account, before.pending[index]);
        }
    }
  }
}
