/** What becomes of the edits of clients over any run: none is lost before it is resolved, except those that a
    scan takes for a seed. */
module KeptEdits {
  import opened Text
  import opened Json
  import opened Folders
  import opened Operations
  import opened Accounts
  import opened Sync
  import opened Seeds
  import opened SyncRuns

  /** Whether one of the operations from `from` up to `n` resolves the record: it takes effect with the
      record's revision of that moment as its base. */
  predicate Resolves(st: Account, ops: seq<Operation>, clock: int -> int, from: nat, n: nat, key: Key)
    requires from <= n <= |ops|
    decreases n
  {
    n > from && Batch(st, ops, clock, n - 1).Ok? &&
    (Resolves(st, ops, clock, from, n - 1, key) ||
     var before := Batch(st, ops, clock, n - 1).value.0;
     OperationKey(ops[n - 1]) == key && ops[n - 1].id !in before.operations &&
     ops[n - 1].baseRevision == RevisionOf(before, key))
  }

  /** An accepted fresh operation becomes the last candidate of its record; a stale one leaves the
      old candidates before it, tombstones included, and no other record changes. */
  lemma AcceptedIsStored(st: Account, op: Operation, now: int)
    requires op.id !in st.operations && Apply(st, op, now).Ok?
    ensures var next, key := Apply(st, op, now).value.0, OperationKey(op);
            && |CandidatesOf(next, key)| > 0
            && var stored := CandidatesOf(next, key)[|CandidatesOf(next, key)| - 1];
               && stored.operationId == op.id && stored.deleted == op.deleted
               && CandidatesOf(next, key) ==
                    (if op.baseRevision == RevisionOf(st, key) then [] else CandidatesOf(st, key)) + [stored]
               && (op.deleted ==> stored.value == Nothing)
               && (!op.deleted && op.value.Given? && op.kind != "book" ==> stored.value == Raw(op.value.value))
               && forall k :: k != key ==> CandidatesOf(next, k) == CandidatesOf(st, k)
  {
  }

  lemma {:induction false} BatchKeepsUnresolved(st: Account, ops: seq<Operation>, clock: int -> int, from: nat,
      n: nat, key: Key)
    requires from <= n <= |ops| && Batch(st, ops, clock, n).Ok? && !Resolves(st, ops, clock, from, n, key)
    ensures Batch(st, ops, clock, from).Ok?
    ensures CandidatesOf(Batch(st, ops, clock, from).value.0, key) <= CandidatesOf(Batch(st, ops, clock, n).value.0,
              key)
    decreases n
  {
    if n > from {
      BatchKeepsUnresolved(st, ops, clock, from, n - 1, key);
      var before := Batch(st, ops, clock, n - 1).value.0;
      if ops[n - 1].id !in before.operations {
        AcceptedIsStored(before, ops[n - 1], clock(n - 1));
      }
    }
  }

  /** A record no automatic writer may replace: in conflict, deleted, or last written under an
      identifier that does not have a seed's length. */
  predicate ClientOwned(candidates: seq<Candidate>) {
    |candidates| > 1 ||
    (|candidates| == 1 && (candidates[0].deleted || |candidates[0].operationId| != SEED_ID_LENGTH))
  }

  lemma {:induction false} SeedManyKeepsOwned(st: Account, seeds: seq<Seed>, n: nat, key: Key)
    requires n <= |seeds| && ClientOwned(CandidatesOf(st, key))
    ensures CandidatesOf(SeedMany(st, seeds, n), key) == CandidatesOf(st, key)
  {
    if n > 0 {
      SeedManyKeepsOwned(st, seeds, n - 1, key);
    }
  }

  /** An upgrade that applies rewrites the very row it was read from. */
  lemma UpgradeRewritesItsRow(st: Account, up: Upgrade)
    requires Consistent(st) && FromLog(st, up) && BookKey(up.bookId) in st.records
    requires st.records[BookKey(up.bookId)].revision == up.revision - 1
    ensures UpgradeOf(up.bookId, st.records[BookKey(up.bookId)]) == Some(up)
  {
    var key := BookKey(up.bookId);
    var i :| i in st.changes && st.changes[i].key == key && UpgradeOf(up.bookId, st.changes[i].row) == Some(up);
    var at := LastChange(st.changes, st.cursor, key);
    if i <= at {
      RevisionNamesChange(st, i, at);
    } else {
      RevisionNamesChange(st, at, i);
    }
  }

  lemma {:induction false} WriteManyKeepsOwned(st: Account, ups: seq<Upgrade>, key: Key)
    requires Consistent(st) && (forall up :: up in ups ==> FromLog(st, up)) && ClientOwned(CandidatesOf(st, key))
    ensures CandidatesOf(WriteMany(st, ups), key) == CandidatesOf(st, key)
  {
    if ups != [] {
      var front, up := ups[..|ups| - 1], ups[|ups| - 1];
      WriteManyKeepsOwned(st, front, key);
      WriteManyConsistent(st, front);
      var before := WriteMany(st, front);
      FromLogLater(st, before, up);
      if UpgradeApplies(before, up) {
        UpgradeRewritesItsRow(before, up);
      }
    }
  }

  predicate EventResolves(sys: System, event: Event, key: Key) {
    event.Synced? && Transact(sys.account, event.req, event.clock).Ok? &&
    Resolves(sys.account, event.req.operations, event.clock, 0, |event.req.operations|, key)
  }

  predicate RunResolves(sys: System, events: seq<Event>, key: Key) {
    events != [] &&
    (RunResolves(sys, events[..|events| - 1], key) ||
     EventResolves(Run(sys, events[..|events| - 1]), events[|events| - 1], key))
  }

  /** No edit is lost: over any run the candidates of a client-owned record stay, in order and in
      front, until a client resolves the record on its current revision. */
  lemma {:induction false} NoEditLost(sys: System, events: seq<Event>, key: Key)
    requires SystemOk(sys) && ClientOwned(CandidatesOf(sys.account, key)) && !RunResolves(sys, events, key)
    ensures CandidatesOf(sys.account, key) <= CandidatesOf(Run(sys, events).account, key)
    ensures ClientOwned(CandidatesOf(Run(sys, events).account, key))
  {
    if events != [] {
      var front, event := events[..|events| - 1], events[|events| - 1];
      NoEditLost(sys, front, key);
      RunOk(sys, front);
      var before := Run(sys, front);
      match event
      case Synced(req, clock) =>
        if Transact(before.account, req, clock).Ok? {
          BatchKeepsUnresolved(before.account, req.operations, clock, 0, |req.operations|, key);
        }
      case Seeded(seeds) => SeedManyKeepsOwned(before.account, seeds, |seeds|, key);
      case ReadShared(books) =>
      case WroteShared(index) =>
        if index < |before.pending| {
          forall up | up in before.pending[index] ensures FromLog(before.account, up) {
            var j :| 0 <= j < |before.pending[index]| && before.pending[index][j] == up;
          }
          WriteManyKeepsOwned(before.account, before.pending[index], key);
        }
    }
  }

  /** A record in conflict, or whose only candidate a client sent, under whatever identifier. */
  predicate ClientWritten(st: Account, key: Key) {
    var candidates := CandidatesOf(st, key);
    |candidates| > 1 || (|candidates| == 1 && candidates[0].operationId in st.operations)
  }

  /** Whether one of the first `n` seeds replaces the record. */
  predicate Reseeds(st: Account, seeds: seq<Seed>, n: nat, key: Key)
    requires n <= |seeds|
  {
    n > 0 && (Reseeds(st, seeds, n - 1, key) ||
              (BookKey(seeds[n - 1].bookId) == key && SeedWrites(SeedMany(st, seeds, n - 1), seeds[n - 1])))
  }

  predicate RunReseeds(sys: System, events: seq<Event>, key: Key) {
    events != [] &&
    (RunReseeds(sys, events[..|events| - 1], key) ||
     var event := events[|events| - 1];
     event.Seeded? && Reseeds(Run(sys, events[..|events| - 1]).account, event.seeds, |event.seeds|, key))
  }

  lemma {:induction false} SeedManyElsewhere(st: Account, seeds: seq<Seed>, n: nat, key: Key)
    requires n <= |seeds| && !Reseeds(st, seeds, n, key)
    ensures CandidatesOf(SeedMany(st, seeds, n), key) == CandidatesOf(st, key)
    ensures SeedMany(st, seeds, n).operations == st.operations
  {
    if n > 0 {
      SeedManyElsewhere(st, seeds, n - 1, key);
    }
  }

  lemma {:induction false} WriteManyKeepsWritten(st: Account, ups: seq<Upgrade>, key: Key)
    requires Consistent(st) && (forall up :: up in ups ==> FromLog(st, up)) && ClientWritten(st, key)
    ensures CandidatesOf(WriteMany(st, ups), key) == CandidatesOf(st, key)
    ensures WriteMany(st, ups).operations == st.operations
  {
    if ups != [] {
      var front, up := ups[..|ups| - 1], ups[|ups| - 1];
      WriteManyKeepsWritten(st, front, key);
      WriteManyConsistent(st, front);
      var before := WriteMany(st, front);
      FromLogLater(st, before, up);
      if UpgradeApplies(before, up) {
        UpgradeRewritesItsRow(before, up);
      }
    }
  }

  lemma ApplyKeepsWritten(st: Account, op: Operation, now: int, key: Key)
    requires Apply(st, op, now).Ok? && ClientWritten(st, key)
    requires !(OperationKey(op) == key && op.id !in st.operations && op.baseRevision == RevisionOf(st, key))
    ensures ClientWritten(Apply(st, op, now).value.0, key)
  {
    ApplyStoresResult(st, op, now);
    if op.id !in st.operations {
      AcceptedIsStored(st, op, now);
    }
  }

  lemma {:induction false} BatchKeepsWritten(st: Account, ops: seq<Operation>, clock: int -> int, from: nat, n: nat,
      key: Key)
    requires from <= n <= |ops| && Batch(st, ops, clock, n).Ok? && !Resolves(st, ops, clock, from, n, key)
    requires Batch(st, ops, clock, from).Ok? && ClientWritten(Batch(st, ops, clock, from).value.0, key)
    ensures ClientWritten(Batch(st, ops, clock, n).value.0, key)
    decreases n
  {
    if n > from {
      BatchKeepsWritten(st, ops, clock, from, n - 1, key);
      ApplyKeepsWritten(Batch(st, ops, clock, n - 1).value.0, ops[n - 1], clock(n - 1), key);
    }
  }

  /** The same for every edit a client ever sent, also under an identifier of a seed's length: its candidate
      stays until a client resolves the record or a scan takes it for a seed. The upgrade never touches it. */
  lemma {:induction false} NoEditLostUntilReseeded(sys: System, events: seq<Event>, key: Key)
    requires SystemOk(sys) && ClientWritten(sys.account, key)
    requires !RunResolves(sys, events, key) && !RunReseeds(sys, events, key)
    ensures CandidatesOf(sys.account, key) <= CandidatesOf(Run(sys, events).account, key)
    ensures ClientWritten(Run(sys, events).account, key)
  {
    if events != [] {
      var front, event := events[..|events| - 1], events[|events| - 1];
      NoEditLostUntilReseeded(sys, front, key);
      RunOk(sys, front);
      var before := Run(sys, front);
      match event
      case Synced(req, clock) =>
        if Transact(before.account, req, clock).Ok? {
          BatchKeepsUnresolved(before.account, req.operations, clock, 0, |req.operations|, key);
          BatchKeepsWritten(before.account, req.operations, clock, 0, |req.operations|, key);
        }
      case Seeded(seeds) => SeedManyElsewhere(before.account, seeds, |seeds|, key);
      case ReadShared(books) =>
      case WroteShared(index) =>
        if index < |before.pending| {
          forall up | up in before.pending[index] ensures FromLog(before.account, up) {
            var j :| 0 <= j < |before.pending[index]| && before.pending[index][j] == up;
          }
          WriteManyKeepsWritten(before.account, before.pending[index], key);
        }
    }
  }

  /** The content of an edit as its candidate holds it: a tombstone, the text as sent, or for a book a value with
      every member as sent but the folder members, which are canonicalised, and with a library flag or a format
      carried from the record at most; a list of folders is held as sent. */
  predicate Holds(op: Operation, value: Stored) {
    if op.deleted then value == Nothing
    else if op.value.Absent? then false
    else if op.kind != "book" || !op.value.value.Obj? then value == Raw(op.value.value)
    else
      Members(value).Some? &&
      var sent, held := ToMap(op.value.value.fields), Members(value).value;
      && (forall k :: k in sent && k != "folder" && k != "folders" ==> k in held && held[k] == sent[k])
      && (forall k :: k in held && k !in sent ==> k in {"folder", "folders", "format", "inLibrary"})
      && ("folders" in sent ==> ListAt(held, "folders") == Some(NextMemberships(sent, map[])))
  }

  lemma CanonicalKeeps(sent: map<string, Value>, edited: map<string, Value>, previous: map<string, Value>)
    requires edited == sent || ("inLibrary" !in sent && "inLibrary" in edited
               && edited == sent["inLibrary" := edited["inLibrary"]])
    ensures var held := Canonical(edited, previous);
            && (forall k :: k in sent && k != "folder" && k != "folders" ==> k in held && held[k] == sent[k])
            && (forall k :: k in held && k !in sent ==> k in {"folder", "folders", "format", "inLibrary"})
            && ("folders" in sent ==> ListAt(held, "folders") == Some(NextMemberships(sent, map[])))
  {
    CanonicalMemberships(edited, previous);
    if "folders" in sent {
      assert NextMemberships(edited, previous) == NextMemberships(sent, map[]);
    }
  }

  lemma StoredHolds(op: Operation, candidates: seq<Candidate>, conflict: bool)
    requires op.deleted || op.value.Given?
    ensures Holds(op, StoredValue(op, candidates, conflict))
  {
    if !op.deleted && op.kind == "book" && op.value.value.Obj? {
      var sent := ToMap(op.value.value.fields);
      var existing := if Settled(candidates) then Members(candidates[0].value) else None;
      var carried := "inLibrary" !in sent && existing.Some? && "inLibrary" in existing.value;
      var edited := if carried then sent["inLibrary" := existing.value["inLibrary"]] else sent;
      CanonicalKeeps(sent, edited, if !conflict && existing.Some? then existing.value else map[]);
    }
  }

  /** The candidate of an accepted operation is in the record, with its content. */
  ghost predicate Present(st: Account, op: Operation) {
    exists p :: 0 <= p < |CandidatesOf(st, OperationKey(op))| && PresentAt(st, op, p)
  }

  ghost predicate PresentAt(st: Account, op: Operation, p: nat)
    requires p < |CandidatesOf(st, OperationKey(op))|
  {
    var c := CandidatesOf(st, OperationKey(op))[p];
    c.operationId == op.id && c.deleted == op.deleted && Holds(op, c.value)
  }

  lemma PresentStays(st: Account, later: Account, op: Operation)
    requires Present(st, op) && CandidatesOf(st, OperationKey(op)) <= CandidatesOf(later, OperationKey(op))
    ensures Present(later, op)
  {
    var p: nat :| p < |CandidatesOf(st, OperationKey(op))| && PresentAt(st, op, p);
    assert PresentAt(later, op, p);
  }

  lemma AcceptedIsPresent(st: Account, op: Operation, now: int)
    requires ValidOperation(op) && op.id !in st.operations && Apply(st, op, now).Ok?
    ensures Present(Apply(st, op, now).value.0, op) && ClientWritten(Apply(st, op, now).value.0, OperationKey(op))
  {
    var next, key := Apply(st, op, now).value.0, OperationKey(op);
    AcceptedIsStored(st, op, now);
    StoredHolds(op, CandidatesOf(st, key), op.baseRevision != RevisionOf(st, key));
    assert PresentAt(next, op, |CandidatesOf(next, key)| - 1);
  }

  /** Whether the operation at index `i` takes effect there. */
  predicate TakesEffect(st: Account, ops: seq<Operation>, clock: int -> int, i: nat)
    requires i < |ops|
  {
    Batch(st, ops, clock, i).Ok? && ops[i].id !in Batch(st, ops, clock, i).value.0.operations
  }

  lemma AcceptedInBatch(st: Account, ops: seq<Operation>, clock: int -> int, i: nat, n: nat)
    requires i < n <= |ops| && Batch(st, ops, clock, n).Ok? && TakesEffect(st, ops, clock, i) && ValidOperation(ops[i])
    requires !Resolves(st, ops, clock, i + 1, n, OperationKey(ops[i]))
    ensures Present(Batch(st, ops, clock, n).value.0, ops[i])
    ensures ClientWritten(Batch(st, ops, clock, n).value.0, OperationKey(ops[i]))
  {
    var key := OperationKey(ops[i]);
    BatchKeepsUnresolved(st, ops, clock, i + 1, n, key);
    AcceptedIsPresent(Batch(st, ops, clock, i).value.0, ops[i], clock(i));
    BatchKeepsWritten(st, ops, clock, i + 1, n, key);
    PresentStays(Batch(st, ops, clock, i + 1).value.0, Batch(st, ops, clock, n).value.0, ops[i]);
  }

  lemma TransactIsBatch(st: Account, req: Request, clock: int -> int)
    requires Transact(st, req, clock).Ok?
    ensures Batch(st, req.operations, clock, |req.operations|).Ok?
    ensures Transact(st, req, clock).value.0 == Batch(st, req.operations, clock, |req.operations|).value.0
    ensures forall op :: op in req.operations ==> ValidOperation(op)
  {
  }

  /** No accepted edit is lost: from the moment an operation takes effect, anywhere in a batch, its candidate is in
      its record with its content, through the rest of the batch and any later events, until an operation on
      the then current revision resolves the record or a scan takes it for a seed. */
  lemma AcceptedEditIsKept(sys: System, req: Request, clock: int -> int, i: nat, later: seq<Event>)
    requires SystemOk(sys) && Transact(sys.account, req, clock).Ok?
    requires i < |req.operations| && TakesEffect(sys.account, req.operations, clock, i)
    requires !Resolves(sys.account, req.operations, clock, i + 1, |req.operations|, OperationKey(req.operations[i]))
    requires !RunResolves(Step(sys, Synced(req, clock)), later, OperationKey(req.operations[i]))
    requires !RunReseeds(Step(sys, Synced(req, clock)), later, OperationKey(req.operations[i]))
    ensures Present(Run(Step(sys, Synced(req, clock)), later).account, req.operations[i])
  {
    var after := Step(sys, Synced(req, clock));
    StepOk(sys, Synced(req, clock));
    TransactIsBatch(sys.account, req, clock);
    AcceptedInBatch(sys.account, req.operations, clock, i, |req.operations|);
    NoEditLostUntilReseeded(after, later, OperationKey(req.operations[i]));
    PresentStays(after.account, Run(after, later).account, req.operations[i]);
  }

  // ---- edits that no scan takes for a seed ----

  /** No seed of the run for this record is for a file that its candidates look seeded for. */
  ghost predicate NoSeedFits(events: seq<Event>, key: Key, candidates: seq<Candidate>) {
    forall e, seed :: e in events && e.Seeded? && seed in e.seeds && BookKey(seed.bookId) == key ==>
      !LooksSeeded(candidates, seed.title)
  }

  lemma {:induction false} NotReseeded(st: Account, seeds: seq<Seed>, n: nat, key: Key)
    requires n <= |seeds| && CandidatesOf(st, key) != []
    requires forall seed :: seed in seeds && BookKey(seed.bookId) == key ==>
               !LooksSeeded(CandidatesOf(st, key), seed.title)
    ensures !Reseeds(st, seeds, n, key)
  {
    if n > 0 {
      NotReseeded(st, seeds, n - 1, key);
      SeedManyElsewhere(st, seeds, n - 1, key);
      assert seeds[n - 1] in seeds;
    }
  }

  /** What a client wrote stays in front over any run of scans, upgrades and other requests that do not resolve it,
      as long as no scanned file of the book has a name that makes it look like a seed of that file. */
  lemma {:induction false} EditOutlivesScans(sys: System, events: seq<Event>, key: Key)
    requires SystemOk(sys) && ClientWritten(sys.account, key) && !RunResolves(sys, events, key)
    requires NoSeedFits(events, key, CandidatesOf(sys.account, key))
    ensures !RunReseeds(sys, events, key)
    ensures CandidatesOf(sys.account, key) <= CandidatesOf(Run(sys, events).account, key)
    ensures ClientWritten(Run(sys, events).account, key)
  {
    if events != [] {
      var front, event := events[..|events| - 1], events[|events| - 1];
      EditOutlivesScans(sys, front, key);
      if event.Seeded? {
        StillFitsNone(sys, front, event, key);
        NotReseeded(Run(sys, front).account, event.seeds, |event.seeds|, key);
      }
    }
    NoEditLostUntilReseeded(sys, events, key);
  }

  lemma StillFitsNone(sys: System, front: seq<Event>, event: Event, key: Key)
    requires event.Seeded? && ClientWritten(sys.account, key)
    requires NoSeedFits(front + [event], key, CandidatesOf(sys.account, key))
    requires CandidatesOf(sys.account, key) <= CandidatesOf(Run(sys, front).account, key)
    ensures forall seed :: seed in event.seeds && BookKey(seed.bookId) == key ==>
              !LooksSeeded(CandidatesOf(Run(sys, front).account, key), seed.title)
  {
    var was, now := CandidatesOf(sys.account, key), CandidatesOf(Run(sys, front).account, key);
    assert event in front + [event];
    if |now| == |was| {
      assert now == was;
    }
  }

  /** The candidate has no author member, or one that is not empty. */
  predicate Authored(c: Candidate) {
    Members(c.value).Some? ==> "author" in Members(c.value).value ==> Members(c.value).value["author"] != Str("")
  }

  /** So an edit that names an author, or leaves it out, is never taken for a seed. */
  lemma AuthoredEditIsKept(sys: System, events: seq<Event>, key: Key)
    requires SystemOk(sys) && ClientWritten(sys.account, key) && !RunResolves(sys, events, key)
    requires |CandidatesOf(sys.account, key)| == 1 ==> Authored(CandidatesOf(sys.account, key)[0])
    ensures CandidatesOf(sys.account, key) <= CandidatesOf(Run(sys, events).account, key)
  {
    EditOutlivesScans(sys, events, key);
  }

  /** Nor is one whose title is not the name of any scanned file of the book. */
  lemma RetitledEditIsKept(sys: System, events: seq<Event>, key: Key, title: string)
    requires SystemOk(sys) && ClientWritten(sys.account, key) && !RunResolves(sys, events, key)
    requires var cs := CandidatesOf(sys.account, key);
             |cs| == 1 ==>
               Members(cs[0].value).Some? && "title" in Members(cs[0].value).value
                   && Members(cs[0].value).value["title"] == Str(title)
    requires forall e, seed :: e in events && e.Seeded? && seed in e.seeds && BookKey(seed.bookId) == key ==>
               seed.title != title
    ensures CandidatesOf(sys.account, key) <= CandidatesOf(Run(sys, events).account, key)
  {
    EditOutlivesScans(sys, events, key);
  }

  // ---- edits that a scan takes for seeds ----

  /** A book edit that reads like a seed for a file of this name. */
  predicate LooksLikeSeed(op: Operation, title: string) {
    && |op.id| == SEED_ID_LENGTH && !op.deleted && op.value.Given? && op.value.value.Obj?
    && var sent := ToMap(op.value.value.fields);
       "title" in sent && sent["title"] == Str(title) && "author" in sent && sent["author"] == Str("")
  }

  /** The title and the author of a current book edit are stored as sent. */
  lemma StoredTitle(op: Operation, candidates: seq<Candidate>)
    requires ValidOperation(op) && op.kind == "book" && !op.deleted
    ensures var sent, stored := ToMap(op.value.value.fields), StoredValue(op, candidates, false);
            Members(stored).Some? &&
            forall k :: k in {"title", "author"} ==>
              (k in sent <==> k in Members(stored).value) && (k in sent ==> Members(stored).value[k] == sent[k])
  {
    StoredHolds(op, candidates, false);
  }

  lemma StoredLooksSeeded(op: Operation, candidates: seq<Candidate>, title: string, now: int)
    requires ValidOperation(op) && op.kind == "book"
    ensures LooksSeeded([Candidate(op.id, op.deleted, StoredValue(op, candidates, false), now)], title) <==>
              LooksLikeSeed(op, title)
  {
    if !op.deleted {
      StoredTitle(op, candidates);
    }
  }

  /** Seeding after an accepted edit of the book, a tombstone or a conflicting one included, replaces it exactly when it
      was current, has a 64-character identifier, the seeded title and an empty author, and the scan found a
      title or an author that make a different value. Otherwise nothing changes. */
  lemma ScanReplacesEditIff(st: Account, op: Operation, now: int, seed: Seed)
    requires Consistent(st) && ValidOperation(op) && OperationKey(op) == BookKey(seed.bookId)
    requires op.id !in st.operations && Apply(st, op, now).Ok?
    ensures var next, key := Apply(st, op, now).value.0, OperationKey(op);
            var replaced :=
              && op.baseRevision == RevisionOf(st, key) && LooksLikeSeed(op, seed.title)
              && (seed.metadata.title != "" || seed.metadata.author != "")
              && StoredValue(op, CandidatesOf(st, key), false) != SeedValue(seed);
            if replaced then
              CandidatesOf(SeedOne(next, seed), key) == [Candidate(seed.freshId, false, SeedValue(seed), seed.now)]
            else SeedOne(next, seed) == next
  {
    var key := OperationKey(op);
    RecordFacts(st, key);
    AcceptedIsStored(st, op, now);
    StoredLooksSeeded(op, CandidatesOf(st, key), seed.title, now);
  }

  const LETTERS := seq(64, _ => 'a')
  const SEED_LIKE := [Field("title", Str("T")), Field("author", Str(""))]
  const SEED_LIKE_EDIT := Operation(LETTERS, LETTERS, "book", "default", 0, false, Given(Obj(SEED_LIKE), 25))

  lemma SeedLikeText(name: string)
    ensures TextField(SEED_LIKE, name) == if name == "title" then "T" else ""
  {
    var fields := SEED_LIKE;
    assert Fold("title") == "title" && Fold("author") == "author";
    assert fields[..1][..0] == [];
    assert TextField(fields[..1], name) == if name == "title" then "T" else "";
  }

  lemma SeedLikeMap()
    ensures ToMap(SEED_LIKE) == map["title" := Str("T"), "author" := Str("")]
  {
    var fields := SEED_LIKE;
    assert fields[..1][..0] == [];
    assert ToMap(fields[..1]) == map["title" := Str("T")];
  }

  lemma SeedLikeBook()
    ensures ValidBookValue(Obj(SEED_LIKE))
  {
    SeedLikeMap();
    SeedLikeText("title");
    SeedLikeText("author");
    SeedLikeText("series");
    SeedLikeText("folder");
    SeedLikeText("format");
    assert Fold("title") == "title" && Fold("author") == "author";
    assert ByteLen("T") == 1 by {
      assert ByteLen("T"[1..]) == 0;
    }
  }

  lemma LettersAreIds(s: string)
    requires |s| == 64 && forall c :: c in s ==> c == 'a'
    ensures IsId(s) && IsBookId(s)
  {
    assert s[0] in s;
  }

  lemma SeedLikeValid()
    ensures ValidOperation(SEED_LIKE_EDIT)
  {
    SeedLikeBook();
    LettersAreIds(LETTERS);
    assert IsId("default");
  }

  /** Any edit that reads like a seed, on a book without a record, is accepted and replaced by another title. */
  lemma LookAlikeReplaced(op: Operation, now: int, seed: Seed)
    requires ValidOperation(op) && op.kind == "book" && op.bookId == seed.bookId && op.baseRevision == 0
    requires LooksLikeSeed(op, seed.title) && seed.metadata.title != "" && seed.metadata.title != seed.title
    ensures Apply(EMPTY, op, now).Ok? && Present(Apply(EMPTY, op, now).value.0, op)
    ensures CandidatesOf(SeedOne(Apply(EMPTY, op, now).value.0, seed), OperationKey(op)) ==
              [Candidate(seed.freshId, false, SeedValue(seed), seed.now)]
  {
    EmptyConsistent();
    RefusedIff(EMPTY, op, now);
    AcceptedIsPresent(EMPTY, op, now);
    OtherTitle(op, seed);
    ScanReplacesEditIff(EMPTY, op, now, seed);
  }

  lemma EmptyConsistent()
    ensures Consistent(EMPTY) && EMPTY.operations == map[] && EMPTY.records == map[]
  {
  }

  lemma SeedTitle(seed: Seed)
    requires seed.metadata.title != ""
    ensures Members(SeedValue(seed)).Some? && "title" in Members(SeedValue(seed)).value
    ensures Members(SeedValue(seed)).value["title"] == Str(seed.metadata.title)
  {
    assert SeedFields(seed)["title"] == Str(seed.metadata.title);
  }

  lemma OtherTitle(op: Operation, seed: Seed)
    requires ValidOperation(op) && op.kind == "book" && LooksLikeSeed(op, seed.title)
    requires seed.metadata.title != "" && seed.metadata.title != seed.title
    ensures StoredValue(op, [], false) != SeedValue(seed)
  {
    StoredTitle(op, []);
    SeedTitle(seed);
  }

  lemma SeedLikeLooks()
    ensures LooksLikeSeed(SEED_LIKE_EDIT, "T")
  {
    SeedLikeMap();
  }

  lemma OneOperation(sys: System, op: Operation, clock: int -> int)
    requires sys.account.cursor >= 0 && ValidOperation(op) && Apply(sys.account, op, clock(0)).Ok?
    ensures Step(sys, Synced(Request(0, [op]), clock)) == sys.(account := Apply(sys.account, op, clock(0)).value.0)
  {
    var ops := [op];
    assert ops[0] == op;
    assert Batch(sys.account, ops, clock, 0) == Ok((sys.account, []));
    assert Batch(sys.account, ops, clock, 1).Ok?;
    assert Batch(sys.account, ops, clock, 1).value.0 == Apply(sys.account, op, clock(0)).value.0;
  }

  lemma OneSeed(sys: System, seed: Seed)
    ensures Step(sys, Seeded([seed])) == sys.(account := SeedOne(sys.account, seed))
  {
    assert SeedMany(sys.account, [seed], 0) == sys.account;
  }

  /** Any such edit, as the first request of an account, and then the seed of a scan. */
  lemma EditThenScan(op: Operation, clock: int -> int, seed: Seed)
    requires ValidOperation(op) && op.kind == "book" && op.bookId == seed.bookId && op.baseRevision == 0
    requires LooksLikeSeed(op, seed.title) && seed.metadata.title != "" && seed.metadata.title != seed.title
    requires seed.freshId != op.id
    ensures var sent := Step(System(EMPTY, []), Synced(Request(0, [op]), clock));
            Present(sent.account, op) && !Present(Step(sent, Seeded([seed])).account, op)
  {
    LookAlikeReplaced(op, clock(0), seed);
    OneOperation(System(EMPTY, []), op, clock);
    OneSeed(Step(System(EMPTY, []), Synced(Request(0, [op]), clock)), seed);
  }

  /** A run in which that happens: the edit of a client is accepted for a book that has no record yet, and a scan of a
      file named `T` that holds another title replaces it. */
  lemma ScanReplacesEdit(clock: int -> int, seed: Seed)
    requires seed.bookId == LETTERS && seed.title == "T" && seed.freshId != LETTERS
    requires seed.metadata.title != "" && seed.metadata.title != "T"
    ensures ValidOperation(SEED_LIKE_EDIT)
    ensures var sent := Step(System(EMPTY, []), Synced(Request(0, [SEED_LIKE_EDIT]), clock));
            Present(sent.account, SEED_LIKE_EDIT) && !Present(Step(sent, Seeded([seed])).account, SEED_LIKE_EDIT)
  {
    SeedLikeValid();
    SeedLikeLooks();
    EditThenScan(SEED_LIKE_EDIT, clock, seed);
  }
}
