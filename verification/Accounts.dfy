/** The reading data of one account: record table, numbered change log, replay table and cursor,
    and the one write all three writers of the log make. */
module Accounts {
  import opened Text
  import opened Json
  import Operations

  datatype Key = Key(bookId: string, kind: string, recordId: string)

  /** How a candidate's value is stored: nothing (a tombstone's null), the client's own text, or
      the text of a map the server marshalled, which the map determines. */
  datatype Stored = Nothing | Raw(value: Value) | Marshalled(members: map<string, Value>)

  datatype Candidate = Candidate(operationId: string, deleted: bool, value: Stored, createdAt: int)

  datatype Row = Row(revision: int, candidates: seq<Candidate>)

  datatype Change = Change(key: Key, row: Row)

  datatype OperationResult = OperationResult(id: string, revision: int, conflict: bool)

  datatype Applied = Applied(digest: Operations.Operation, result: OperationResult)

  datatype Account = Account(
    records: map<Key, Row>, changes: map<int, Change>, operations: map<string, Applied>, cursor: int)

  const EMPTY := Account(map[], map[], map[], 0)

  /** `json.Unmarshal(value, &m)` into a map; None when the text is not an object. */
  function Members(value: Stored): Option<map<string, Value>> {
    match value
    case Nothing => None
    case Raw(v) => if v.Obj? then Some(ToMap(v.fields)) else None
    case Marshalled(m) => Some(m)
  }

  function BookKey(bookId: string): Key {
    Key(bookId, "book", "default")
  }

  function RevisionOf(st: Account, key: Key): int {
    if key in st.records then st.records[key].revision else 0
  }

  function CandidatesOf(st: Account, key: Key): seq<Candidate> {
    if key in st.records then st.records[key].candidates else []
  }

  /** The only candidate of a record, when there is exactly one and it is not a tombstone. */
  predicate Settled(candidates: seq<Candidate>) {
    |candidates| == 1 && !candidates[0].deleted
  }

  /** Upsert the record, advance the cursor and log the change. */
  function Append(st: Account, key: Key, row: Row): Account {
    st.(records := st.records[key := row],
        changes := st.changes[st.cursor + 1 := Change(key, row)],
        cursor := st.cursor + 1)
  }

  // ---- the log ----

  ghost predicate Covers(changes: map<int, Change>, n: int) {
    forall i :: 1 <= i <= n ==> i in changes
  }

  /** What a client holds after applying changes 1 to `n`: the last change of each key. */
  ghost function Replay(changes: map<int, Change>, n: nat): map<Key, Row>
    requires Covers(changes, n)
  {
    if n == 0 then map[] else Replay(changes, n - 1)[changes[n].key := changes[n].row]
  }

  ghost function ChangeCount(changes: map<int, Change>, n: nat, key: Key): nat
    requires Covers(changes, n)
  {
    if n == 0 then 0 else ChangeCount(changes, n - 1, key) + (if changes[n].key == key then 1 else 0)
  }

  predicate ValidKey(key: Key) {
    key.kind == "annotation" || key.recordId == "default"
  }

  /** The change cursors are exactly 1 to `cursor`, replaying the log gives the record table, and
      a change carries as its revision the number of changes to its record so far. */
  ghost predicate Consistent(st: Account) {
    && st.cursor >= 0
    && (forall i :: i in st.changes <==> 1 <= i <= st.cursor)
    && st.records == Replay(st.changes, st.cursor)
    && (forall i :: 1 <= i <= st.cursor ==>
          && st.changes[i].row.revision == ChangeCount(st.changes, i, st.changes[i].key)
          && 1 <= |st.changes[i].row.candidates| <= 16
          && ValidKey(st.changes[i].key))
  }

  lemma {:induction false} ReplayFrame(a: map<int, Change>, b: map<int, Change>, n: nat)
    requires Covers(a, n) && Covers(b, n)
    requires forall i :: 1 <= i <= n ==> a[i] == b[i]
    ensures Replay(a, n) == Replay(b, n)
    ensures forall key :: ChangeCount(a, n, key) == ChangeCount(b, n, key)
  {
    if n > 0 {
      ReplayFrame(a, b, n - 1);
    }
  }

  lemma {:induction false} CountMonotone(changes: map<int, Change>, m: nat, n: nat, key: Key)
    requires m <= n && Covers(changes, n)
    ensures ChangeCount(changes, m, key) <= ChangeCount(changes, n, key)
    ensures m < n && changes[n].key == key ==> ChangeCount(changes, m, key) < ChangeCount(changes, n, key)
    decreases n
  {
    if m < n {
      CountMonotone(changes, m, n - 1, key);
    }
  }

  /** A record of the table is the row of the last change to its key. */
  lemma {:induction false} LastChange(changes: map<int, Change>, n: nat, key: Key) returns (at: nat)
    requires Covers(changes, n) && key in Replay(changes, n)
    ensures 1 <= at <= n && changes[at] == Change(key, Replay(changes, n)[key])
    ensures ChangeCount(changes, at, key) == ChangeCount(changes, n, key)
  {
    if changes[n].key == key {
      at := n;
    } else {
      at := LastChange(changes, n - 1, key);
    }
  }

  lemma {:induction false} AbsentMeansNoChange(changes: map<int, Change>, n: nat, key: Key)
    requires Covers(changes, n)
    ensures key !in Replay(changes, n) <==> ChangeCount(changes, n, key) == 0
  {
    if n > 0 {
      AbsentMeansNoChange(changes, n - 1, key);
    }
  }

  /** A record's revision is its number of changes, it has 1 to 16 candidates, and a record
      of another kind than annotation is the default one. */
  lemma RecordFacts(st: Account, key: Key)
    requires Consistent(st)
    ensures RevisionOf(st, key) == ChangeCount(st.changes, st.cursor, key)
    ensures key in st.records ==>
              st.records[key].revision >= 1 && 1 <= |st.records[key].candidates| <= 16 && ValidKey(key)
  {
    AbsentMeansNoChange(st.changes, st.cursor, key);
    if key in st.records {
      var at := LastChange(st.changes, st.cursor, key);
    }
  }

  /** Two changes of one record with equal revisions are the same change. */
  lemma RevisionNamesChange(st: Account, i: int, j: int)
    requires Consistent(st) && 1 <= i <= j <= st.cursor
    requires st.changes[i].key == st.changes[j].key && st.changes[i].row.revision == st.changes[j].row.revision
    ensures i == j
  {
    if i < j {
      CountMonotone(st.changes, i, j, st.changes[j].key);
    }
  }

  lemma AppendCounts(st: Account, key: Key, row: Row)
    requires Consistent(st) && ValidKey(key)
    requires row.revision == RevisionOf(st, key) + 1 && 1 <= |row.candidates| <= 16
    ensures var next := Append(st, key, row);
            && (forall i :: i in next.changes <==> 1 <= i <= next.cursor)
            && forall i :: 1 <= i <= next.cursor ==>
                 next.changes[i].row.revision == ChangeCount(next.changes, i, next.changes[i].key)
  {
    var next := Append(st, key, row);
    RecordFacts(st, key);
    forall i | 1 <= i <= next.cursor
      ensures next.changes[i].row.revision == ChangeCount(next.changes, i, next.changes[i].key)
    {
      ReplayFrame(st.changes, next.changes, if i <= st.cursor then i else st.cursor);
    }
  }

  /** Every writer that bumps the revision by one keeps the account consistent. */
  lemma AppendConsistent(st: Account, key: Key, row: Row)
    requires Consistent(st) && ValidKey(key)
    requires row.revision == RevisionOf(st, key) + 1 && 1 <= |row.candidates| <= 16
    ensures Consistent(Append(st, key, row))
    ensures Extends(st, Append(st, key, row))
  {
    AppendCounts(st, key, row);
    ReplayFrame(st.changes, Append(st, key, row).changes, st.cursor);
  }

  // ---- later states ----

  /** `later` can follow `st`: the log and the replay table only grew. */
  ghost predicate Extends(st: Account, later: Account) {
    && st.cursor <= later.cursor
    && (forall i :: i in st.changes ==> i in later.changes && later.changes[i] == st.changes[i])
    && (forall id :: id in st.operations ==> id in later.operations && later.operations[id] == st.operations[id])
  }

  lemma ExtendsTransitive(a: Account, b: Account, c: Account)
    requires Extends(a, b) && Extends(b, c)
    ensures Extends(a, c)
  {
    forall i | i in a.changes ensures i in c.changes && c.changes[i] == a.changes[i] {
      assert i in b.changes;
    }
    forall id | id in a.operations ensures id in c.operations && c.operations[id] == a.operations[id] {
      assert id in b.operations;
    }
  }

  /** A prefix of the log replays the same in every later state. */
  lemma ExtendsReplay(st: Account, later: Account, n: nat)
    requires Consistent(st) && Consistent(later) && Extends(st, later) && n <= st.cursor
    ensures Replay(st.changes, n) == Replay(later.changes, n)
  {
    ReplayFrame(st.changes, later.changes, n);
  }

  /** Revisions only grow, and an unchanged revision means an unchanged record. */
  lemma SameRevisionSameRecord(st: Account, later: Account, key: Key)
    requires Consistent(st) && Consistent(later) && Extends(st, later)
    ensures RevisionOf(st, key) <= RevisionOf(later, key)
    ensures RevisionOf(st, key) == RevisionOf(later, key) ==> CandidatesOf(st, key) == CandidatesOf(later, key)
  {
    RecordFacts(st, key);
    RecordFacts(later, key);
    ReplayFrame(st.changes, later.changes, st.cursor);
    CountMonotone(later.changes, st.cursor, later.cursor, key);
    if key in st.records && RevisionOf(st, key) == RevisionOf(later, key) {
      var i := LastChange(st.changes, st.cursor, key);
      var j := LastChange(later.changes, later.cursor, key);
      assert later.changes[i] == st.changes[i];
      if i <= j {
        RevisionNamesChange(later, i, j);
      } else {
        RevisionNamesChange(later, j, i);
      }
    }
  }
}
