/** A client that pulls pages of the change log: what it holds at every moment, and when it is done. */
module Convergence {
  import opened Text
  import Operations
  import opened Accounts
  import opened Sync
  import opened SyncRuns

  /** The cursor a client stored and the records it applied up to it. */
  datatype Client = Client(cursor: int, table: map<Key, Row>)

  /** Apply the changes of a page in order. */
  function ApplyPage(table: map<Key, Row>, page: seq<Numbered>): map<Key, Row> {
    if page == [] then table
    else
      var last := page[|page| - 1].change;
      ApplyPage(table, page[..|page| - 1])[last.key := last.row]
  }

  function Receive(client: Client, response: Response): Client {
    Client(response.cursor, ApplyPage(client.table, response.changes))
  }

  /** In a gapless log a page is the next changes, one by one. */
  lemma {:induction false} PageIsNextChanges(st: Account, after: int, limit: nat)
    requires Consistent(st) && 0 <= after <= st.cursor
    ensures |Page(st.changes, after, limit)| == Min(limit, st.cursor - after)
    ensures forall i :: 0 <= i < |Page(st.changes, after, limit)| ==>
              Page(st.changes, after, limit)[i] == Numbered(after + 1 + i, st.changes[after + 1 + i])
    decreases limit
  {
    if limit > 0 && after < st.cursor {
      assert after + 1 in st.changes;
      var k := Following(st.changes, after);
      assert k == after + 1;
      PageIsNextChanges(st, k, limit - 1);
    } else if limit > 0 {
      assert !exists i :: i in st.changes && i > after;
    }
  }

  lemma {:induction false} ApplyNextChanges(st: Account, from: nat, page: seq<Numbered>)
    requires Consistent(st) && from + |page| <= st.cursor
    requires forall i :: 0 <= i < |page| ==> page[i] == Numbered(from + 1 + i, st.changes[from + 1 + i])
    ensures ApplyPage(Replay(st.changes, from), page) == Replay(st.changes, from + |page|)
    decreases |page|
  {
    if page != [] {
      ApplyNextChanges(st, from, page[..|page| - 1]);
    }
  }

  /** A page takes a client from the replay of one prefix to the replay of a longer one. */
  lemma PageAdvances(st: Account, from: nat, limit: nat)
    requires Consistent(st) && from <= st.cursor
    ensures var page := Page(st.changes, from, limit);
            && LastCursor(page, from) == Min(from + limit, st.cursor)
            && ApplyPage(Replay(st.changes, from), page) == Replay(st.changes, LastCursor(page, from))
  {
    PageIsNextChanges(st, from, limit);
    ApplyNextChanges(st, from, Page(st.changes, from, limit));
  }

  /** The client holds the replay of a prefix of the log. */
  ghost predicate InStep(client: Client, st: Account) {
    0 <= client.cursor <= st.cursor && Covers(st.changes, client.cursor) &&
    client.table == Replay(st.changes, client.cursor)
  }

  /** A pull, whatever operations it carries, takes the client to a later prefix; when the answer says
      there is no more, that is the record table as the transaction left it. */
  lemma PullKeepsStep(st: Account, client: Client, operations: seq<Operations.Operation>, clock: int -> int)
    requires Consistent(st) && InStep(client, st)
    requires Transact(st, Request(client.cursor, operations), clock).Ok?
    ensures var done := Transact(st, Request(client.cursor, operations), clock).value;
            var next := Receive(client, done.1);
            && InStep(next, done.0)
            && next.cursor == Min(client.cursor + PAGE_SIZE, done.0.cursor)
            && (done.1.hasMore <==> next.cursor < done.0.cursor)
            && (!done.1.hasMore ==> next.table == done.0.records)
  {
    var req := Request(client.cursor, operations);
    var done := Transact(st, req, clock).value;
    ValidRequestWellKeyed(req);
    BatchConsistent(st, operations, clock, |operations|);
    ExtendsReplay(st, done.0, client.cursor);
    PageAdvances(done.0, client.cursor, PAGE_SIZE);
  }

  /** The client's own request, or anything another device or the server does. */
  datatype Happening = Pull(operations: seq<Operations.Operation>, clock: int -> int) | Other(event: Event)

  datatype World = World(sys: System, client: Client)

  /** A refused request changes neither side. */
  function Happen(w: World, h: Happening): World {
    match h
    case Other(event) => w.(sys := Step(w.sys, event))
    case Pull(operations, clock) =>
      var req := Request(w.client.cursor, operations);
      var out := Transact(w.sys.account, req, clock);
      if out.Err? then w
      else World(Step(w.sys, Synced(req, clock)), Receive(w.client, out.value.1))
  }

  function History(w: World, hs: seq<Happening>): World {
    if hs == [] then w else Happen(History(w, hs[..|hs| - 1]), hs[|hs| - 1])
  }

  /** One happening keeps the client on a log prefix. */
  lemma HappenKeepsStep(w: World, h: Happening)
    requires SystemOk(w.sys) && InStep(w.client, w.sys.account)
    ensures SystemOk(Happen(w, h).sys) && InStep(Happen(w, h).client, Happen(w, h).sys.account)
  {
    match h {
      case Other(event) =>
        StepOk(w.sys, event);
        ExtendsReplay(w.sys.account, Step(w.sys, event).account, w.client.cursor);
      case Pull(operations, clock) =>
        var req := Request(w.client.cursor, operations);
        if Transact(w.sys.account, req, clock).Ok? {
          StepOk(w.sys, Synced(req, clock));
          PullKeepsStep(w.sys.account, w.client, operations, clock);
        }
    }
  }

  /** Whatever other devices write in between, a pulling client always holds the replay of a log prefix. */
  lemma {:induction false} ClientAlwaysInStep(w: World, hs: seq<Happening>)
    requires SystemOk(w.sys) && InStep(w.client, w.sys.account)
    ensures SystemOk(History(w, hs).sys) && InStep(History(w, hs).client, History(w, hs).sys.account)
  {
    if hs != [] {
      ClientAlwaysInStep(w, hs[..|hs| - 1]);
      HappenKeepsStep(History(w, hs[..|hs| - 1]), hs[|hs| - 1]);
    }
  }

  /** One pull without operations. */
  function PullOnce(st: Account, client: Client, clock: int -> int): Client {
    var out := Transact(st, Request(client.cursor, []), clock);
    if out.Ok? then Receive(client, out.value.1) else client
  }

  /** The client after `n` pulls. */
  function Pulls(pull: Client -> Client, client: Client, n: nat): Client {
    if n == 0 then client else pull(Pulls(pull, client, n - 1))
  }

  /** A pull without operations is not refused, and moves the client a page on. */
  lemma QuietPull(st: Account, client: Client, clock: int -> int)
    requires Consistent(st) && InStep(client, st)
    ensures Transact(st, Request(client.cursor, []), clock).Ok?
    ensures InStep(PullOnce(st, client, clock), st)
    ensures PullOnce(st, client, clock).cursor == Min(client.cursor + PAGE_SIZE, st.cursor)
  {
    PullKeepsStep(st, client, [], clock);
  }

  ghost predicate Advances(st: Account, pull: Client -> Client, size: nat, client: Client) {
    InStep(client, st) ==> InStep(pull(client), st) && pull(client).cursor == Min(client.cursor + size, st.cursor)
  }

  lemma {:induction false} PullsAdvance(st: Account, pull: Client -> Client, client: Client, size: nat, n: nat)
    requires InStep(client, st) && forall c :: Advances(st, pull, size, c)
    ensures InStep(Pulls(pull, client, n), st)
    ensures Pulls(pull, client, n).cursor == Min(client.cursor + size * n, st.cursor)
  {
    if n > 0 {
      PullsAdvance(st, pull, client, size, n - 1);
      assert Advances(st, pull, size, Pulls(pull, client, n - 1));
      assert size * n == size * (n - 1) + size;
    }
  }

  /** Without new writes every pull moves a full page on: after ceil(remaining / 100) pulls the client
      holds the record table. */
  lemma QuietPullsConverge(st: Account, client: Client, clock: int -> int, n: nat)
    requires Consistent(st) && InStep(client, st)
    ensures var last := Pulls(c => PullOnce(st, c, clock), client, n);
            && InStep(last, st) && last.cursor == Min(client.cursor + PAGE_SIZE * n, st.cursor)
            && (PAGE_SIZE * n >= st.cursor - client.cursor ==> last.table == st.records)
  {
    var pull := (c: Client) => PullOnce(st, c, clock);
    forall c ensures Advances(st, pull, PAGE_SIZE, c) {
      if InStep(c, st) {
        QuietPull(st, c, clock);
      }
    }
    PullsAdvance(st, pull, client, PAGE_SIZE, n);
  }
}
