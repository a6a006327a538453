/** Remote catalog sources (internal/server/opds_sources.go, internal/server/opds_proxy.go): a table with
    compare-and-swap on revisions, replay of operations, and secrets that stay with an origin. */
module Catalog {
  import opened Text
  import F = Folders

  datatype Credentials = Credentials(username: string, password: string)

  datatype Write = Write(
    name: string, url: string, base: int, operation: string, deleted: bool, credentials: Option<Credentials>)

  datatype Source = Source(name: string, url: string, revision: nat, deleted: bool, secret: Option<Credentials>)

  /** What the server answers; never the secret. */
  datatype View = View(id: string, name: string, url: string, revision: nat, deleted: bool)

  /** A stored operation; the digest of the request stands for the request. */
  datatype Operation = Operation(id: string, write: Write, result: View)

  datatype State = State(sources: map<string, Source>, operations: map<string, Operation>)

  datatype Error = Invalid | Conflict

  type Outcome = Result<View, Error>

  /** A parsed address that `catalogURL` accepts, as far as its origin needs it. */
  datatype Url = Url(scheme: string, host: string, port: string)

  type Parser = string -> Option<Url>

  const MAX_SOURCES := 500
  const MAX_BASE := 9007199254740991

  // ---- addresses and checks ----

  /** The scheme, host and port, with the port of the scheme when none is stated. */
  function Origin(u: Url): Url {
    Url(Lower(u.scheme), Lower(u.host), if u.port != "" then u.port else if u.scheme == "https" then "443" else "80")
  }

  function OriginOf(url: string, parse: Parser): Option<Url> {
    if ByteLen(url) <= 4096 && parse(url).Some? then Some(Origin(parse(url).value)) else None
  }

  function Trim(s: string): string {
    if s == "" then ""
    else if F.IsSpace(s[0]) then Trim(s[1..])
    else if F.IsSpace(s[|s| - 1]) then Trim(s[..|s| - 1])
    else s
  }

  predicate Plain(s: string, forbidden: set<char>) {
    forall c :: c in s ==> c !in forbidden
  }

  predicate WriteOk(id: string, w: Write, parse: Parser) {
    && 1 <= ByteLen(id) <= 128 && Plain(id, {'/', '\\', '\0'})
    && 1 <= ByteLen(Trim(w.name)) <= 200 && 1 <= ByteLen(w.operation) <= 128 && 0 <= w.base < MAX_BASE
    && OriginOf(w.url, parse).Some?
    && (w.credentials.Some? ==>
          && ByteLen(w.credentials.value.username) <= 512 && ByteLen(w.credentials.value.password) <= 4096
          && Plain(w.credentials.value.username, {':', '\r', '\n'}))
  }

  function Revision(s: State, id: string): nat {
    if id in s.sources then s.sources[id].revision else 0
  }

  /** Whether a live write without credentials keeps the origin of the stored address. */
  predicate SameOrigin(s: State, id: string, w: Write, parse: Parser) {
    id in s.sources && OriginOf(s.sources[id].url, parse).Some? &&
    OriginOf(s.sources[id].url, parse) == OriginOf(w.url, parse)
  }

  function SecretAfter(s: State, id: string, w: Write, parse: Parser): Option<Credentials> {
    if w.deleted then None
    else
      match w.credentials
      case Some(c) => if c.username != "" || c.password != "" then Some(c) else None
      case None => if SameOrigin(s, id, w, parse) then s.sources[id].secret else None
  }

  datatype Performed = Performed(state: State, outcome: Outcome)

  predicate Accepts(s: State, id: string, w: Write, parse: Parser) {
    && WriteOk(id, w, parse) && w.operation !in s.operations && Revision(s, id) == w.base
    && (w.base == 0 ==> |s.sources| < MAX_SOURCES)
  }

  function ViewOf(id: string, w: Write): View
    requires w.base >= 0
  {
    View(id, Trim(w.name), w.url, w.base + 1, w.deleted)
  }

  function Perform(s: State, id: string, w: Write, parse: Parser): Performed {
    if Accepts(s, id, w, parse) then
      var view := ViewOf(id, w);
      Performed(State(s.sources[id := Source(view.name, w.url, view.revision, w.deleted, SecretAfter(s, id, w, parse))],
                      s.operations[w.operation := Operation(id, w, view)]),
                Ok(view))
    else if WriteOk(id, w, parse) && w.operation in s.operations
            && s.operations[w.operation].id == id && s.operations[w.operation].write == w then
      Performed(s, Ok(s.operations[w.operation].result))
    else Performed(s, Err(if WriteOk(id, w, parse) then Conflict else Invalid))
  }

  class CatalogStore {
    var sources: map<string, Source>
    var operations: map<string, Operation>

    constructor ()
      ensures Contents() == State(map[], map[])
    {
      sources, operations := map[], map[];
    }

    function Contents(): State
      reads this
    {
      State(sources, operations)
    }

    /** `writeCatalogSource`. */
    method Write(id: string, w: Write, parse: Parser) returns (out: Outcome)
      modifies this
      ensures Performed(Contents(), out) == Perform(old(Contents()), id, w, parse)
    {
      var ok := CheckWrite(id, w, parse);
      if !ok {
        return Err(Invalid);
      }
      var encrypted: Option<Credentials> := None;
      if w.credentials.Some? && !w.deleted &&
         (w.credentials.value.username != "" || w.credentials.value.password != "") {
        encrypted := w.credentials;
      }
      if w.operation in operations {
        var known := operations[w.operation];
        if known.id != id || known.write != w {
          return Err(Conflict);
        }
        return Ok(known.result);
      }
      var revision, oldUrl, oldSecret := 0, "", None;
      if id in sources {
        revision, oldUrl, oldSecret := sources[id].revision, sources[id].url, sources[id].secret;
      }
      if revision != w.base {
        return Err(Conflict);
      }
      if revision == 0 && |sources| >= MAX_SOURCES {
        return Err(Conflict);
      }
      if w.credentials.None? && !w.deleted && id in sources {
        if OriginOf(oldUrl, parse).Some? && OriginOf(oldUrl, parse) == OriginOf(w.url, parse) {
          encrypted := oldSecret;
        }
      }
      var view := View(id, Trim(w.name), w.url, revision + 1, w.deleted);
      sources := sources[id := Source(view.name, w.url, view.revision, w.deleted, encrypted)];
      operations := operations[w.operation := Operation(id, w, view)];
      return Ok(view);
    }
  }

  method CheckWrite(id: string, w: Write, parse: Parser) returns (ok: bool)
    ensures ok <==> WriteOk(id, w, parse)
  {
    var name := Trim(w.name);
    if ByteLen(id) == 0 || ByteLen(id) > 128 || !Plain(id, {'/', '\\', '\0'}) || ByteLen(name) == 0
        || ByteLen(name) > 200
       || ByteLen(w.operation) == 0 || ByteLen(w.operation) > 128 || w.base < 0 || w.base >= MAX_BASE {
      return false;
    }
    if OriginOf(w.url, parse).None? {
      return false;
    }
    if w.credentials.Some? {
      var c := w.credentials.value;
      return ByteLen(c.username) <= 512 && ByteLen(c.password) <= 4096 && Plain(c.username, {':', '\r', '\n'});
    }
    return true;
  }

  // ---- runs ----

  datatype Request = Request(id: string, write: Write)

  /** The state after some requests, and the accepted ones among them in order. */
  datatype History = History(state: State, accepted: seq<Request>)

  function Run(requests: seq<Request>, parse: Parser): History {
    if requests == [] then History(State(map[], map[]), [])
    else
      var before, r := Run(requests[..|requests| - 1], parse), requests[|requests| - 1];
      History(Perform(before.state, r.id, r.write, parse).state,
              if Accepts(before.state, r.id, r.write, parse) then before.accepted + [r] else before.accepted)
  }

  function Writes(accepted: seq<Request>, id: string): nat {
    if accepted == [] then 0
    else Writes(accepted[..|accepted| - 1], id) + if accepted[|accepted| - 1].id == id then 1 else 0
  }

  /** Request `i` supplied the secret, and since then every write to the source was live, said nothing
      about credentials and kept the origin. */
  ghost predicate SuppliedAt(accepted: seq<Request>, i: nat, id: string, source: Source, parse: Parser) {
    && i < |accepted| && accepted[i].id == id && source.secret.Some?
    && accepted[i].write.credentials == source.secret
    && OriginOf(source.url, parse).Some?
    && forall j :: i <= j < |accepted| && accepted[j].id == id ==>
         && !accepted[j].write.deleted && OriginOf(accepted[j].write.url, parse) == OriginOf(source.url, parse)
         && (j > i ==> accepted[j].write.credentials.None?)
  }

  ghost predicate SecretOk(accepted: seq<Request>, id: string, source: Source, parse: Parser) {
    source.secret.Some? ==> exists i: nat :: SuppliedAt(accepted, i, id, source, parse)
  }

  ghost predicate SourcesOk(h: History, parse: Parser) {
    && |h.state.sources| <= MAX_SOURCES
    && (forall id: string :: Revision(h.state, id) == Writes(h.accepted, id))
    && (forall id :: id in h.state.sources ==>
          Revision(h.state, id) >= 1 && SecretOk(h.accepted, id, h.state.sources[id], parse))
  }

  ghost predicate AllStored(operations: map<string, Operation>, accepted: seq<Request>) {
    forall op :: op in operations <==> exists r :: r in accepted && r.write.operation == op
  }

  predicate OperationsDistinct(accepted: seq<Request>) {
    forall i, j :: 0 <= i < j < |accepted| ==> accepted[i].write.operation != accepted[j].write.operation
  }

  predicate Answered(operations: map<string, Operation>, r: Request) {
    && r.write.operation in operations && r.write.base >= 0
    && operations[r.write.operation] == Operation(r.id, r.write, ViewOf(r.id, r.write))
  }

  predicate AllAnswered(operations: map<string, Operation>, accepted: seq<Request>) {
    forall r :: r in accepted ==> Answered(operations, r)
  }

  ghost predicate OperationsOk(h: History) {
    AllStored(h.state.operations, h.accepted) && OperationsDistinct(h.accepted)
        && AllAnswered(h.state.operations, h.accepted)
  }

  lemma SecretStaysElsewhere(accepted: seq<Request>, r: Request, id: string, source: Source, parse: Parser)
    requires SecretOk(accepted, id, source, parse) && r.id != id
    ensures SecretOk(accepted + [r], id, source, parse)
  {
    if source.secret.Some? {
      var i: nat :| SuppliedAt(accepted, i, id, source, parse);
      assert SuppliedAt(accepted + [r], i, id, source, parse);
    }
  }

  /** The heart of the provenance: what an accepted write leaves as the secret of its source. */
  lemma SecretAfterWrite(h: History, r: Request, parse: Parser)
    requires SourcesOk(h, parse) && Accepts(h.state, r.id, r.write, parse)
    ensures SecretOk(h.accepted + [r], r.id, Perform(h.state, r.id, r.write, parse).state.sources[r.id], parse)
  {
    var all := h.accepted + [r];
    var source := Perform(h.state, r.id, r.write, parse).state.sources[r.id];
    if source.secret.Some? {
      if r.write.credentials.Some? {
        assert all[|h.accepted|] == r;
        assert SuppliedAt(all, |h.accepted|, r.id, source, parse);
      } else {
        var previous := h.state.sources[r.id];
        assert SecretOk(h.accepted, r.id, previous, parse);
        var i: nat :| SuppliedAt(h.accepted, i, r.id, previous, parse);
        assert SuppliedAt(all, i, r.id, source, parse);
      }
    }
  }

  lemma SourcesStep(h: History, r: Request, parse: Parser)
    requires SourcesOk(h, parse) && Accepts(h.state, r.id, r.write, parse)
    ensures SourcesOk(History(Perform(h.state, r.id, r.write, parse).state, h.accepted + [r]), parse)
  {
    var after := Perform(h.state, r.id, r.write, parse).state;
    var all := h.accepted + [r];
    assert all[..|h.accepted|] == h.accepted;
    assert after.sources.Keys == h.state.sources.Keys + {r.id};
    assert |after.sources.Keys| == |after.sources| && |h.state.sources.Keys| == |h.state.sources|;
    assert r.write.base != 0 ==> r.id in h.state.sources.Keys;
    forall id: string ensures Revision(after, id) == Writes(all, id) {
      assert Revision(h.state, id) == Writes(h.accepted, id);
    }
    SecretAfterWrite(h, r, parse);
    forall id | id in after.sources ensures Revision(after, id) >= 1 && SecretOk(all, id, after.sources[id], parse) {
      if id != r.id {
        SecretStaysElsewhere(h.accepted, r, id, after.sources[id], parse);
      }
    }
  }

  lemma StoredStep(before: map<string, Operation>, after: map<string, Operation>, accepted: seq<Request>, r: Request)
    requires AllStored(before, accepted) && after.Keys == before.Keys + {r.write.operation}
    ensures AllStored(after, accepted + [r])
  {
    var all := accepted + [r];
    assert r in all;
    forall op ensures op in after <==> exists x :: x in all && x.write.operation == op {
      if op in before {
        var x :| x in accepted && x.write.operation == op;
        assert x in all;
      }
    }
  }

  lemma DistinctStep(operations: map<string, Operation>, accepted: seq<Request>, r: Request)
    requires AllStored(operations, accepted) && OperationsDistinct(accepted) && r.write.operation !in operations
    ensures OperationsDistinct(accepted + [r])
  {
    forall i | 0 <= i < |accepted| ensures accepted[i].write.operation != r.write.operation {
      assert accepted[i] in accepted;
    }
  }

  lemma AnsweredStep(before: map<string, Operation>, after: map<string, Operation>, accepted: seq<Request>, r: Request)
    requires AllAnswered(before, accepted) && r.write.operation !in before && Answered(after, r)
    requires forall op :: op in before ==> op in after && after[op] == before[op]
    ensures AllAnswered(after, accepted + [r])
  {
    forall x | x in accepted + [r] ensures Answered(after, x) {
      if x in accepted {
        assert Answered(before, x);
      }
    }
  }

  lemma OperationsStep(h: History, r: Request, parse: Parser)
    requires OperationsOk(h) && Accepts(h.state, r.id, r.write, parse)
    ensures OperationsOk(History(Perform(h.state, r.id, r.write, parse).state, h.accepted + [r]))
  {
    var before, after := h.state.operations, Perform(h.state, r.id, r.write, parse).state.operations;
    assert after == before[r.write.operation := Operation(r.id, r.write, ViewOf(r.id, r.write))];
    StoredStep(before, after, h.accepted, r);
    DistinctStep(before, h.accepted, r);
    AnsweredStep(before, after, h.accepted, r);
  }

  /** In every run: revisions count the accepted writes of their source, there are at most 500 sources,
      tombstones included, every secret was supplied by an earlier write and has not left its origin since,
      and every accepted operation is stored once with its result. */
  lemma {:induction false} RunOk(requests: seq<Request>, parse: Parser)
    ensures SourcesOk(Run(requests, parse), parse) && OperationsOk(Run(requests, parse))
  {
    if requests != [] {
      RunOk(requests[..|requests| - 1], parse);
      var before, r := Run(requests[..|requests| - 1], parse), requests[|requests| - 1];
      if Accepts(before.state, r.id, r.write, parse) {
        SourcesStep(before, r, parse);
        OperationsStep(before, r, parse);
      }
    }
  }

  /** A refused write, and a replayed one, change nothing. */
  lemma RefusedChangesNothing(s: State, id: string, w: Write, parse: Parser)
    ensures !Accepts(s, id, w, parse) ==> Perform(s, id, w, parse).state == s
    ensures WriteOk(id, w, parse) && w.operation !in s.operations && w.base != Revision(s, id) ==>
              Perform(s, id, w, parse) == Performed(s, Err(Conflict))
  {
  }

  lemma {:induction false} AcceptedStays(requests: seq<Request>, n: nat, parse: Parser)
    requires n <= |requests|
    ensures Run(requests[..n], parse).accepted <= Run(requests, parse).accepted
    decreases |requests|
  {
    if n < |requests| {
      assert requests[..|requests| - 1][..n] == requests[..n];
      AcceptedStays(requests[..|requests| - 1], n, parse);
    } else {
      assert requests[..n] == requests;
    }
  }

  lemma AcceptedRemembered(requests: seq<Request>, n: nat, parse: Parser)
    requires n < |requests|
    requires Accepts(Run(requests[..n], parse).state, requests[n].id, requests[n].write, parse)
    ensures requests[n] in Run(requests, parse).accepted
  {
    assert requests[..n + 1][..n] == requests[..n];
    AcceptedStays(requests, n + 1, parse);
    var early := Run(requests[..n + 1], parse).accepted;
    assert early[|early| - 1] == requests[n];
    assert early[|early| - 1] == Run(requests, parse).accepted[|early| - 1];
  }

  lemma StoredAnswers(s: State, first: Request, retry: Request, parse: Parser)
    requires first.write.operation == retry.write.operation && retry.write.operation in s.operations
    requires first.write.base >= 0 && WriteOk(first.id, first.write, parse)
    requires s.operations[first.write.operation] == Operation(first.id, first.write, ViewOf(first.id, first.write))
    ensures var again := Perform(s, retry.id, retry.write, parse);
            again.state == s &&
            if retry == first then again.outcome == Ok(ViewOf(first.id, first.write)) else again.outcome.Err?
  {
  }

  /** However much later an identical retry comes, it gets the first answer and changes nothing; the same
      operation with any other content is refused. */
  lemma RetryReplays(requests: seq<Request>, n: nat, before: State, now: State, retry: Request, parse: Parser)
    requires n < |requests| && before == Run(requests[..n], parse).state && now == Run(requests, parse).state
    requires Accepts(before, requests[n].id, requests[n].write, parse)
    requires retry.write.operation == requests[n].write.operation
    ensures var again := Perform(now, retry.id, retry.write, parse);
            again.state == now &&
            if retry == requests[n] then again.outcome == Perform(before, retry.id, retry.write, parse).outcome
            else again.outcome.Err?
  {
    AcceptedRemembered(requests, n, parse);
    RunOk(requests, parse);
    StoredAnswers(now, requests[n], retry, parse);
  }

  // ---- what keeps a secret ----

  /** Two addresses have one origin: the same scheme and host but for case, and the same port, where a missing one is
      443 for `https` and 80 for any other scheme. */
  predicate OneOrigin(a: Url, b: Url) {
    && Lower(a.scheme) == Lower(b.scheme) && Lower(a.host) == Lower(b.host)
    && ((a.port != "" && b.port != "") ==> a.port == b.port)
    && ((a.port == "" && b.port != "") ==> DefaultPort(a.scheme, b.port))
    && ((a.port != "" && b.port == "") ==> DefaultPort(b.scheme, a.port))
    && ((a.port == "" && b.port == "") ==> (a.scheme == "https" <==> b.scheme == "https"))
  }

  predicate DefaultPort(scheme: string, port: string) {
    if scheme == "https" then port == "443" else port == "80"
  }

  lemma OriginIff(a: Url, b: Url)
    ensures Origin(a) == Origin(b) <==> OneOrigin(a, b)
  {
    var secure, open := "443", "80";
    assert |secure| != |open|;
  }

  /** Both addresses are ones that a source may have, and of one origin. */
  predicate SameSite(previous: string, url: string, parse: Parser) {
    && ByteLen(previous) <= 4096 && parse(previous).Some? && ByteLen(url) <= 4096 && parse(url).Some?
    && OneOrigin(parse(previous).value, parse(url).value)
  }

  lemma SameSiteIff(previous: string, url: string, parse: Parser)
    ensures (OriginOf(previous, parse).Some? && OriginOf(previous, parse) == OriginOf(url, parse)) <==>
              SameSite(previous, url, parse)
  {
    if parse(previous).Some? && parse(url).Some? {
      OriginIff(parse(previous).value, parse(url).value);
    }
  }

  /** A deleted source has no secret; credentials that are not both empty become the secret, and empty ones clear it;
      and without any the secret stays exactly when the address stays on its site. */
  lemma SecretIff(s: State, id: string, w: Write, parse: Parser)
    ensures var secret, sent := SecretAfter(s, id, w, parse), w.credentials;
            && (w.deleted || sent == Some(Credentials("", "")) ==> secret.None?)
            && (!w.deleted && sent.Some? && sent != Some(Credentials("", "")) ==> secret == sent)
            && (!w.deleted && sent.None? ==>
                  secret == if id in s.sources && SameSite(s.sources[id].url, w.url, parse)
                            then s.sources[id].secret else None)
  {
    if id in s.sources {
      SameSiteIff(s.sources[id].url, w.url, parse);
    }
  }

  /** What an accepted write leaves: the source as it says, under the next revision, and no other source changed. */
  lemma AcceptedWrite(s: State, id: string, w: Write, parse: Parser)
    requires Accepts(s, id, w, parse)
    ensures var after := Perform(s, id, w, parse); var source := after.state.sources[id];
            && after.state.sources.Keys == s.sources.Keys + {id}
            && (forall other :: other in s.sources && other != id ==> after.state.sources[other] == s.sources[other])
            && source.name == Trim(w.name) && source.url == w.url && source.deleted == w.deleted
            && source.revision == Revision(s, id) + 1 && source.secret == SecretAfter(s, id, w, parse)
            && after.outcome == Ok(View(id, source.name, source.url, source.revision, source.deleted))
  {
  }

  /** Request `i` gives the source a secret, and since then every accepted write of it is live, says nothing about
      credentials and stays with the origin. */
  ghost predicate GivesAndStays(accepted: seq<Request>, i: nat, parse: Parser) {
    && i < |accepted| && accepted[i].write.credentials.Some?
    && accepted[i].write.credentials != Some(Credentials("", ""))
    && OriginOf(accepted[i].write.url, parse).Some?
    && forall j :: i <= j < |accepted| && accepted[j].id == accepted[i].id ==>
         && !accepted[j].write.deleted && (j > i ==> accepted[j].write.credentials.None?)
         && OriginOf(accepted[j].write.url, parse) == OriginOf(accepted[i].write.url, parse)
  }

  /** However many writes follow, a secret is kept as long as they stay with its origin. */
  lemma {:induction false} SecretIsKept(requests: seq<Request>, i: nat, parse: Parser)
    requires GivesAndStays(Run(requests, parse).accepted, i, parse)
    ensures var h := Run(requests, parse);
            && h.accepted[i].id in h.state.sources
            && h.state.sources[h.accepted[i].id].secret == h.accepted[i].write.credentials
            && OriginOf(h.state.sources[h.accepted[i].id].url, parse) == OriginOf(h.accepted[i].write.url, parse)
  {
    if requests != [] {
      var before, r := Run(requests[..|requests| - 1], parse), requests[|requests| - 1];
      var h := Run(requests, parse);
      if Accepts(before.state, r.id, r.write, parse) {
        assert h.accepted == before.accepted + [r] && h.accepted[|before.accepted|] == r;
        AcceptedWrite(before.state, r.id, r.write, parse);
        SecretIff(before.state, r.id, r.write, parse);
      }
      if i < |before.accepted| {
        assert GivesAndStays(before.accepted, i, parse) by {
          assert forall j :: 0 <= j < |before.accepted| ==> h.accepted[j] == before.accepted[j];
        }
        SecretIsKept(requests[..|requests| - 1], i, parse);
      }
    }
  }
}
