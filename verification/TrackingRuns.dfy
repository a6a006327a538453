/** Whole runs of progress tracking: passes with any network faults, reading at any time, manual edits,
    edits at the provider and relinking. */
module TrackingRuns {
  import opened Text
  import opened Tracking

  datatype Account = Account(links: seq<Link>, remote: map<int, Remote>, positions: map<string, Position>)

  datatype Event =
    /** A pass, with the positions there are when its exchange returns. */
    | Tick(now: int, calls: Calls, message: string, during: map<string, Position>)
    | Read(positions: map<string, Position>)
    /** A manual edit of an entry's progress that the provider took, and reading during the request. */
    | Edit(series: int, written: Remote, now: int, during: map<string, Position>)
    | Outside(series: int, entry: Option<Remote>)
    /** Linking a book again starts its acknowledgements anew. */
    | Relink(i: nat, link: Link)

  function Do(a: Account, e: Event): Account {
    match e
    case Tick(now, calls, message, during) =>
      var b := PassOver(a.links, a.remote, false, Pass(now, a.positions, during, calls, message));
      Account(b.links, b.remote, during)
    case Read(positions) => a.(positions := positions)
    case Edit(series, written, now, during) =>
      Account(AckAll(a.links, series, AcksOf(a.links, series, a.positions), now), a.remote[series := written], during)
    case Outside(series, entry) =>
      a.(remote := if entry.Some? then a.remote[series := entry.value] else a.remote - {series})
    case Relink(i, link) =>
      if i < |a.links| then a.(links := a.links[i := link.(lastStep := 0, lastChapter := 0)]) else a
  }

  function Run(a: Account, events: seq<Event>): Account {
    if events == [] then a else Do(Run(a, events[..|events| - 1]), events[|events| - 1])
  }

  // ---- what one pass keeps ----

  predicate Kept(before: seq<Link>, after: seq<Link>) {
    |after| == |before| && forall i :: 0 <= i < |before| ==> LinkKept(before[i], after[i])
  }

  predicate LinkKept(before: Link, after: Link) {
    SameIdentity(after, before) && after.lastStep >= before.lastStep && after.lastChapter >= before.lastChapter
  }

  ghost predicate RemoteNoWorse(before: map<int, Remote>, after: map<int, Remote>) {
    forall series: int :: NoWorse(EntryOf(before, series), EntryOf(after, series))
  }

  ghost predicate AllDelivered(links: seq<Link>, remote: map<int, Remote>) {
    forall l :: l in links ==> Delivered(l, Known(l), EntryOf(remote, l.series))
  }

  lemma {:induction false} PassKeeps(links: seq<Link>, remote: map<int, Remote>, sent: bool, p: Pass)
    ensures Kept(links, PassOver(links, remote, sent, p).links)
    decreases |links|
  {
    if links != [] {
      match TurnOf(links[0], remote, sent, p)
      case Stop =>
      case Turn(l, r, s) =>
        PassKeeps(links[1..], r, s, p);
        var rest := PassOver(links[1..], r, s, p);
        assert PassOver(links, remote, sent, p).links == [l] + rest.links;
    }
  }

  lemma TurnNoWorse(l: Link, remote: map<int, Remote>, sent: bool, p: Pass)
    requires p.calls.edit.None? && TurnOf(l, remote, sent, p).Turn?
    ensures RemoteNoWorse(remote, TurnOf(l, remote, sent, p).remote)
  {
    var d := Decide(l, if sent then p.after else p.before, p.now);
    if d.Send? {
      ExchangeDelivers(l, d.reading, EntryOf(remote, l.series), p.calls);
    }
  }

  lemma NoWorseStays(l: Link, r: Reading, before: Option<Remote>, after: Option<Remote>)
    requires Delivered(l, r, before) && NoWorse(before, after)
    ensures Delivered(l, r, after)
  {
  }

  lemma TurnDelivers(l: Link, remote: map<int, Remote>, sent: bool, p: Pass)
    requires p.calls.edit.None? && TurnOf(l, remote, sent, p).Turn?
    requires Delivered(l, Known(l), EntryOf(remote, l.series))
    ensures var t := TurnOf(l, remote, sent, p); Delivered(t.link, Known(t.link), EntryOf(t.remote, l.series))
  {
    var d := Decide(l, if sent then p.after else p.before, p.now);
    TurnNoWorse(l, remote, sent, p);
    var t := TurnOf(l, remote, sent, p);
    NoWorseStays(l, Known(l), EntryOf(remote, l.series), EntryOf(t.remote, l.series));
    if d.Send? {
      ExchangeDelivers(l, d.reading, EntryOf(remote, l.series), p.calls);
    }
  }

  lemma AllStay(links: seq<Link>, before: map<int, Remote>, after: map<int, Remote>)
    requires AllDelivered(links, before) && RemoteNoWorse(before, after)
    ensures AllDelivered(links, after)
  {
    forall l | l in links ensures Delivered(l, Known(l), EntryOf(after, l.series)) {
      NoWorseStays(l, Known(l), EntryOf(before, l.series), EntryOf(after, l.series));
    }
  }

  /** A pass makes no entry worse, and keeps every acknowledged reading delivered. */
  lemma {:induction false} PassDelivers(links: seq<Link>, remote: map<int, Remote>, sent: bool, p: Pass)
    requires p.calls.edit.None?
    ensures var b := PassOver(links, remote, sent, p);
            RemoteNoWorse(remote, b.remote) && (AllDelivered(links, remote) ==> AllDelivered(b.links, b.remote))
    decreases |links|
  {
    if links != [] {
      match TurnOf(links[0], remote, sent, p)
      case Stop =>
      case Turn(l, r, s) =>
        TurnNoWorse(links[0], remote, sent, p);
        PassDelivers(links[1..], r, s, p);
        var rest := PassOver(links[1..], r, s, p);
        assert PassOver(links, remote, sent, p) == Books([l] + rest.links, rest.remote);
        NoWorseChain(remote, r, rest.remote);
        if AllDelivered(links, remote) {
          TurnDelivers(links[0], remote, sent, p);
          AllStay(links[1..], remote, r);
          NoWorseStays(l, Known(l), EntryOf(r, l.series), EntryOf(rest.remote, l.series));
        }
    }
  }

  lemma NoWorseChain(a: map<int, Remote>, b: map<int, Remote>, c: map<int, Remote>)
    requires RemoteNoWorse(a, b) && RemoteNoWorse(b, c)
    ensures RemoteNoWorse(a, c)
  {
    forall series: int ensures NoWorse(EntryOf(a, series), EntryOf(c, series)) {
      assert NoWorse(EntryOf(a, series), EntryOf(b, series)) && NoWorse(EntryOf(b, series), EntryOf(c, series));
    }
  }

  // ---- whole runs ----

  /** Only this server writes, and nobody edits entries by hand. */
  predicate Automatic(events: seq<Event>) {
    forall e :: e in events ==> !e.Edit? && !e.Outside? && (e.Tick? ==> e.calls.edit.None?)
  }

  lemma RunStep(a: Account, events: seq<Event>)
    requires events != []
    ensures events == events[..|events| - 1] + [events[|events| - 1]]
    ensures Run(a, events) == Do(Run(a, events[..|events| - 1]), events[|events| - 1])
  {
  }

  /** Over any automatic run, with any faults of the network, no entry at the provider gets worse, and
      every acknowledged reading has arrived there. */
  lemma {:induction false} AutomaticRunDelivers(a: Account, events: seq<Event>)
    requires Automatic(events) && AllDelivered(a.links, a.remote)
    ensures var b := Run(a, events); RemoteNoWorse(a.remote, b.remote) && AllDelivered(b.links, b.remote)
  {
    if events != [] {
      RunStep(a, events);
      var front, e := events[..|events| - 1], events[|events| - 1];
      AutomaticRunDelivers(a, front);
      var mid := Run(a, front);
      if e.Tick? {
        var p := Pass(e.now, mid.positions, e.during, e.calls, e.message);
        PassDelivers(mid.links, mid.remote, false, p);
        NoWorseChain(a.remote, mid.remote, PassOver(mid.links, mid.remote, false, p).remote);
      }
    }
  }

  /** Between relinkings acknowledgements only rise, whoever edits what. */
  lemma {:induction false} RunKeepsAcknowledgements(a: Account, events: seq<Event>)
    requires forall e :: e in events ==> !e.Relink?
    ensures Kept(a.links, Run(a, events).links)
  {
    if events != [] {
      RunStep(a, events);
      var front, e := events[..|events| - 1], events[|events| - 1];
      RunKeepsAcknowledgements(a, front);
      var mid := Run(a, front);
      match e {
        case Tick(now, calls, message, during) =>
          PassKeeps(mid.links, mid.remote, false, Pass(now, mid.positions, during, calls, message));
        case Edit(series, written, now, during) =>
          EditKeeps(mid.links, series, AcksOf(mid.links, series, mid.positions), now);
        case Read(_) =>
        case Outside(_, _) =>
        case Relink(_, _) =>
      }
      KeptChain(a.links, mid.links, Run(a, events).links);
    }
  }

  lemma KeptChain(a: seq<Link>, b: seq<Link>, c: seq<Link>)
    requires Kept(a, b) && Kept(b, c)
    ensures Kept(a, c)
  {
    forall i | 0 <= i < |a| ensures LinkKept(a[i], c[i]) {
      assert LinkKept(a[i], b[i]) && LinkKept(b[i], c[i]);
    }
  }

  lemma {:induction false} EditKeeps(links: seq<Link>, series: int, acks: seq<Ack>, now: int)
    ensures Kept(links, AckAll(links, series, acks, now))
  {
    if acks != [] {
      EditKeeps(links, series, acks[..|acks| - 1], now);
    }
  }

  /** A pass leaves no link pending that was not pending before it. */
  lemma PassMakesNothingPending(links: seq<Link>, remote: map<int, Remote>, sent: bool, p: Pass,
      positions: map<string, Position>, i: nat)
    requires i < |links| && !Pending(links[i], positions)
    ensures |PassOver(links, remote, sent, p).links| == |links|
    ensures !Pending(PassOver(links, remote, sent, p).links[i], positions)
  {
    PassKeeps(links, remote, sent, p);
    assert LinkKept(links[i], PassOver(links, remote, sent, p).links[i]);
  }

  // ---- draining ----

  /** A link that waits to be sent and can be. */
  predicate Sendable(l: Link, positions: map<string, Position>) {
    l.auto && Pending(l, positions) && ReadingOf(l.volume, positions[l.book]).chapter <= MAX_CHAPTER
  }

  function Backlog(links: seq<Link>, positions: map<string, Position>): nat {
    if links == [] then 0 else (if Sendable(links[0], positions) then 1 else 0) + Backlog(links[1..], positions)
  }

  /** No sendable link waits for a retry after `now`. */
  predicate AllDue(links: seq<Link>, positions: map<string, Position>, now: int) {
    forall l :: l in links ==> Sendable(l, positions) ==> l.nextAttempt <= now
  }

  function Quiet(positions: map<string, Position>, now: int): Pass {
    Pass(now, positions, positions, ALL_DONE, "")
  }

  lemma TurnDrains(l: Link, remote: map<int, Remote>, sent: bool, positions: map<string, Position>, now: int)
    requires now >= 0 && (Sendable(l, positions) ==> l.nextAttempt <= now)
    ensures var t := TurnOf(l, remote, sent, Quiet(positions, now));
            if Sendable(l, positions) then
              if sent then t == Stop else t.Turn? && t.sent && !Sendable(t.link, positions)
            else t.Turn? && t.sent == sent && !Sendable(t.link, positions)
  {
  }

  /** With working calls and no new reading, a pass takes exactly one sendable link off the backlog. */
  lemma {:induction false} QuietPassDrains(links: seq<Link>, remote: map<int, Remote>, sent: bool,
      positions: map<string, Position>, due: int, now: int)
    requires 0 <= due <= now && AllDue(links, positions, due)
    ensures var after := PassOver(links, remote, sent, Quiet(positions, now)).links;
            && Backlog(after, positions) == (if sent || Backlog(links, positions) == 0 then Backlog(links, positions)
                                             else Backlog(links, positions) - 1)
            && AllDue(after, positions, due)
    decreases |links|
  {
    if links != [] {
      assert links[0] in links;
      assert AllDue(links[1..], positions, due);
      TurnDrains(links[0], remote, sent, positions, now);
      match TurnOf(links[0], remote, sent, Quiet(positions, now))
      case Stop =>
      case Turn(l, r, s) =>
        QuietPassDrains(links[1..], r, s, positions, due, now);
        var rest := PassOver(links[1..], r, s, Quiet(positions, now)).links;
        assert ([l] + rest)[1..] == rest;
    }
  }

  function QuietPasses(b: Books, positions: map<string, Position>, times: seq<int>): Books {
    if times == [] then b
    else
      var before := QuietPasses(b, positions, times[..|times| - 1]);
      PassOver(before.links, before.remote, false, Quiet(positions, times[|times| - 1]))
  }

  /** So as many passes as there are sendable links drain them all, at whatever times they run. */
  lemma {:induction false} QuietPassesDrain(b: Books, positions: map<string, Position>, start: int, times: seq<int>)
    requires start >= 0 && AllDue(b.links, positions, start) 
    requires forall i :: 0 <= i < |times| ==> times[i] >= start
    ensures var left := Backlog(QuietPasses(b, positions, times).links, positions);
            left == if |times| >= Backlog(b.links, positions) then 0 else Backlog(b.links, positions) - |times|
    ensures AllDue(QuietPasses(b, positions, times).links, positions, start)
  {
    if times != [] {
      var front, now := times[..|times| - 1], times[|times| - 1];
      assert times[|times| - 1] == now;
      QuietPassesDrain(b, positions, start, front);
      var before := QuietPasses(b, positions, front);
      QuietPassDrains(before.links, before.remote, false, positions, start, now);
    }
  }
}
