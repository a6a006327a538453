/** Progress tracking against a remote provider (internal/server/tracking.go,
    internal/server/tracking_entries.go): what one exchange may change at the provider, the pass over the
    links of an account, and manual edits that acknowledge what was read before them. */
module Tracking {
  import opened Text

  datatype Position = Position(fraction: real, completed: int, current: Option<int>)

  datatype Link = Link(
    book: string, series: int, volume: real, auto: bool, complete: bool,
    lastStep: nat, lastChapter: nat, lastSync: int, error: string, nextAttempt: int)

  /** How far a reader is: 1 started, 2 finished, and a chapter for links without a volume. */
  datatype Reading = Reading(step: nat, chapter: nat)

  datatype Remote = Remote(state: string, volume: real, chapter: real)

  datatype Patch = Patch(state: Option<string>, volume: Option<real>, chapter: Option<int>)

  const NOTHING := Patch(None, None, None)
  const OPENED := Remote("reading", 0.0, 0.0)
  const MAX_CHAPTER := 10000
  const TOO_LONG := "MangaBaka supports chapter progress up to 10000. Local progress is saved."

  function ReadingOf(volume: real, pos: Position): Reading {
    var detected := if pos.current.Some? then pos.current.value else pos.completed;
    Reading(if pos.fraction >= 0.999 then 2 else if pos.fraction > 0.0 then 1 else 0,
            if volume == 0.0 && 0 < detected <= 100000 then detected else 0)
  }

  /** The position is in this chapter, or has completed it when no current one is known; a link with a volume has no
      chapters, and neither does a number out of bounds. */
  predicate InChapter(volume: real, pos: Position, n: int) {
    volume == 0.0 && 1 <= n <= 100000 && (pos.current == Some(n) || (pos.current.None? && pos.completed == n))
  }

  /** The reading says of a position whether it was started and finished, and in which chapter it is. */
  ghost predicate Reads(volume: real, pos: Position, r: Reading) {
    && r.step <= 2 && (r.step >= 1 <==> pos.fraction > 0.0) && (r.step == 2 <==> pos.fraction >= 0.999)
    && (r.chapter > 0 ==> InChapter(volume, pos, r.chapter))
    && (forall n :: InChapter(volume, pos, n) ==> r.chapter == n)
  }

  lemma ReadingReads(volume: real, pos: Position)
    ensures Reads(volume, pos, ReadingOf(volume, pos))
  {
  }

  predicate Exceeds(r: Reading, step: nat, chapter: nat) {
    r.step > step || r.chapter > chapter
  }

  predicate Pending(l: Link, positions: map<string, Position>) {
    l.book in positions && Exceeds(ReadingOf(l.volume, positions[l.book]), l.lastStep, l.lastChapter)
  }

  // ---- one exchange ----

  /** `trackingPatch` and the chapter that `runTracking` adds to it. */
  function PatchOf(l: Link, r: Reading, seen: Remote): Patch {
    var finished := if r.step >= 2 && l.complete && seen.state !in {"completed", "paused", "dropped"}
                    then Some("completed") else None;
    Patch(if r.step == 1 && seen.state in {"plan_to_read", "considering", ""} then Some("reading") else finished,
          if r.step >= 2 && l.volume > seen.volume then Some(l.volume) else None,
          if r.chapter as real > seen.chapter then Some(r.chapter) else None)
  }

  function Merge(entry: Remote, p: Patch): Remote {
    Remote(if p.state.Some? then p.state.value else entry.state,
           if p.volume.Some? then p.volume.value else entry.volume,
           if p.chapter.Some? then p.chapter.value as real else entry.chapter)
  }

  /** A call arrives and is answered, does not arrive, or arrives and its answer is lost. */
  datatype Reply = Done | Refused | Lost

  /** The fate of the calls of one exchange, and an edit of the entry by somebody else before the write. */
  datatype Calls = Calls(get: Reply, post: Reply, put: Reply, edit: Option<Remote>)

  const ALL_DONE := Calls(Done, Done, Done, None)

  datatype Exchanged = Exchanged(entry: Option<Remote>, ok: bool)

  function Write(l: Link, r: Reading, seen: Remote, calls: Calls): Exchanged {
    var patch := PatchOf(l, r, seen);
    var entry := if calls.edit.Some? then calls.edit.value else seen;
    if patch == NOTHING then Exchanged(Some(entry), true)
    else Exchanged(Some(if calls.put == Refused then entry else Merge(entry, patch)), calls.put == Done)
  }

  function Exchange(l: Link, r: Reading, entry: Option<Remote>, calls: Calls): Exchanged {
    if calls.get != Done then Exchanged(entry, false)
    else if entry.Some? then Write(l, r, entry.value, calls)
    else if calls.post == Done then Write(l, r, OPENED, calls)
    else Exchanged(if calls.post == Lost then Some(OPENED) else None, false)
  }

  predicate Settled(state: string) {
    state == "paused" || state == "dropped"
  }

  predicate Planned(state: string) {
    state in {"plan_to_read", "considering", ""}
  }

  /** Nothing the reader has at the provider gets worse: progress does not fall, an entry that was paused
      or dropped stays so, one that was completed stays completed, and none goes back to the plan. */
  predicate NoWorse(before: Option<Remote>, after: Option<Remote>) {
    before.Some? ==>
      && after.Some? && after.value.volume >= before.value.volume && after.value.chapter >= before.value.chapter
      && ((Settled(before.value.state) || before.value.state == "completed") ==>
          after.value.state == before.value.state)
      && (!Planned(before.value.state) ==> !Planned(after.value.state))
  }

  /** What an acknowledged reading promises about the entry. */
  predicate Delivered(l: Link, r: Reading, entry: Option<Remote>) {
    && (r.step >= 1 || r.chapter >= 1 ==> entry.Some?)
    && (r.step == 1 ==> !Planned(entry.value.state))
    && (r.step >= 2 ==> entry.value.volume >= l.volume)
    && (r.step >= 2 && l.complete ==> Settled(entry.value.state) || entry.value.state == "completed")
    && (r.chapter >= 1 ==> entry.value.chapter >= r.chapter as real)
  }

  /** An exchange makes nothing worse, whatever the network does, when no one else edits the entry between
      its reading and its writing; and one that succeeds has delivered the reading. */
  lemma ExchangeDelivers(l: Link, r: Reading, entry: Option<Remote>, calls: Calls)
    requires calls.edit.None?
    ensures NoWorse(entry, Exchange(l, r, entry, calls).entry)
    ensures Exchange(l, r, entry, calls).ok ==> Delivered(l, r, Exchange(l, r, entry, calls).entry)
  {
  }

  /** The entry as the exchange reads it, or as it opens one that is missing. */
  function Seen(entry: Option<Remote>): Remote {
    if entry.Some? then entry.value else OPENED
  }

  /** An exchange that gets to its write, whether its answer arrives or is lost. */
  predicate Writes(entry: Option<Remote>, calls: Calls) {
    calls.get == Done && (entry.None? ==> calls.post == Done) && calls.put != Refused
  }

  predicate StartsReading(r: Reading, seen: Remote) {
    r.step == 1 && Planned(seen.state)
  }

  predicate Completes(l: Link, r: Reading, seen: Remote) {
    r.step >= 2 && l.complete && !Settled(seen.state) && seen.state != "completed"
  }

  /** With an edit by somebody else between the reading and the writing, the write meets what it has not read: the
      provider takes no condition along with it. It lowers the volume or the chapter exactly when the edit passed
      what is sent and the entry as read had not; and it changes the edited state exactly when it sends one, which
      the state as read decides alone: also when the edit paused, dropped or completed the entry. */
  lemma RaceIff(l: Link, r: Reading, entry: Option<Remote>, calls: Calls)
    requires Writes(entry, calls) && calls.edit.Some?
    ensures Exchange(l, r, entry, calls).entry.Some?
    ensures var seen, edited, after := Seen(entry), calls.edit.value, Exchange(l, r, entry, calls).entry.value;
            && (after.volume < edited.volume <==> r.step >= 2 && seen.volume < l.volume < edited.volume)
            && (after.chapter < edited.chapter <==> seen.chapter < r.chapter as real < edited.chapter)
            && (Settled(edited.state) ==>
                  (after.state != edited.state <==> StartsReading(r, seen) || Completes(l, r, seen)))
            && (edited.state == "completed" ==> (after.state != edited.state <==> StartsReading(r, seen)))
            && (!Planned(edited.state) ==> !Planned(after.state))
  {
  }

  /** So a race makes something worse in exactly these cases; a write that does not arrive never does. */
  lemma RaceWorsensIff(l: Link, r: Reading, entry: Option<Remote>, calls: Calls)
    requires calls.get == Done && (entry.None? ==> calls.post == Done) && calls.edit.Some?
    ensures var seen, edited := Seen(entry), calls.edit.value;
            !NoWorse(Some(edited), Exchange(l, r, entry, calls).entry) <==>
              calls.put != Refused &&
              (|| (r.step >= 2 && seen.volume < l.volume < edited.volume)
               || (seen.chapter < r.chapter as real < edited.chapter)
               || (StartsReading(r, seen) && (Settled(edited.state) || edited.state == "completed"))
               || (Completes(l, r, seen) && Settled(edited.state)))
  {
    if calls.put != Refused {
      RaceIff(l, r, entry, calls);
    }
  }

  /** What a write leaves of an entry without any progress, edited to a state after it was read in another. */
  function RacedState(l: Link, step: nat, seen: string, edited: string): string {
    Seen(Exchange(l, Reading(step, 0), Some(Remote(seen, 0.0, 0.0)),
        Calls(Done, Done, Done, Some(Remote(edited, 0.0, 0.0)))).entry).state
  }

  /** An entry that was paused while the reader finished the book is completed, one that was dropped while the reader
      started it is put back to reading, and so is one that was completed; no number falls in any of them. */
  lemma RaceWitnesses(l: Link)
    requires l.volume == 0.0 && l.complete
    ensures RacedState(l, 2, "reading", "paused") == "completed"
    ensures RacedState(l, 1, "plan_to_read", "dropped") == "reading"
    ensures RacedState(l, 1, "considering", "completed") == "reading"
  {
  }

  // ---- one pass ----

  datatype Decision = Skip | TooLong | Send(reading: Reading)

  function Decide(l: Link, positions: map<string, Position>, now: int): Decision {
    if !l.auto || l.nextAttempt > now || !Pending(l, positions) then Skip
    else
      var r := ReadingOf(l.volume, positions[l.book]);
      if r.chapter > MAX_CHAPTER then TooLong else Send(r)
  }

  function Acknowledged(l: Link, r: Reading, now: int): Link {
    l.(lastStep := Max(l.lastStep, r.step), lastChapter := Max(l.lastChapter, r.chapter), lastSync := now,
       error := "", nextAttempt := 0)
  }

  function Failed(l: Link, message: string, now: int): Link {
    l.(error := message, nextAttempt := now + 60)
  }

  /** The clock, the positions before the exchange and after it, and the fate of its calls. */
  datatype Pass = Pass(now: int, before: map<string, Position>, after: map<string, Position>, calls: Calls,
      message: string)

  function EntryOf(remote: map<int, Remote>, series: int): Option<Remote> {
    if series in remote then Some(remote[series]) else None
  }

  function WithEntry(remote: map<int, Remote>, series: int, entry: Option<Remote>): map<int, Remote> {
    if entry.Some? then remote[series := entry.value] else remote
  }

  datatype Books = Books(links: seq<Link>, remote: map<int, Remote>)

  /** What one link of the loop leaves behind. */
  datatype Turn = Stop | Turn(link: Link, remote: map<int, Remote>, sent: bool)

  function SendTurn(l: Link, r: Reading, remote: map<int, Remote>, p: Pass): Turn {
    var exchanged := Exchange(l, r, EntryOf(remote, l.series), p.calls);
    Turn(if exchanged.ok then Acknowledged(l, r, p.now) else Failed(l, p.message, p.now),
         WithEntry(remote, l.series, exchanged.entry), true)
  }

  function TurnOf(l: Link, remote: map<int, Remote>, sent: bool, p: Pass): Turn {
    match Decide(l, if sent then p.after else p.before, p.now)
    case Skip => Turn(l, remote, sent)
    case TooLong => Turn(Failed(l, TOO_LONG, p.now), remote, sent)
    case Send(r) => if sent then Stop else SendTurn(l, r, remote, p)
  }

  /** A pass over the links in their order: at most one exchange, and it stops at a second one. */
  function PassOver(links: seq<Link>, remote: map<int, Remote>, sent: bool, p: Pass): Books {
    if links == [] then Books(links, remote)
    else
      match TurnOf(links[0], remote, sent, p)
      case Stop => Books(links, remote)
      case Turn(l, r, s) =>
        var rest := PassOver(links[1..], r, s, p);
        Books([l] + rest.links, rest.remote)
  }

  /** The links done and what is ahead make up the whole pass. */
  ghost predicate Ahead(goal: Books, done: seq<Link>, todo: seq<Link>, remote: map<int, Remote>, sent: bool, p: Pass) {
    var rest := PassOver(todo, remote, sent, p);
    goal == Books(done + rest.links, rest.remote)
  }

  lemma AheadTurn(goal: Books, done: seq<Link>, todo: seq<Link>, remote: map<int, Remote>, sent: bool, p: Pass)
    requires todo != [] && Ahead(goal, done, todo, remote, sent, p)
    ensures match TurnOf(todo[0], remote, sent, p)
            case Stop => goal == Books(done + todo, remote)
            case Turn(l, r, s) => Ahead(goal, done + [l], todo[1..], r, s, p)
  {
    match TurnOf(todo[0], remote, sent, p)
    case Stop =>
    case Turn(l, r, s) =>
      var rest := PassOver(todo[1..], r, s, p);
      assert done + ([l] + rest.links) == (done + [l]) + rest.links;
  }

  /** The pass stands before link `i`: the links before it are done, the others as they were loaded. */
  ghost predicate AheadAt(goal: Books, links: seq<Link>, i: nat, remote: map<int, Remote>, sent: bool, p: Pass) {
    i <= |links| && Ahead(goal, links[..i], links[i..], remote, sent, p)
  }

  lemma AheadAtTurn(goal: Books, links: seq<Link>, i: nat, remote: map<int, Remote>, sent: bool, p: Pass)
    requires i < |links| && AheadAt(goal, links, i, remote, sent, p)
    ensures match TurnOf(links[i], remote, sent, p)
            case Stop => goal == Books(links, remote)
            case Turn(l, r, s) => AheadAt(goal, links[i := l], i + 1, r, s, p)
  {
    assert links[i..][1..] == links[i + 1..] && links[..i] + links[i..] == links;
    AheadTurn(goal, links[..i], links[i..], remote, sent, p);
    match TurnOf(links[i], remote, sent, p)
    case Stop =>
    case Turn(l, r, s) =>
      assert links[i := l][..i + 1] == links[..i] + [l] && links[i := l][i + 1..] == links[i + 1..];
  }

  class Tracker {
    /** The account's links in title order, and the entries at the provider. */
    var links: seq<Link>
    var remote: map<int, Remote>

    constructor (links: seq<Link>, remote: map<int, Remote>)
      ensures this.links == links && this.remote == remote
    {
      this.links, this.remote := links, remote;
    }

    /** The calls of one exchange, in their order. */
    method Send(l: Link, r: Reading, calls: Calls) returns (ok: bool)
      modifies this`remote
      ensures ok == Exchange(l, r, EntryOf(old(remote), l.series), calls).ok
      ensures remote == WithEntry(old(remote), l.series, Exchange(l, r, EntryOf(old(remote), l.series), calls).entry)
    {
      ok := calls.get == Done;
      var seen := OPENED;
      if ok && l.series in remote {
        seen := remote[l.series];
      } else if ok {
        if calls.post != Refused {
          remote := remote[l.series := OPENED];
        }
        ok := calls.post == Done;
      }
      if ok {
        if calls.edit.Some? {
          remote := remote[l.series := calls.edit.value];
        }
        var patch := PatchOf(l, r, seen);
        if patch != NOTHING {
          if calls.put != Refused {
            remote := remote[l.series := Merge(remote[l.series], patch)];
          }
          ok := calls.put == Done;
        }
      }
      assert l.series in old(remote) ==> old(remote)[l.series := old(remote)[l.series]] == old(remote);
    }

    /** The body of the loop for one link; `go` is false where the loop breaks. */
    method TakeTurn(i: nat, processed: nat, p: Pass) returns (go: bool, next: nat)
      requires i < |links| && processed <= 1
      modifies this
      ensures match TurnOf(old(links)[i], old(remote), processed >= 1, p)
              case Stop => !go && links == old(links) && remote == old(remote)
              case Turn(l, r, s) =>
                go && links == old(links)[i := l] && remote == r && next <= 1 && (next >= 1 <==> s)
    {
      var l := links[i];
      next := processed;
      var decision := Decide(l, if processed >= 1 then p.after else p.before, p.now);
      if decision.Send? && processed >= 1 {
        return false, next;
      }
      if decision.TooLong? {
        links := links[i := Failed(l, TOO_LONG, p.now)];
      } else if decision.Send? {
        next := next + 1;
        var ok := Send(l, decision.reading, p.calls);
        links := links[i := if ok then Acknowledged(l, decision.reading, p.now) else Failed(l, p.message, p.now)];
      }
      return true, next;
    }

    /** `runTracking` on the links as they were loaded at its start. */
    method RunTracking(p: Pass)
      modifies this
      ensures Books(links, remote) == PassOver(old(links), old(remote), false, p)
    {
      var processed := 0;
      ghost var goal := PassOver(links, remote, false, p);
      assert links[0..] == links && links[..0] == [];
      for i := 0 to |links|
        invariant 0 <= processed <= 1 && |links| == |old(links)| && AheadAt(goal, links, i, remote, processed >= 1, p)
      {
        AheadAtTurn(goal, links, i, remote, processed >= 1, p);
        var go, next := TakeTurn(i, processed, p);
        if !go {
          break;
        }
        processed := next;
      }
    }

    /** `trackingEntryAcknowledgements`: what the positions say now about the links of an entry. */
    method Snapshot(series: int, positions: map<string, Position>) returns (acks: seq<Ack>)
      ensures acks == AcksOf(links, series, positions)
      ensures OnlySaid(acks, links, series, positions) && AllSaid(acks, links, series, positions)
    {
      acks := [];
      for i := 0 to |links|
        invariant acks == AcksOf(links[..i], series, positions)
      {
        var l := links[i];
        assert links[..i + 1][..i] == links[..i];
        if l.series == series && l.book in positions {
          acks := acks + [Ack(l.book, ReadingOf(l.volume, positions[l.book]))];
        }
      }
      assert links[..|links|] == links;
      AcksOnlySay(links, series, positions);
      AcksSayAll(links, series, positions);
    }

    /** `acknowledgeTrackingEntry`, after the provider took the edit. */
    method Acknowledge(series: int, acks: seq<Ack>, now: int)
      modifies this`links
      ensures links == AckAll(old(links), series, acks, now)
    {
      for i := 0 to |acks|
        invariant links == AckAll(old(links), series, acks[..i], now)
      {
        assert acks[..i + 1][..i] == acks[..i];
        links := AckOne(links, series, acks[i], now);
      }
      assert acks[..|acks|] == acks;
    }
  }

  // ---- manual edits ----

  datatype Ack = Ack(book: string, reading: Reading)

  ghost predicate SaidOf(l: Link, series: int, positions: map<string, Position>, ack: Ack) {
    && l.series == series && l.book == ack.book && l.book in positions
    && Reads(l.volume, positions[l.book], ack.reading)
  }

  /** Every acknowledgement is what a position says of a link of the entry. */
  ghost predicate OnlySaid(acks: seq<Ack>, links: seq<Link>, series: int, positions: map<string, Position>) {
    forall ack :: ack in acks ==> exists l :: l in links && SaidOf(l, series, positions, ack)
  }

  /** Every link of the entry whose book has a position is acknowledged. */
  ghost predicate AllSaid(acks: seq<Ack>, links: seq<Link>, series: int, positions: map<string, Position>) {
    forall l :: l in links && l.series == series && l.book in positions ==>
      exists ack :: ack in acks && SaidOf(l, series, positions, ack)
  }

  lemma AckReads(l: Link, series: int, positions: map<string, Position>)
    requires l.series == series && l.book in positions
    ensures SaidOf(l, series, positions, Ack(l.book, ReadingOf(l.volume, positions[l.book])))
  {
    ReadingReads(l.volume, positions[l.book]);
  }

  lemma {:induction false} AcksOnlySay(links: seq<Link>, series: int, positions: map<string, Position>)
    ensures OnlySaid(AcksOf(links, series, positions), links, series, positions)
  {
    if links != [] {
      var front, last := links[..|links| - 1], links[|links| - 1];
      var acks, before := AcksOf(links, series, positions), AcksOf(front, series, positions);
      AcksOnlySay(front, series, positions);
      forall ack | ack in acks ensures exists l :: l in links && SaidOf(l, series, positions, ack) {
        if ack in before {
          var l :| l in front && SaidOf(l, series, positions, ack);
          assert l in links;
        } else {
          AckReads(last, series, positions);
          assert last in links;
        }
      }
    }
  }

  lemma {:induction false} AcksSayAll(links: seq<Link>, series: int, positions: map<string, Position>)
    ensures AllSaid(AcksOf(links, series, positions), links, series, positions)
  {
    if links != [] {
      var front, last := links[..|links| - 1], links[|links| - 1];
      var acks, before := AcksOf(links, series, positions), AcksOf(front, series, positions);
      AcksSayAll(front, series, positions);
      assert links == front + [last];
      forall l | l in links && l.series == series && l.book in positions
        ensures exists ack :: ack in acks && SaidOf(l, series, positions, ack)
      {
        if l in front {
          var ack :| ack in before && SaidOf(l, series, positions, ack);
          assert ack in acks;
        } else {
          AckReads(last, series, positions);
          assert Ack(last.book, ReadingOf(last.volume, positions[last.book])) in acks;
        }
      }
    }
  }

  function AcksOf(links: seq<Link>, series: int, positions: map<string, Position>): seq<Ack> {
    if links == [] then []
    else
      var l := links[|links| - 1];
      AcksOf(links[..|links| - 1], series, positions) +
      if l.series == series && l.book in positions then [Ack(l.book, ReadingOf(l.volume, positions[l.book]))] else []
  }

  function AckLink(l: Link, series: int, ack: Ack, now: int): Link {
    if l.book == ack.book && l.series == series then Acknowledged(l, ack.reading, now) else l
  }

  function AckOne(links: seq<Link>, series: int, ack: Ack, now: int): seq<Link> {
    seq(|links|, i requires 0 <= i < |links| => AckLink(links[i], series, ack, now))
  }

  function AckAll(links: seq<Link>, series: int, acks: seq<Ack>, now: int): seq<Link> {
    if acks == [] then links
    else AckOne(AckAll(links, series, acks[..|acks| - 1], now), series, acks[|acks| - 1], now)
  }

  predicate OneLinkPerBook(links: seq<Link>) {
    forall i, j :: 0 <= i < j < |links| ==> links[i].book != links[j].book
  }

  predicate SameIdentity(a: Link, b: Link) {
    a.book == b.book && a.series == b.series && a.volume == b.volume && a.auto == b.auto && a.complete == b.complete
  }

  lemma {:induction false} AckAllSameBooks(links: seq<Link>, series: int, acks: seq<Ack>, now: int)
    ensures |AckAll(links, series, acks, now)| == |links|
    ensures forall i :: 0 <= i < |links| ==> SameIdentity(AckAll(links, series, acks, now)[i], links[i])
  {
    if acks != [] {
      AckAllSameBooks(links, series, acks[..|acks| - 1], now);
    }
  }

  /** The number the acknowledgements give a link, at least what it had. */
  function Best(acks: seq<Ack>, book: string, had: Reading): Reading {
    if acks == [] then had
    else
      var best, ack := Best(acks[..|acks| - 1], book, had), acks[|acks| - 1];
      if ack.book != book then best
      else Reading(Max(best.step, ack.reading.step), Max(best.chapter, ack.reading.chapter))
  }

  function Known(l: Link): Reading {
    Reading(l.lastStep, l.lastChapter)
  }

  lemma {:induction false} AckAllIsBest(links: seq<Link>, series: int, acks: seq<Ack>, now: int, i: nat)
    requires i < |links|
    ensures |AckAll(links, series, acks, now)| == |links|
    ensures SameIdentity(AckAll(links, series, acks, now)[i], links[i])
    ensures Known(AckAll(links, series, acks, now)[i]) ==
              if links[i].series == series then Best(acks, links[i].book, Known(links[i])) else Known(links[i])
  {
    if acks != [] {
      AckAllIsBest(links, series, acks[..|acks| - 1], now, i);
    }
  }

  lemma {:induction false} BestWithoutLink(links: seq<Link>, series: int, positions: map<string, Position>,
      book: string, had: Reading)
    requires forall l :: l in links ==> l.book != book
    ensures Best(AcksOf(links, series, positions), book, had) == had
  {
    if links != [] {
      BestWithoutLink(links[..|links| - 1], series, positions, book, had);
      AcksSnoc(links, series, positions);
    }
  }

  lemma AcksSnoc(links: seq<Link>, series: int, positions: map<string, Position>)
    requires links != []
    ensures var front, l := AcksOf(links[..|links| - 1], series, positions), links[|links| - 1];
            if l.series == series && l.book in positions then
              var acks := AcksOf(links, series, positions);
              |acks| == |front| + 1 && acks[..|front|] == front &&
              acks[|front|] == Ack(l.book, ReadingOf(l.volume, positions[l.book]))
            else AcksOf(links, series, positions) == front
  {
  }

  function Raised(had: Reading, r: Reading): Reading {
    Reading(Max(had.step, r.step), Max(had.chapter, r.chapter))
  }

  /** Each book has one link, so the only acknowledgement of a book is the one of its link. */
  lemma {:induction false} BestOfSnapshot(links: seq<Link>, series: int, positions: map<string, Position>, i: nat,
      had: Reading)
    requires OneLinkPerBook(links) && i < |links| && links[i].series == series
    ensures var l := links[i];
            Best(AcksOf(links, series, positions), l.book, had) ==
              if l.book in positions then Raised(had, ReadingOf(l.volume, positions[l.book])) else had
  {
    var front, last := links[..|links| - 1], links[|links| - 1];
    AcksSnoc(links, series, positions);
    if i == |links| - 1 {
      forall l | l in front ensures l.book != last.book {
        var k :| 0 <= k < |front| && front[k] == l;
        assert links[k].book != links[|links| - 1].book;
      }
      BestWithoutLink(front, series, positions, last.book, had);
    } else {
      assert links[i].book != last.book;
      BestOfSnapshot(front, series, positions, i, had);
    }
  }

  /** After a manual edit a link of the entry is pending exactly when it was read, since the snapshot,
      past both the snapshot and what was acknowledged before: reading during the request is never taken
      for acknowledged, and reading before it is never sent again. */
  lemma EditAcknowledgesSnapshot(
      links: seq<Link>, series: int, snapshot: map<string, Position>, now: int, i: nat, later: map<string, Position>)
    requires OneLinkPerBook(links) && i < |links| && links[i].series == series
    ensures var l := links[i];
            var edited := AckAll(links, series, AcksOf(links, series, snapshot), now);
            |edited| == |links| && edited[i].book == l.book &&
            (Pending(edited[i], later) <==>
               && Pending(l, later)
               && (l.book in snapshot ==>
                     var r, s := ReadingOf(l.volume, later[l.book]), ReadingOf(l.volume, snapshot[l.book]);
                     r.step > Max(l.lastStep, s.step) || r.chapter > Max(l.lastChapter, s.chapter)))
  {
    AckAllIsBest(links, series, AcksOf(links, series, snapshot), now, i);
    BestOfSnapshot(links, series, snapshot, i, Known(links[i]));
  }
}
