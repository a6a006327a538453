/** Tracking in terms of what the reader's positions say: what an entry at the provider takes on over passes and whole
    runs, what a pass sends, and what a manual edit acknowledges. */
module TrackedPositions {
  import opened Text
  import opened Tracking
  import opened TrackingRuns

  /** A link together with the position of its book. */
  datatype Place = Place(link: Link, pos: Position)

  /** What a pass may report: the links that report by themselves and whose book has a position. */
  ghost function PlacesOf(links: seq<Link>, positions: map<string, Position>): set<Place> {
    set l | l in links && l.auto && l.book in positions :: Place(l, positions[l.book])
  }

  // ---- what may change at the provider ----

  ghost predicate VolumeFrom(places: set<Place>, series: int, volume: real) {
    exists t :: t in places && t.link.series == series && t.pos.fraction >= 0.999 && t.link.volume == volume
  }

  ghost predicate CompletedFrom(places: set<Place>, series: int) {
    exists t :: t in places && t.link.series == series && t.pos.fraction >= 0.999 && t.link.complete
  }

  ghost predicate StartedFrom(places: set<Place>, series: int) {
    exists t :: t in places && t.link.series == series && 0.0 < t.pos.fraction < 0.999
  }

  predicate ChapterIn(t: Place, chapter: real) {
    exists n :: 1 <= n <= MAX_CHAPTER && InChapter(t.link.volume, t.pos, n) && chapter == n as real
  }

  ghost predicate ChapterFrom(places: set<Place>, series: int, chapter: real) {
    exists t :: t in places && t.link.series == series && ChapterIn(t, chapter)
  }

  ghost predicate ReadFrom(places: set<Place>, series: int) {
    || CompletedFrom(places, series) || StartedFrom(places, series)
    || (exists volume :: VolumeFrom(places, series, volume)) || (exists chapter :: ChapterFrom(places, series, chapter))
  }

  /** Every change of an entry is one that these places say: a higher volume is that of a link whose book is finished,
      `completed` needs a finished book that completes the series, an entry leaves the plan for a book that is started,
      a higher chapter is the one of a position (or none, over a negative number), and a new entry is for something
      that was read. */
  ghost predicate Told(places: set<Place>, series: int, before: Option<Remote>, after: Option<Remote>) {
    var b, a := Seen(before), Seen(after);
    && (before.Some? ==> after.Some?)
    && (a.volume != b.volume ==> a.volume > b.volume && VolumeFrom(places, series, a.volume))
    && (a.state != b.state ==>
          || (a.state == "completed" && !Settled(b.state) && CompletedFrom(places, series))
          || (a.state == "reading" && Planned(b.state) && StartedFrom(places, series)))
    && (a.chapter != b.chapter ==>
          a.chapter > b.chapter && (ChapterFrom(places, series, a.chapter) || b.chapter < a.chapter == 0.0))
    && (before.None? && after.Some? ==> ReadFrom(places, series))
  }

  /** A link waits to be sent: it was read past what was acknowledged. */
  ghost predicate Unsent(l: Link, pos: Position) {
    || (pos.fraction > 0.0 && l.lastStep < 1) || (pos.fraction >= 0.999 && l.lastStep < 2)
    || exists n :: InChapter(l.volume, pos, n) && n > l.lastChapter
  }

  ghost predicate Waiting(l: Link, positions: map<string, Position>, now: int) {
    l.auto && l.nextAttempt <= now && l.book in positions && Unsent(l, positions[l.book])
  }

  ghost predicate Long(l: Link, pos: Position) {
    exists n :: InChapter(l.volume, pos, n) && n > MAX_CHAPTER
  }

  lemma PendingIff(l: Link, positions: map<string, Position>)
    ensures Pending(l, positions) <==> l.book in positions && Unsent(l, positions[l.book])
  {
    if l.book in positions {
      ReadingReads(l.volume, positions[l.book]);
      var r := ReadingOf(l.volume, positions[l.book]);
      if r.chapter > l.lastChapter {
        assert InChapter(l.volume, positions[l.book], r.chapter);
      }
    }
  }

  lemma DecideIff(l: Link, positions: map<string, Position>, now: int)
    ensures Decide(l, positions, now).Skip? <==> !Waiting(l, positions, now)
    ensures Decide(l, positions, now).TooLong? <==>
              Waiting(l, positions, now) && Long(l, positions[l.book])
    ensures Decide(l, positions, now).Send? ==>
              Reads(l.volume, positions[l.book], Decide(l, positions, now).reading)
  {
    PendingIff(l, positions);
    if Pending(l, positions) {
      ReadingReads(l.volume, positions[l.book]);
      var r := ReadingOf(l.volume, positions[l.book]);
      if r.chapter > MAX_CHAPTER {
        assert InChapter(l.volume, positions[l.book], r.chapter);
      }
    }
  }

  /** An exchange changes only what the position says, and one that succeeds leaves the entry with all of it. */
  lemma ExchangeTold(l: Link, pos: Position, r: Reading, entry: Option<Remote>, calls: Calls)
    requires calls.edit.None? && Reads(l.volume, pos, r) && Unsent(l, pos) && !Long(l, pos)
    ensures Told({Place(l, pos)}, l.series, entry, Exchange(l, r, entry, calls).entry)
    ensures Exchange(l, r, entry, calls).ok ==> Arrived(l, pos, Exchange(l, r, entry, calls).entry)
  {
    var t := Place(l, pos);
    var after := Exchange(l, r, entry, calls).entry;
    if r.chapter > 0 {
      assert InChapter(l.volume, pos, r.chapter);
      assert r.chapter <= MAX_CHAPTER;
      assert ChapterIn(t, r.chapter as real);
      assert ChapterFrom({t}, l.series, r.chapter as real);
    }
    if r.step == 2 {
      assert VolumeFrom({t}, l.series, l.volume);
      assert l.complete ==> CompletedFrom({t}, l.series);
    }
    if r.step == 1 {
      assert StartedFrom({t}, l.series);
    }
    ExchangeDelivers(l, r, entry, calls);
  }

  /** What an acknowledged position promises about the entry. */
  ghost predicate Arrived(l: Link, pos: Position, entry: Option<Remote>) {
    && (pos.fraction > 0.0 ==> entry.Some?)
    && (0.0 < pos.fraction < 0.999 ==> !Planned(entry.value.state))
    && (pos.fraction >= 0.999 ==> entry.value.volume >= l.volume)
    && (pos.fraction >= 0.999 && l.complete ==> Settled(entry.value.state) || entry.value.state == "completed")
    && (forall n :: InChapter(l.volume, pos, n) ==> entry.Some? && entry.value.chapter >= n as real)
  }

  lemma MoreTold(some: set<Place>, all: set<Place>, series: int, before: Option<Remote>, after: Option<Remote>)
    requires some <= all && Told(some, series, before, after)
    ensures Told(all, series, before, after)
  {
    if before.None? && after.Some? && !CompletedFrom(some, series) && !StartedFrom(some, series) {
      if volume :| VolumeFrom(some, series, volume) {
        assert VolumeFrom(all, series, volume);
      } else {
        var chapter :| ChapterFrom(some, series, chapter);
        assert ChapterFrom(all, series, chapter);
      }
    }
  }

  lemma ToldChain(places: set<Place>, series: int, a: Option<Remote>, b: Option<Remote>, c: Option<Remote>)
    requires Told(places, series, a, b) && Told(places, series, b, c)
    ensures Told(places, series, a, c)
  {
  }

  // ---- one pass ----

  /** An acknowledgement rises only to what the position says. */
  ghost predicate RaisedBy(before: Link, pos: Position, after: Link) {
    && SameIdentity(after, before)
    && (pos.fraction > 0.0 ==> after.lastStep >= 1) && (pos.fraction >= 0.999 ==> after.lastStep >= 2)
    && (forall n :: InChapter(before.volume, pos, n) ==> after.lastChapter >= n)
    && (after.lastStep != before.lastStep ==>
          && after.lastStep > before.lastStep && after.lastStep <= 2
          && (after.lastStep == 2 <==> pos.fraction >= 0.999) && pos.fraction > 0.0)
    && (after.lastChapter != before.lastChapter ==>
          after.lastChapter > before.lastChapter && InChapter(before.volume, pos, after.lastChapter))
  }

  lemma RaisedByReading(l: Link, pos: Position, r: Reading, after: Link)
    requires Reads(l.volume, pos, r) && SameIdentity(after, l) && Known(after) == Raised(Known(l), r)
    ensures RaisedBy(l, pos, after)
  {
  }

  /** What the turn of one link does to it and to the entries. */
  lemma TurnTold(l: Link, remote: map<int, Remote>, p: Pass, series: int)
    requires p.calls.edit.None?
    ensures var t := TurnOf(l, remote, false, p);
            && t.Turn?
            && Told(PlacesOf([l], p.before), series, EntryOf(remote, series), EntryOf(t.remote, series))
            && (Known(t.link) == Known(l) || (l.book in p.before && RaisedBy(l, p.before[l.book], t.link)))
  {
    DecideIff(l, p.before, p.now);
    var d := Decide(l, p.before, p.now);
    if d.Send? {
      var pos := p.before[l.book];
      assert l in [l];
      assert Place(l, pos) in PlacesOf([l], p.before);
      ExchangeTold(l, pos, d.reading, EntryOf(remote, l.series), p.calls);
      MoreTold({Place(l, pos)}, PlacesOf([l], p.before), l.series, EntryOf(remote, l.series),
               Exchange(l, d.reading, EntryOf(remote, l.series), p.calls).entry);
      if Exchange(l, d.reading, EntryOf(remote, l.series), p.calls).ok {
        RaisedByReading(l, pos, d.reading, Acknowledged(l, d.reading, p.now));
      }
    }
  }

  /** After its one exchange a pass leaves the entries and the acknowledgements alone. */
  lemma {:induction false} SentPassIsDone(links: seq<Link>, remote: map<int, Remote>, p: Pass)
    ensures var b := PassOver(links, remote, true, p);
            && b.remote == remote && |b.links| == |links|
            && forall i :: 0 <= i < |links| ==>
                 b.links[i] == links[i] || b.links[i] == Failed(links[i], TOO_LONG, p.now)
    decreases |links|
  {
    if links != [] && TurnOf(links[0], remote, true, p).Turn? {
      SentPassIsDone(links[1..], remote, p);
    }
  }

  ghost predicate AcksTold(links: seq<Link>, after: seq<Link>, positions: map<string, Position>) {
    && |after| == |links|
    && forall i :: 0 <= i < |links| ==>
         || Known(after[i]) == Known(links[i])
         || (links[i].book in positions && RaisedBy(links[i], positions[links[i].book], after[i]))
  }

  /** Whatever the network does, a pass changes an entry and an acknowledgement only to what the positions say. */
  lemma {:induction false} PassTold(links: seq<Link>, remote: map<int, Remote>, p: Pass, series: int)
    requires p.calls.edit.None?
    ensures var b := PassOver(links, remote, false, p);
            && Told(PlacesOf(links, p.before), series, EntryOf(remote, series), EntryOf(b.remote, series))
            && AcksTold(links, b.links, p.before)
    decreases |links|
  {
    if links != [] {
      var t, rest := TurnOf(links[0], remote, false, p), links[1..];
      TurnTold(links[0], remote, p, series);
      assert PlacesOf([links[0]], p.before) <= PlacesOf(links, p.before);
      assert PlacesOf(rest, p.before) <= PlacesOf(links, p.before);
      MoreTold(PlacesOf([links[0]], p.before), PlacesOf(links, p.before), series, EntryOf(remote, series),
               EntryOf(t.remote, series));
      var b := PassOver(rest, t.remote, t.sent, p);
      if t.sent {
        SentPassIsDone(rest, t.remote, p);
        assert b.remote == t.remote && AcksTold(rest, b.links, p.before);
      } else {
        PassTold(rest, t.remote, p, series);
        MoreTold(PlacesOf(rest, p.before), PlacesOf(links, p.before), series, EntryOf(t.remote, series),
                 EntryOf(b.remote, series));
        ToldChain(PlacesOf(links, p.before), series, EntryOf(remote, series), EntryOf(t.remote, series),
                  EntryOf(b.remote, series));
      }
      AcksToldCons(links, t.link, b.links, p.before);
    }
  }

  lemma AcksToldCons(links: seq<Link>, first: Link, rest: seq<Link>, positions: map<string, Position>)
    requires links != [] && AcksTold(links[1..], rest, positions) && AcksTold([links[0]], [first], positions)
    ensures AcksTold(links, [first] + rest, positions)
  {
    forall i | 0 <= i < |links|
      ensures || Known(([first] + rest)[i]) == Known(links[i])
              || (links[i].book in positions && RaisedBy(links[i], positions[links[i].book], ([first] + rest)[i]))
    {
      if i == 0 {
        assert [links[0]][0] == links[0] && [first][0] == first;
      } else {
        assert links[1..][i - 1] == links[i] && ([first] + rest)[i] == rest[i - 1];
      }
    }
  }

  // ---- whole runs ----

  /** All that the passes of a run could read. */
  ghost function PlacesRead(a: Account, events: seq<Event>): set<Place> {
    if events == [] then {}
    else
      var front, last := events[..|events| - 1], events[|events| - 1];
      PlacesRead(a, front) +
      if last.Tick? then PlacesOf(Run(a, front).links, Run(a, front).positions) else {}
  }

  /** Over any automatic run an entry changes only to what the positions said when a pass read them. */
  lemma {:induction false} AutomaticRunTold(a: Account, events: seq<Event>, series: int)
    requires Automatic(events)
    ensures Told(PlacesRead(a, events), series, EntryOf(a.remote, series), EntryOf(Run(a, events).remote, series))
  {
    if events != [] {
      RunStep(a, events);
      var front, e := events[..|events| - 1], events[|events| - 1];
      AutomaticRunTold(a, front, series);
      var mid, after := Run(a, front), Run(a, events);
      MoreTold(PlacesRead(a, front), PlacesRead(a, events), series, EntryOf(a.remote, series),
               EntryOf(mid.remote, series));
      if e.Tick? {
        PassTold(mid.links, mid.remote, Pass(e.now, mid.positions, e.during, e.calls, e.message), series);
        MoreTold(PlacesOf(mid.links, mid.positions), PlacesRead(a, events), series, EntryOf(mid.remote, series),
                 EntryOf(after.remote, series));
      }
      ToldChain(PlacesRead(a, events), series, EntryOf(a.remote, series), EntryOf(mid.remote, series),
                EntryOf(after.remote, series));
    }
  }

  // ---- what a pass sends ----

  /** The pass sends link `i`: it waits and can be sent, and no earlier one is and does. */
  ghost predicate FirstToSend(links: seq<Link>, i: nat, p: Pass) {
    && i < |links| && Waiting(links[i], p.before, p.now) && !Long(links[i], p.before[links[i].book])
    && forall j :: 0 <= j < i ==> Waits(links[j], p) ==> Long(links[j], p.before[links[j].book])
  }

  ghost predicate Waits(l: Link, p: Pass) {
    Waiting(l, p.before, p.now)
  }

  /** What a pass leaves for the link that it sends: delivered and acknowledged when the calls work, and tried again
      after a minute, with nothing acknowledged, when the provider cannot be asked. */
  ghost predicate Sent(l: Link, pos: Position, entry: Option<Remote>, p: Pass, after: Link, now: Option<Remote>) {
    var reached := p.calls.get == Done && (entry.None? ==> p.calls.post == Done);
    && (reached && p.calls.put == Done ==>
          && Arrived(l, pos, now) && RaisedBy(l, pos, after)
          && after.error == "" && after.lastSync == p.now && after.nextAttempt == 0)
    && (!reached ==> after == l.(error := p.message, nextAttempt := p.now + 60))
  }

  lemma SendTold(l: Link, remote: map<int, Remote>, p: Pass)
    requires p.calls.edit.None? && Waiting(l, p.before, p.now) && !Long(l, p.before[l.book])
    ensures var t := TurnOf(l, remote, false, p);
            && t.Turn? && t.sent && (forall s :: s != l.series ==> EntryOf(t.remote, s) == EntryOf(remote, s))
            && Sent(l, p.before[l.book], EntryOf(remote, l.series), p, t.link, EntryOf(t.remote, l.series))
  {
    DecideIff(l, p.before, p.now);
    var r := Decide(l, p.before, p.now).reading;
    ExchangeTold(l, p.before[l.book], r, EntryOf(remote, l.series), p.calls);
    RaisedByReading(l, p.before[l.book], r, Acknowledged(l, r, p.now));
  }

  /** The pass sent link `i` and no other one. */
  ghost predicate PassSent(links: seq<Link>, remote: map<int, Remote>, p: Pass, i: nat, b: Books)
    requires i < |links| && links[i].book in p.before
  {
    var l := links[i];
    && |b.links| == |links|
    && Sent(l, p.before[l.book], EntryOf(remote, l.series), p, b.links[i], EntryOf(b.remote, l.series))
    && (forall s :: s != l.series ==> EntryOf(b.remote, s) == EntryOf(remote, s))
    && (forall j :: 0 <= j < |links| && j != i ==>
          b.links[j] == links[j] || b.links[j] == Failed(links[j], TOO_LONG, p.now))
  }

  lemma PassSentFirst(links: seq<Link>, remote: map<int, Remote>, p: Pass)
    requires p.calls.edit.None? && FirstToSend(links, 0, p)
    ensures PassSent(links, remote, p, 0, PassOver(links, remote, false, p))
  {
    SendTold(links[0], remote, p);
    SentPassIsDone(links[1..], TurnOf(links[0], remote, false, p).remote, p);
  }

  lemma PassSentLater(links: seq<Link>, remote: map<int, Remote>, p: Pass, i: nat, first: Link, rest: Books)
    requires 0 < i < |links| && links[i].book in p.before && PassSent(links[1..], remote, p, i - 1, rest)
    requires first == links[0] || first == Failed(links[0], TOO_LONG, p.now)
    ensures PassSent(links, remote, p, i, Books([first] + rest.links, rest.remote))
  {
    var all := [first] + rest.links;
    forall j | 0 <= j < |links| && j != i ensures all[j] == links[j] || all[j] == Failed(links[j], TOO_LONG, p.now) {
      if j > 0 {
        assert links[1..][j - 1] == links[j] && all[j] == rest.links[j - 1];
      }
    }
  }

  /** A pass sends the first link that waits and can be sent, and no other one. */
  lemma {:induction false} PassSends(links: seq<Link>, remote: map<int, Remote>, p: Pass, i: nat)
    requires p.calls.edit.None? && FirstToSend(links, i, p)
    ensures PassSent(links, remote, p, i, PassOver(links, remote, false, p))
    decreases i
  {
    if i == 0 {
      PassSentFirst(links, remote, p);
    } else {
      var rest := links[1..];
      DecideIff(links[0], p.before, p.now);
      assert Waits(links[0], p) ==> Long(links[0], p.before[links[0].book]);
      forall j | 0 <= j < i - 1 && Waits(rest[j], p) ensures Long(rest[j], p.before[rest[j].book]) {
        assert rest[j] == links[j + 1];
      }
      PassSends(rest, remote, p, i - 1);
      PassSentLater(links, remote, p, i, TurnOf(links[0], remote, false, p).link, PassOver(rest, remote, false, p));
    }
  }

  // ---- manual edits ----

  /** An edit raises the acknowledgements of the entry's links to exactly what the positions said at the snapshot, and
      no other ones. */
  lemma EditRaises(links: seq<Link>, series: int, snapshot: map<string, Position>, now: int, i: nat)
    requires OneLinkPerBook(links) && i < |links|
    ensures var l, edited := links[i], AckAll(links, series, AcksOf(links, series, snapshot), now);
            && |edited| == |links|
            && if l.series == series && l.book in snapshot then RaisedBy(l, snapshot[l.book], edited[i])
               else SameIdentity(edited[i], l) && Known(edited[i]) == Known(l)
  {
    var l := links[i];
    AckAllIsBest(links, series, AcksOf(links, series, snapshot), now, i);
    if l.series == series {
      BestOfSnapshot(links, series, snapshot, i, Known(l));
      if l.book in snapshot {
        ReadingReads(l.volume, snapshot[l.book]);
        RaisedByReading(l, snapshot[l.book], ReadingOf(l.volume, snapshot[l.book]),
                        AckAll(links, series, AcksOf(links, series, snapshot), now)[i]);
      }
    }
  }
}
