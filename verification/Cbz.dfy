/** CBZ archives (internal/server/formats.go): the pass in name order, what it shares with the inspection of other
    comics, and the bounds on ZIP containers. */
module Cbz {
  import opened Text
  import Avif
  import opened Comics

  predicate Sorted(members: seq<Member>) {
    forall i, j :: 0 <= i < j < |members| ==> Less(members[i].name, members[j].name)
  }

  /** `readMember`: nothing when the member is over the limit or its stream does not hold its size. */
  function ReadMember(m: Member, limit: nat): Option<Avif.Buffer> {
    if m.size > limit || |m.content| != m.size then None else Some(m.content)
  }

  predicate Usable(m: Member, role: Role, d: Decoders) {
    match role
    case Cover => d.isImage(m.name) && ReadMember(m, 8 * MiB).Some? && d.thumbnail(m.content) != ""
    case Record => d.isInfo(m.name) && ReadMember(m, MiB).Some? && d.parse(m.content).Some?
  }

  function FirstUsable(members: seq<Member>, role: Role, d: Decoders): Option<Member> {
    if members == [] then None
    else
      var first, last := FirstUsable(members[..|members| - 1], role, d), members[|members| - 1];
      if first.None? && Usable(last, role, d) then Some(last) else first
  }

  function LastUsable(members: seq<Member>, role: Role, d: Decoders): Option<Member> {
    if members == [] then None
    else
      var last := members[|members| - 1];
      if Usable(last, role, d) then Some(last) else LastUsable(members[..|members| - 1], role, d)
  }

  /** The loop of `formatMetadata` over the sorted members. */
  method CbzMetadata(members: seq<Member>, d: Decoders) returns (out: Metadata)
    ensures out == Metadata(CoverOf(FirstUsable(members, Cover, d), d), RecordOf(LastUsable(members, Record, d), d))
  {
    out := Metadata("", Info("", "", ""));
    for i := 0 to |members|
      invariant out.cover == CoverOf(FirstUsable(members[..i], Cover, d), d)
      invariant out.cover == "" <==> FirstUsable(members[..i], Cover, d).None?
      invariant out.info == RecordOf(LastUsable(members[..i], Record, d), d)
    {
      var m := members[i];
      assert members[..i + 1][..i] == members[..i];
      if out.cover == "" && d.isImage(m.name) {
        var image := ReadMember(m, 8 * MiB);
        if image.Some? {
          out := out.(cover := d.thumbnail(image.value));
        }
      }
      if d.isInfo(m.name) {
        var file := ReadMember(m, MiB);
        if file.Some? {
          var info := d.parse(file.value);
          if info.Some? {
            out := out.(info := info.value);
          }
        }
      }
    }
    assert members[..|members|] == members;
  }

  /** Every stream holds its size, and no record is over its limit: what the inspection checks. */
  predicate AllReadable(members: seq<Member>, d: Decoders) {
    forall m :: m in members ==> |m.content| == m.size && (d.isInfo(m.name) ==> m.size <= MiB)
  }

  lemma ReadableIsUsable(members: seq<Member>, m: Member, role: Role, d: Decoders)
    requires AllReadable(members, d) && m in members
    ensures Usable(m, role, d) <==> Good(m, role, d)
  {
  }

  lemma {:induction false} FirstIsLeast(members: seq<Member>, role: Role, d: Decoders)
    requires Sorted(members) && AllReadable(members, d)
    ensures FirstUsable(members, role, d) == Kept(members, role, d)
  {
    if members != [] {
      var front, last := members[..|members| - 1], members[|members| - 1];
      assert forall m :: m in front ==> m in members;
      FirstIsLeast(front, role, d);
      KeptIsLeast(front, role, d);
      ReadableIsUsable(members, last, role, d);
      var kept := Kept(front, role, d);
      if kept.Some? {
        var i :| 0 <= i < |front| && front[i] == kept.value;
        assert Less(members[i].name, last.name);
        if Less(last.name, kept.value.name) {
          LessTransitive(last.name, kept.value.name, last.name);
          LessIrreflexive(last.name);
        }
      }
    }
  }

  lemma InspectedReadable(members: seq<Member>, stored: nat, d: Decoders)
    requires Inspected(members, stored, d).Some?
    ensures AllReadable(members, d)
  {
    forall m | m in members ensures |m.content| == m.size && (d.isInfo(m.name) ==> m.size <= MiB) {
      assert ContentOk(m, d) && HeaderOk(m, d);
    }
  }

  /** On the same members, sorting and taking the first cover gives the cover of the one-pass minimum
      over any order. */
  lemma SortedCoverIsMinimum(members: seq<Member>, sorted: seq<Member>, stored: nat, d: Decoders)
    requires multiset(sorted) == multiset(members) && Sorted(sorted) && Inspected(members, stored, d).Some?
    ensures CoverOf(FirstUsable(sorted, Cover, d), d) == Inspected(members, stored, d).value.cover
  {
    InspectionOrderFree(members, sorted, stored, d);
    InspectedReadable(sorted, stored, d);
    FirstIsLeast(sorted, Cover, d);
  }

  // ---- the two choices of a record ----

  predicate IsFirst(members: seq<Member>, d: Decoders, i: nat) {
    i < |members| && Usable(members[i], Record, d) && forall k :: 0 <= k < i ==> !Usable(members[k], Record, d)
  }

  predicate IsLast(members: seq<Member>, d: Decoders, j: nat) {
    j < |members| && Usable(members[j], Record, d) && forall k :: j < k < |members| ==> !Usable(members[k], Record, d)
  }

  lemma {:induction false} FirstAt(members: seq<Member>, d: Decoders) returns (i: nat)
    ensures match FirstUsable(members, Record, d)
            case None => forall k :: 0 <= k < |members| ==> !Usable(members[k], Record, d)
            case Some(m) => IsFirst(members, d, i) && members[i] == m
  {
    i := 0;
    if members != [] {
      var front := members[..|members| - 1];
      i := FirstAt(front, d);
      if FirstUsable(front, Record, d).None? {
        assert forall k :: 0 <= k < |front| ==> members[k] == front[k];
        i := |members| - 1;
      }
    }
  }

  lemma {:induction false} LastAt(members: seq<Member>, d: Decoders) returns (j: nat)
    ensures match LastUsable(members, Record, d)
            case None => forall k :: 0 <= k < |members| ==> !Usable(members[k], Record, d)
            case Some(m) => IsLast(members, d, j) && members[j] == m
  {
    j := 0;
    if members != [] {
      var front, last := members[..|members| - 1], members[|members| - 1];
      if Usable(last, Record, d) {
        j := |members| - 1;
      } else {
        j := LastAt(front, d);
        assert forall k :: 0 <= k < |front| ==> members[k] == front[k];
      }
    }
  }

  lemma OneFirst(members: seq<Member>, d: Decoders, i: nat, k: nat)
    requires IsFirst(members, d, i) && IsFirst(members, d, k)
    ensures i == k
  {
  }

  lemma OneLast(members: seq<Member>, d: Decoders, j: nat, k: nat)
    requires IsLast(members, d, j) && IsLast(members, d, k)
    ensures j == k
  {
  }

  /** The first and the last record by name, if there is one, parse alike. */
  ghost predicate EndsAlike(sorted: seq<Member>, d: Decoders) {
    forall i: nat, j: nat :: IsFirst(sorted, d, i) && IsLast(sorted, d, j) ==>
      d.parse(sorted[i].content) == d.parse(sorted[j].content)
  }

  lemma EndsAgree(sorted: seq<Member>, d: Decoders)
    ensures RecordOf(LastUsable(sorted, Record, d), d) == RecordOf(FirstUsable(sorted, Record, d), d) <==>
              EndsAlike(sorted, d)
  {
    var first := FirstAt(sorted, d);
    var last := LastAt(sorted, d);
    if FirstUsable(sorted, Record, d).Some? {
      forall i: nat, j: nat | IsFirst(sorted, d, i) && IsLast(sorted, d, j) ensures i == first && j == last {
        OneFirst(sorted, d, i, first);
        OneLast(sorted, d, j, last);
      }
    }
  }

  /** The two paths choose a record by different rules: the sorted pass keeps the last one that parses, the inspection
      the one with the least name. On one archive they show the same exactly when the first and the last record by
      name parse alike; so also when there is at most one. */
  lemma RecordsAgreeIff(members: seq<Member>, sorted: seq<Member>, stored: nat, d: Decoders)
    requires multiset(sorted) == multiset(members) && Sorted(sorted) && Inspected(members, stored, d).Some?
    ensures RecordOf(LastUsable(sorted, Record, d), d) == Inspected(members, stored, d).value.info <==>
              EndsAlike(sorted, d)
  {
    InspectionOrderFree(members, sorted, stored, d);
    InspectedReadable(sorted, stored, d);
    FirstIsLeast(sorted, Record, d);
    EndsAgree(sorted, d);
  }

  // ---- the ZIP budget ----

  function RawNames(members: seq<Member>): set<string> {
    set m | m in members :: m.name
  }

  predicate ZipMemberOk(m: Member, d: Decoders) {
    TrimSlash(m.name) != "" && d.zipNameOk(m.name) && m.mode != Symlink && !m.encrypted
  }

  /** Different names, each allowed, and a true sum within the budget. */
  predicate ZipWithin(members: seq<Member>, budget: nat, d: Decoders) {
    && |RawNames(members)| == |members| && Sizes(members) <= budget
    && forall m :: m in members ==> ZipMemberOk(m, d)
  }

  predicate ZipOk(members: seq<Member>, stored: int, d: Decoders) {
    0 <= stored <= MAX_STORED && |members| <= MAX_MEMBERS && ZipWithin(members, stored + EXPANSION, d)
  }

  lemma {:induction false} SizesGrow(members: seq<Member>, n: nat)
    requires n <= |members|
    ensures Sizes(members[..n]) <= Sizes(members)
  {
    assert members == members[..n] + members[n..];
    SizesConcat(members[..n], members[n..]);
  }

  lemma {:induction false} RawNamesRepeat(members: seq<Member>, n: nat)
    requires n < |members| && members[n].name in RawNames(members[..n])
    ensures |RawNames(members)| < |members|
  {
    var rest := members[..n] + members[n + 1..];
    assert RawNames(members) == RawNames(rest) by {
      forall m | m in members ensures m.name in RawNames(rest) {
        var k :| 0 <= k < |members| && members[k] == m;
        if k == n {
          var j :| 0 <= j < n && members[j].name == m.name;
          assert rest[j] == members[j];
        } else {
          assert rest[if k < n then k else k - 1] == m;
        }
      }
    }
    RawNamesBounded(rest);
  }

  lemma {:induction false} RawNamesBounded(members: seq<Member>)
    ensures |RawNames(members)| <= |members|
  {
    if members != [] {
      var front, last := members[..|members| - 1], members[|members| - 1];
      RawNamesBounded(front);
      assert members == front + [last];
      assert RawNames(members) == RawNames(front) + {last.name};
    }
  }

  /** What the loop knows after some members. */
  ghost predicate ZipSoFar(front: seq<Member>, total: nat, seen: set<string>, budget: nat, d: Decoders) {
    total == Sizes(front) && seen == RawNames(front) && ZipWithin(front, budget, d)
  }

  predicate ZipAdmits(m: Member, total: nat, seen: set<string>, budget: nat, d: Decoders) {
    m.name !in seen && ZipMemberOk(m, d) && total + m.size <= budget
  }

  lemma ZipSnoc(front: seq<Member>, m: Member)
    ensures Sizes(front + [m]) == Sizes(front) + m.size && RawNames(front + [m]) == RawNames(front) + {m.name}
  {
    assert (front + [m])[..|front|] == front;
  }

  lemma ZipAdmitted(front: seq<Member>, m: Member, total: nat, seen: set<string>, budget: nat, d: Decoders)
    requires ZipSoFar(front, total, seen, budget, d) && ZipAdmits(m, total, seen, budget, d)
    ensures ZipSoFar(front + [m], total + m.size, seen + {m.name}, budget, d)
  {
    ZipSnoc(front, m);
  }

  lemma TooLarge(members: seq<Member>, n: nat, budget: nat)
    requires n < |members| && Sizes(members[..n]) + members[n].size > budget
    ensures Sizes(members) > budget
  {
    assert members[..n + 1] == members[..n] + [members[n]];
    ZipSnoc(members[..n], members[n]);
    SizesGrow(members, n + 1);
  }

  lemma ZipRefused(members: seq<Member>, n: nat, total: nat, seen: set<string>, budget: nat, d: Decoders)
    requires n < |members| && ZipSoFar(members[..n], total, seen, budget, d)
    requires !ZipAdmits(members[n], total, seen, budget, d)
    ensures !ZipWithin(members, budget, d)
  {
    if members[n].name in seen {
      RawNamesRepeat(members, n);
    } else if total + members[n].size > budget {
      TooLarge(members, n, budget);
    } else {
      assert members[n] in members && !ZipMemberOk(members[n], d);
    }
  }

  /** The checks of one entry, with the running difference on 64-bit unsigned numbers. */
  method ZipTurn(m: Member, total: nat, seen: set<string>, budget: nat, d: Decoders) returns (ok: bool, next: nat)
    requires total <= budget < U64 && m.size < U64
    ensures ok <==> ZipAdmits(m, total, seen, budget, d)
    ensures ok ==> next == total + m.size <= budget
  {
    NoWrap(total, budget, m.size);
    if m.name in seen || TrimSlash(m.name) == "" || !d.zipNameOk(m.name) || m.mode == Symlink || m.encrypted {
      return false, total;
    }
    if m.size > (budget - total + U64) % U64 {
      return false, total;
    }
    return true, (total + m.size) % U64;
  }

  /** The loop of `validateArchive`. */
  method ZipEntries(members: seq<Member>, budget: nat, d: Decoders) returns (ok: bool)
    requires budget < U64 && forall m :: m in members ==> m.size < U64
    ensures ok <==> ZipWithin(members, budget, d)
  {
    var total: nat := 0;
    var seen: set<string> := {};
    for i := 0 to |members|
      invariant ZipSoFar(members[..i], total, seen, budget, d)
    {
      assert members[i] in members && members[..i + 1] == members[..i] + [members[i]];
      var admitted, next := ZipTurn(members[i], total, seen, budget, d);
      if !admitted {
        ZipRefused(members, i, total, seen, budget, d);
        return false;
      }
      ZipAdmitted(members[..i], members[i], total, seen, budget, d);
      total, seen := next, seen + {members[i].name};
    }
    assert members[..|members|] == members;
    return true;
  }

  method ValidateWithRules(members: seq<Member>, stored: int, d: Decoders) returns (ok: bool)
    requires forall m :: m in members ==> m.size < U64
    ensures ok <==> ZipOk(members, stored, d)
  {
    if stored < 0 || stored > MAX_STORED || |members| > MAX_MEMBERS {
      return false;
    }
    ok := ZipEntries(members, stored + EXPANSION, d);
  }

  /** `validateArchive`, with the program's rule on names: the running difference never wraps, so the budget is on the
      true sum. */
  method ValidateArchive(members: seq<Member>, stored: int, d: Decoders) returns (ok: bool)
    requires forall m :: m in members ==> m.size < U64
    ensures ok <==> ZipOk(members, stored, WithProgramRules(d))
  {
    ok := ValidateWithRules(members, stored, WithProgramRules(d));
  }
}
