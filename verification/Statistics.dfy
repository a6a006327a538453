/** Reading activity (internal/server/statistics.go): the canonical form of an activity, and the immutable,
    numbered history that devices merge into and read from. */
module Statistics {
  import opened Text
  import Operations
  import Sorting

  /** Times, counts and chapters as they were decoded; no chapters at all is different from none read. */
  datatype Activity = Activity(
    id: string, book: string, started: int, ended: int, active: int, words: int, sampled: int,
    chapters: Option<seq<int>>, volume: Option<real>, finished: bool, baseline: bool, through: Option<int>)

  // ---- canonical form ----

  predicate IsActivityId(s: string) {
    && |s| == 36 && s[8] == '-' && s[13] == '-' && s[18] == '-' && s[23] == '-'
    && forall i :: 0 <= i < 36 ==> i in {8, 13, 18, 23} || Operations.IsHex(s[i]) || 'A' <= s[i] <= 'F'
  }

  predicate FieldsOk(a: Activity) {
    && IsActivityId(a.id) && Operations.IsBookId(a.book)
    && 0 <= a.started <= a.ended <= 8640000000000000 && a.ended - a.started <= 300000
    && 0 <= a.active <= a.ended - a.started && 0 <= a.sampled <= a.active && 0 <= a.words <= 100000
    && a.chapters.Some? && |a.chapters.value| <= 1000
    && (a.volume.Some? ==> 0.0 < a.volume.value <= 100000.0)
    && (a.words > 0 ==> a.sampled > 0)
    && (a.baseline ==> a.started == a.ended && a.active == 0 && a.words == 0 && a.sampled == 0)
    && (a.through.Some? ==> a.baseline && 1 <= a.through.value <= 100000)
  }

  predicate ChaptersOk(chapters: seq<int>) {
    && (forall n :: n in chapters ==> 1 <= n <= 100000)
    && forall i, j :: 0 <= i < j < |chapters| ==> chapters[i] != chapters[j]
  }

  /** The accepted activities: chapters in any order, each once. */
  predicate ActivityOk(a: Activity) {
    FieldsOk(a) && ChaptersOk(a.chapters.value)
  }

  function UpTo(): (int, int) -> bool {
    (a, b) => a <= b
  }

  predicate Ordered(s: seq<int>) {
    Sorting.Sorted(s, UpTo())
  }

  /** `sort.Ints`. */
  function Sort(s: seq<int>): seq<int> {
    Sorting.Sort(s, UpTo())
  }

  lemma SortSorts(s: seq<int>)
    ensures multiset(Sort(s)) == multiset(s) && Ordered(Sort(s))
  {
    Sorting.SortKeeps(s, UpTo());
    Sorting.SortSorts(s, UpTo());
  }

  lemma OrderedUnique(a: seq<int>, b: seq<int>)
    requires multiset(a) == multiset(b) && Ordered(a) && Ordered(b)
    ensures a == b
  {
    Sorting.SortUnique(a, b, UpTo());
  }

  function Canonical(a: Activity): Option<Activity> {
    if ActivityOk(a) then Some(a.(chapters := Some(Sort(a.chapters.value)))) else None
  }

  /** In order, all different chapters means no two neighbours alike. */
  lemma {:induction false} NeighboursDiffer(s: seq<int>)
    requires Ordered(s)
    ensures (forall i, j :: 0 <= i < j < |s| ==> s[i] != s[j]) <==> forall i :: 0 < i < |s| ==> s[i] != s[i - 1]
  {
    if forall i :: 0 < i < |s| ==> s[i] != s[i - 1] {
      forall i, j | 0 <= i < j < |s| ensures s[i] != s[j] {
        assert s[j] != s[j - 1] && s[i] <= s[j - 1];
      }
    }
  }

  lemma {:induction false} DistinctOnce(s: seq<int>, n: int)
    requires forall i, j :: 0 <= i < j < |s| ==> s[i] != s[j]
    ensures multiset(s)[n] <= 1
  {
    if s != [] {
      var front, last := s[..|s| - 1], s[|s| - 1];
      assert s == front + [last];
      DistinctOnce(front, n);
      assert last !in front;
    }
  }

  lemma TwiceIsTwo(s: seq<int>, i: nat, j: nat)
    requires i < j < |s| && s[i] == s[j]
    ensures multiset(s)[s[i]] >= 2
  {
    assert s == s[..j] + s[j..];
    assert s[..j][i] in s[..j] && s[j..][0] in s[j..];
  }

  lemma ReorderedDistinct(a: seq<int>, b: seq<int>)
    requires multiset(a) == multiset(b) && forall i, j :: 0 <= i < j < |a| ==> a[i] != a[j]
    ensures forall i, j :: 0 <= i < j < |b| ==> b[i] != b[j]
  {
    forall i, j | 0 <= i < j < |b| ensures b[i] != b[j] {
      if b[i] == b[j] {
        TwiceIsTwo(b, i, j);
        DistinctOnce(a, b[i]);
      }
    }
  }

  lemma ReorderedChaptersOk(a: seq<int>, b: seq<int>)
    requires multiset(a) == multiset(b)
    ensures ChaptersOk(a) <==> ChaptersOk(b)
  {
    if forall i, j :: 0 <= i < j < |a| ==> a[i] != a[j] {
      ReorderedDistinct(a, b);
    } else if forall i, j :: 0 <= i < j < |b| ==> b[i] != b[j] {
      ReorderedDistinct(b, a);
    }
    forall n: int ensures n in a <==> n in b {
      assert n in a <==> n in multiset(a);
      assert n in b <==> n in multiset(b);
    }
  }

  /** `canonicalActivity`: the check of the sorted copy is the check of the chapters in any order. */
  method CanonicalActivity(a: Activity) returns (out: Option<Activity>)
    ensures out == Canonical(a)
    ensures out.Some? ==> Ordered(out.value.chapters.value)
  {
    var ok := CheckFields(a);
    if !ok {
      return None;
    }
    var sorted := Sort(a.chapters.value);
    SortSorts(a.chapters.value);
    ReorderedChaptersOk(sorted, a.chapters.value);
    ok := CheckSorted(sorted);
    return if ok then Some(a.(chapters := Some(sorted))) else None;
  }

  method CheckSorted(sorted: seq<int>) returns (ok: bool)
    requires Ordered(sorted)
    ensures ok <==> ChaptersOk(sorted)
  {
    NeighboursDiffer(sorted);
    for i := 0 to |sorted|
      invariant forall k :: 0 <= k < i ==> 1 <= sorted[k] <= 100000 && (k > 0 ==> sorted[k] != sorted[k - 1])
    {
      assert sorted[i] in sorted;
      if sorted[i] < 1 || sorted[i] > 100000 || (i > 0 && sorted[i] == sorted[i - 1]) {
        return false;
      }
    }
    return true;
  }

  method CheckFields(a: Activity) returns (ok: bool)
    ensures ok <==> FieldsOk(a)
  {
    if !IsActivityId(a.id) || !Operations.IsBookId(a.book) || a.started < 0 || a.ended < a.started
        || a.ended > 8640000000000000
       || a.ended - a.started > 300000 || a.active < 0 || a.active > a.ended - a.started || a.sampled < 0
       || a.sampled > a.active || a.words < 0 || a.words > 100000 || a.chapters.None? || |a.chapters.value| > 1000 {
      return false;
    }
    if a.volume.Some? && (a.volume.value <= 0.0 || a.volume.value > 100000.0) {
      return false;
    }
    if a.words > 0 && a.sampled == 0 {
      return false;
    }
    if a.baseline && (a.started != a.ended || a.active != 0 || a.words != 0 || a.sampled != 0) {
      return false;
    }
    return a.through.None? || (a.baseline && 1 <= a.through.value <= 100000);
  }

  /** Two activities are the same but for the order of their chapters. */
  predicate Reordered(a: Activity, b: Activity) {
    && a.chapters.Some? && b.chapters.Some? && multiset(a.chapters.value) == multiset(b.chapters.value)
    && a == b.(chapters := a.chapters)
  }

  /** Canonical forms agree exactly for reorderings. */
  lemma CanonicalIffReordered(a: Activity, b: Activity)
    requires Canonical(a).Some?
    ensures Canonical(a) == Canonical(b) <==> Reordered(a, b)
  {
    SortSorts(a.chapters.value);
    if b.chapters.Some? {
      SortSorts(b.chapters.value);
      if Reordered(a, b) {
        assert |multiset(a.chapters.value)| == |a.chapters.value| && |multiset(b.chapters.value)| == |b.chapters.value|;
        ReorderedChaptersOk(a.chapters.value, b.chapters.value);
        OrderedUnique(Sort(a.chapters.value), Sort(b.chapters.value));
      }
    }
  }

  /** The canonical form is its own. */
  lemma CanonicalIdempotent(a: Activity)
    requires Canonical(a).Some?
    ensures Canonical(Canonical(a).value) == Canonical(a)
  {
    SortSorts(a.chapters.value);
    CanonicalIffReordered(a, Canonical(a).value);
  }

  // ---- the history ----

  function Ids(log: seq<Activity>): set<string> {
    set a | a in log :: a.id
  }

  /** One activity: new, already there, or in conflict with the one there. */
  function MergeOne(log: seq<Activity>, a: Activity): Option<seq<Activity>> {
    if a.id !in Ids(log) then Some(log + [a]) else if a in log then Some(log) else None
  }

  function Merge(log: seq<Activity>, batch: seq<Activity>): Option<seq<Activity>> {
    if batch == [] then Some(log)
    else
      match Merge(log, batch[..|batch| - 1])
      case None => None
      case Some(merged) => MergeOne(merged, batch[|batch| - 1])
  }

  predicate DistinctIds(log: seq<Activity>) {
    forall i, j :: 0 <= i < j < |log| ==> log[i].id != log[j].id
  }

  lemma OneAppends(log: seq<Activity>, a: Activity)
    requires MergeOne(log, a).Some? && DistinctIds(log)
    ensures var merged := MergeOne(log, a).value;
            log <= merged && DistinctIds(merged) && forall x :: x in merged <==> x in log || x == a
  {
    if a.id !in Ids(log) {
      forall i | 0 <= i < |log| ensures log[i].id != a.id {
        assert log[i] in log;
      }
    }
  }

  /** Merging appends: what was there keeps its cursor and content, identities stay unique, and exactly the
      batch comes in. */
  lemma {:induction false} MergeAppends(log: seq<Activity>, batch: seq<Activity>)
    requires Merge(log, batch).Some? && DistinctIds(log)
    ensures var merged := Merge(log, batch).value;
            && log <= merged && DistinctIds(merged)
            && forall a :: a in merged <==> a in log || a in batch
  {
    if batch != [] {
      var front, last := batch[..|batch| - 1], batch[|batch| - 1];
      assert batch == front + [last];
      MergeAppends(log, front);
      OneAppends(Merge(log, front).value, last);
    }
  }

  /** A batch fails exactly when two different activities with one identity meet, in the history or in the
      batch itself. */
  lemma {:induction false} MergeFailsIff(log: seq<Activity>, batch: seq<Activity>)
    requires DistinctIds(log)
    ensures Merge(log, batch).None? <==>
              exists a, b :: a in batch && (b in log || b in batch) && a.id == b.id && a != b
  {
    if batch != [] {
      var front, last := batch[..|batch| - 1], batch[|batch| - 1];
      MergeFailsIff(log, front);
      assert batch == front + [last];
      if Merge(log, front).Some? {
        MergeAppends(log, front);
        var before := Merge(log, front).value;
        if last.id in Ids(before) {
          var b :| b in before && b.id == last.id;
          if last in before {
            SameIdSame(before, b, last);
          }
        }
        if a, b :| a in batch && (b in log || b in batch) && a.id == b.id && a != b {
          assert a in before || a == last;
          assert b in before || b == last;
          if a in before && b in before {
            SameIdSame(before, a, b);
          } else if a == last && last in before {
            SameIdSame(before, last, b);
          }
        }
      }
    }
  }

  lemma SameIdSame(log: seq<Activity>, a: Activity, b: Activity)
    requires DistinctIds(log) && a in log && b in log && a.id == b.id
    ensures a == b
  {
    var i :| 0 <= i < |log| && log[i] == a;
    var j :| 0 <= j < |log| && log[j] == b;
  }

  /** Sending activities again that are in the history adds nothing, in any order and however often. */
  lemma {:induction false} KnownAddNothing(log: seq<Activity>, batch: seq<Activity>)
    requires forall a :: a in batch ==> a in log
    ensures Merge(log, batch) == Some(log)
  {
    if batch != [] {
      KnownAddNothing(log, batch[..|batch| - 1]);
      assert batch[|batch| - 1] in batch;
    }
  }
}
