/** Sorting with a comparison: that there is a sorted permutation, and only one. */
module Sorting {

  predicate Sorted<T>(s: seq<T>, before: (T, T) -> bool) {
    forall i, j :: 0 <= i < j < |s| ==> before(s[i], s[j])
  }

  /** Any two of the elements can be put in order. */
  predicate Comparable<T>(s: seq<T>, before: (T, T) -> bool) {
    forall i, j :: 0 <= i < j < |s| ==> before(s[i], s[j]) || before(s[j], s[i])
  }

  ghost predicate Transitive<T(!new)>(before: (T, T) -> bool) {
    forall x, y, z :: before(x, y) && before(y, z) ==> before(x, z)
  }

  ghost predicate Antisymmetric<T(!new)>(before: (T, T) -> bool) {
    forall x, y :: before(x, y) && before(y, x) ==> x == y
  }

  function Insert<T>(x: T, s: seq<T>, before: (T, T) -> bool): seq<T> {
    if s == [] then [x]
    else if before(s[0], x) then [s[0]] + Insert(x, s[1..], before)
    else [x] + s
  }

  function Sort<T>(s: seq<T>, before: (T, T) -> bool): seq<T> {
    if s == [] then [] else Insert(s[0], Sort(s[1..], before), before)
  }

  lemma {:induction false} InsertKeeps<T>(x: T, s: seq<T>, before: (T, T) -> bool)
    ensures multiset(Insert(x, s, before)) == multiset(s) + multiset{x}
  {
    if s != [] {
      assert s == [s[0]] + s[1..];
      if before(s[0], x) {
        InsertKeeps(x, s[1..], before);
      }
    }
  }

  lemma {:induction false} InsertSorted<T(!new)>(x: T, s: seq<T>, before: (T, T) -> bool)
    requires Transitive(before) && Sorted(s, before)
    requires forall i :: 0 <= i < |s| ==> before(s[i], x) || before(x, s[i])
    ensures Sorted(Insert(x, s, before), before)
    ensures forall y :: y in Insert(x, s, before) ==> y == x || y in s
  {
    if s != [] {
      if before(s[0], x) {
        var tail := s[1..];
        assert forall i :: 0 <= i < |tail| ==> tail[i] == s[i + 1];
        InsertSorted(x, tail, before);
        var rest := Insert(x, tail, before);
        forall j | 0 <= j < |rest| ensures before(s[0], rest[j]) {
          assert rest[j] in rest;
        }
      } else {
        forall j | 0 <= j < |s| ensures before(x, s[j]) {
          assert before(x, s[0]);
        }
      }
    }
  }

  lemma {:induction false} SortKeeps<T>(s: seq<T>, before: (T, T) -> bool)
    ensures multiset(Sort(s, before)) == multiset(s)
  {
    if s != [] {
      assert s == [s[0]] + s[1..];
      SortKeeps(s[1..], before);
      InsertKeeps(s[0], Sort(s[1..], before), before);
    }
  }

  lemma {:induction false} SortSorts<T(!new)>(s: seq<T>, before: (T, T) -> bool)
    requires Transitive(before) && Comparable(s, before)
    ensures Sorted(Sort(s, before), before)
  {
    if s != [] {
      var tail := s[1..];
      assert forall i :: 0 <= i < |tail| ==> tail[i] == s[i + 1];
      SortSorts(tail, before);
      SortKeeps(tail, before);
      var rest := Sort(tail, before);
      forall j | 0 <= j < |rest| ensures before(rest[j], s[0]) || before(s[0], rest[j]) {
        assert rest[j] in multiset(rest);
        assert rest[j] in tail;
        var i :| 0 <= i < |tail| && tail[i] == rest[j];
        assert before(s[0], s[i + 1]) || before(s[i + 1], s[0]);
      }
      InsertSorted(s[0], rest, before);
    }
  }

  lemma LeastFirst<T(!new)>(a: seq<T>, b: seq<T>, before: (T, T) -> bool)
    requires a != [] && b != [] && Sorted(a, before) && Sorted(b, before) && Antisymmetric(before)
    requires a[0] in b && b[0] in a
    ensures a[0] == b[0]
  {
    var i :| 0 <= i < |b| && b[i] == a[0];
    var j :| 0 <= j < |a| && a[j] == b[0];
    if i > 0 && j > 0 {
      assert before(a[0], a[j]) && before(b[0], b[i]);
    }
  }

  /** Sorting has one result: whatever sorts, and whatever order the elements come in. */
  lemma {:induction false} SortUnique<T(!new)>(a: seq<T>, b: seq<T>, before: (T, T) -> bool)
    requires multiset(a) == multiset(b) && Sorted(a, before) && Sorted(b, before) && Antisymmetric(before)
    ensures a == b
  {
    assert |multiset(a)| == |a| && |multiset(b)| == |b|;
    if a != [] {
      assert a[0] in multiset(a) && b[0] in multiset(b);
      LeastFirst(a, b, before);
      assert a == [a[0]] + a[1..] && b == [b[0]] + b[1..];
      assert multiset(a[1..]) == multiset(a) - multiset{a[0]} == multiset(b[1..]);
      SortUnique(a[1..], b[1..], before);
    }
  }
}
