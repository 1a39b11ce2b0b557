/** What the standard library's sorts promise: the same elements, in order. */
module Sorting {

  ghost predicate TotalOrder<T(!new)>(le: (T, T) -> bool) {
    && (forall a, b :: le(a, b) || le(b, a))
    && (forall a, b, c :: le(a, b) && le(b, c) ==> le(a, c))
  }

  ghost predicate SortedBy<T(!new)>(s: seq<T>, le: (T, T) -> bool) {
    forall i, j :: 0 <= i < j < |s| ==> le(s[i], s[j])
  }

  /** Putting the largest element after a sorted list. */
  lemma SortedThenLargest<T(!new)>(s: seq<T>, last: T, le: (T, T) -> bool)
    requires SortedBy(s, le) && forall x :: x in multiset(s) ==> le(x, last)
    ensures SortedBy(s + [last], le)
  {
    forall i | 0 <= i < |s|
      ensures le(s[i], last)
    {
      assert s[i] in multiset(s);
    }
  }

  lemma LastIsLargest<T(!new)>(s: seq<T>, x: T, r: seq<T>, le: (T, T) -> bool)
    requires TotalOrder(le) && SortedBy(s, le) && s != [] && le(x, s[|s| - 1])
    requires multiset(r) == multiset(s[..|s| - 1]) + multiset{x}
    ensures forall y :: y in multiset(r) ==> le(y, s[|s| - 1])
  {
    forall y | y in multiset(r)
      ensures le(y, s[|s| - 1])
    {
      if y != x {
        assert y in s[..|s| - 1];
      }
    }
  }

  lemma MultisetOfInserted<T>(s: seq<T>, r: seq<T>, x: T)
    requires s != [] && multiset(r) == multiset(s[..|s| - 1]) + multiset{x}
    ensures multiset(r + [s[|s| - 1]]) == multiset(s) + multiset{x}
  {
    assert s == s[..|s| - 1] + [s[|s| - 1]];
  }

  lemma MultisetPlus<T>(s: seq<T>, x: T)
    ensures multiset(s + [x]) == multiset(s) + multiset{x}
  {
  }

  lemma SortedThenNext<T(!new)>(s: seq<T>, x: T, le: (T, T) -> bool)
    requires TotalOrder(le) && SortedBy(s, le) && (s == [] || le(s[|s| - 1], x))
    ensures SortedBy(s + [x], le)
  {
    forall i | 0 <= i < |s|
      ensures le(s[i], x)
    {
      assert i < |s| - 1 ==> le(s[i], s[|s| - 1]);
    }
  }

  lemma PrefixSorted<T(!new)>(s: seq<T>, le: (T, T) -> bool)
    requires SortedBy(s, le) && s != []
    ensures SortedBy(s[..|s| - 1], le)
  {
  }

  function Insert<T(!new)>(s: seq<T>, x: T, le: (T, T) -> bool): (r: seq<T>)
    requires TotalOrder(le) && SortedBy(s, le)
    ensures SortedBy(r, le)
    ensures multiset(r) == multiset(s) + multiset{x}
    ensures |r| == |s| + 1
  {
    hide SortedBy, TotalOrder;
    if s == [] || le(s[|s| - 1], x) then
      SortedThenNext(s, x, le);
      MultisetPlus(s, x);
      s + [x]
    else
      OtherWayRound(x, s[|s| - 1], le);
      PrefixSorted(s, le);
      var r := Insert(s[..|s| - 1], x, le);
      LastIsLargest(s, x, r, le);
      SortedThenLargest(r, s[|s| - 1], le);
      MultisetOfInserted(s, r, x);
      r + [s[|s| - 1]]
  }

  lemma OtherWayRound<T(!new)>(x: T, y: T, le: (T, T) -> bool)
    requires TotalOrder(le) && !le(y, x)
    ensures le(x, y)
  {
  }

  function Sort<T(!new)>(s: seq<T>, le: (T, T) -> bool): (r: seq<T>)
    requires TotalOrder(le)
    ensures SortedBy(r, le)
    ensures multiset(r) == multiset(s)
    ensures |r| == |s|
  {
    if s == [] then []
    else
      assert s == s[..|s| - 1] + [s[|s| - 1]];
      Insert(Sort(s[..|s| - 1], le), s[|s| - 1], le)
  }

  lemma SameElements<T>(a: seq<T>, b: seq<T>)
    requires multiset(a) == multiset(b)
    ensures forall x :: x in a <==> x in b
  {
    assert forall x :: x in a <==> x in multiset(a);
    assert forall x :: x in b <==> x in multiset(b);
  }

  lemma Without<T>(s: seq<T>, i: nat)
    requires i < |s|
    ensures multiset(s) == multiset(s[..i] + s[i + 1..]) + multiset{s[i]}
  {
    assert s == s[..i] + [s[i]] + s[i + 1..];
  }

  lemma Cancelled<T>(a: multiset<T>, b: multiset<T>, x: T)
    requires a + multiset{x} == b + multiset{x}
    ensures a == b
  {
    assert a == a + multiset{x} - multiset{x};
    assert b == b + multiset{x} - multiset{x};
  }

  /** Where the last element of one list stands in a reordering of it; the rest are reorderings as well. */
  lemma TakeOut<T>(a: seq<T>, b: seq<T>) returns (i: nat)
    requires multiset(a) == multiset(b) && a != []
    ensures i < |b| && b[i] == a[|a| - 1]
    ensures multiset(a[..|a| - 1]) == multiset(b[..i] + b[i + 1..])
  {
    var n, x := |a| - 1, a[|a| - 1];
    SameElements(a, b);
    assert x in a;
    i :| 0 <= i < |b| && b[i] == x;
    Without(a, n);
    assert a[..n] + a[n + 1..] == a[..n];
    Without(b, i);
    Cancelled(multiset(a[..n]), multiset(b[..i] + b[i + 1..]), x);
  }

  ghost predicate Distinct<T>(s: seq<T>) {
    forall i, j :: 0 <= i < j < |s| ==> s[i] != s[j]
  }

  lemma {:induction false} DistinctOccurs<T>(s: seq<T>)
    ensures Distinct(s) <==> forall x :: multiset(s)[x] <= 1
  {
    if s != [] {
      var rest := s[..|s| - 1];
      var last := s[|s| - 1];
      assert s == rest + [last];
      DistinctOccurs(rest);
      assert last in rest <==> last in multiset(rest);
      if Distinct(s) {
        assert last !in rest;
      }
      if forall x :: multiset(s)[x] <= 1 {
        assert multiset(s)[last] == multiset(rest)[last] + 1;
        assert forall x :: multiset(rest)[x] <= multiset(s)[x];
      }
    }
  }

  lemma SortKeepsDistinct<T>(a: seq<T>, b: seq<T>)
    requires multiset(a) == multiset(b) && Distinct(a)
    ensures Distinct(b)
  {
    DistinctOccurs(a);
    DistinctOccurs(b);
  }
}
