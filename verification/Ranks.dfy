/** Order statistics, told by counting over the list as it is. */
module Ranks {
  import opened Sorting

  function Count<T>(s: seq<T>, p: T -> bool): nat {
    if s == [] then 0 else Count(s[..|s| - 1], p) + (if p(s[|s| - 1]) then 1 else 0)
  }

  lemma {:induction false} CountWithout<T>(s: seq<T>, i: nat, p: T -> bool)
    requires i < |s|
    ensures Count(s, p) == Count(s[..i] + s[i + 1..], p) + (if p(s[i]) then 1 else 0)
  {
    var n := |s| - 1;
    var rest := s[..i] + s[i + 1..];
    if i == n {
      assert rest == s[..n];
    } else {
      CountWithout(s[..n], i, p);
      assert rest[..|rest| - 1] == s[..n][..i] + s[..n][i + 1..];
      assert rest[|rest| - 1] == s[n];
    }
  }

  lemma {:induction false} CountPlus<T>(a: seq<T>, b: seq<T>, p: T -> bool)
    ensures Count(a + b, p) == Count(a, p) + Count(b, p)
  {
    if b == [] {
      assert a + b == a;
    } else {
      var n := |b| - 1;
      CountPlus(a, b[..n], p);
      assert (a + b)[..|a + b| - 1] == a + b[..n];
    }
  }

  /** Counting does not look at the order. */
  lemma {:induction false} SameCount<T>(a: seq<T>, b: seq<T>, p: T -> bool)
    requires multiset(a) == multiset(b)
    ensures Count(a, p) == Count(b, p)
    decreases |a|
  {
    if a == [] {
      assert |multiset(b)| == |b| && |multiset(a)| == 0;
    } else {
      var i := TakeOut(a, b);
      SameCount(a[..|a| - 1], b[..i] + b[i + 1..], p);
      CountWithout(b, i, p);
    }
  }

  /** `x` is in the list, at most `rank` elements come strictly before it and more than `rank` do not come after it. */
  ghost predicate Ranked<T(!new)>(s: seq<T>, x: T, rank: nat, le: (T, T) -> bool) {
    x in s && Count(s, Before(x, le)) <= rank < Count(s, UpTo(x, le))
  }

  /** Elements strictly before `x`. */
  function Before<T>(x: T, le: (T, T) -> bool): T -> bool { y => !le(x, y) }

  /** Elements that are not after `x`. */
  function UpTo<T>(x: T, le: (T, T) -> bool): T -> bool { y => le(y, x) }

  lemma {:induction false} CountBounds<T>(s: seq<T>, p: T -> bool, k: nat)
    requires k <= |s|
    ensures (forall i :: 0 <= i < k ==> p(s[i])) ==> Count(s, p) >= k
    ensures (forall i :: k <= i < |s| ==> !p(s[i])) ==> Count(s, p) <= k
    ensures Count(s, p) <= |s|
  {
    if s != [] {
      var n := |s| - 1;
      CountBounds(s[..n], p, if k <= n then k else n);
    }
  }

  /** What stands at `rank` in sorted order. */
  lemma SortedRank<T(!new)>(s: seq<T>, sorted: seq<T>, rank: nat, le: (T, T) -> bool)
    requires multiset(s) == multiset(sorted) && SortedBy(sorted, le) && TotalOrder(le) && rank < |sorted|
    ensures Ranked(s, sorted[rank], rank, le)
  {
    var x := sorted[rank];
    var before, upTo := Before(x, le), UpTo(x, le);
    SameElements(s, sorted);
    assert le(x, x);
    CountBounds(sorted, before, rank);
    CountBounds(sorted, upTo, rank + 1);
    SameCount(s, sorted, before);
    SameCount(s, sorted, upTo);
    assert x in sorted;
  }

  /** What counts in one list counts in the other as well. */
  lemma {:induction false} CountPointwise<T>(a: seq<T>, b: seq<T>, p: T -> bool, q: T -> bool)
    requires |a| == |b| && forall i :: 0 <= i < |a| && p(a[i]) ==> q(b[i])
    ensures Count(a, p) <= Count(b, q)
  {
    if a != [] {
      CountPointwise(a[..|a| - 1], b[..|b| - 1], p, q);
    }
  }
}
