/** Merging gaps between ordered ranges: what a choice of gaps costs in bytes, and the least such cost. */
module GapMerging {
  import opened Numbers
  import Sorting
  import opened Spans

  /** Ranges in order with a gap between neighbours; a range may be empty. */
  ghost predicate Ordered(spans: seq<Span>) {
    && (forall i :: 0 <= i < |spans| ==> spans[i].start <= spans[i].end)
    && (forall i, j :: 0 <= i < j < |spans| ==> spans[i].end < spans[j].start)
  }

  /** A gap's size, then its position. */
  datatype Gap = Gap(size: nat, index: nat)

  predicate GapBefore(a: Gap, b: Gap) {
    a.size < b.size || (a.size == b.size && a.index <= b.index)
  }

  /** The gaps after the ranges `0..k`. */
  function Gaps(exact: seq<Span>, k: nat): (r: seq<Gap>)
    requires k < |exact| || (k == 0 && exact == [])
    ensures |r| == k
    ensures forall i :: 0 <= i < k ==> r[i] == Gap(Minus(exact[i + 1].start, exact[i].end), i)
  {
    seq(k, i requires 0 <= i < k => Gap(Minus(exact[i + 1].start, exact[i].end), i))
  }

  function AllGaps(exact: seq<Span>): (r: seq<Gap>)
    ensures |r| == Minus(|exact|, 1)
  {
    Gaps(exact, Minus(|exact|, 1))
  }

  /** Adds the next range to a plan, or stretches the plan's last range over it. */
  function Extended(plan: seq<Span>, next: Span, join: bool): (r: seq<Span>)
    requires plan != []
    ensures r != [] && r[|r| - 1].end == next.end
    ensures |r| == |plan| + (if join then 0 else 1)
  {
    if join then plan[..|plan| - 1] + [Span(plan[|plan| - 1].start, next.end)] else plan + [next]
  }

  /** The plan that reads across every gap whose index is in `merge`. */
  function MergeBy(exact: seq<Span>, merge: set<nat>): (plan: seq<Span>)
    ensures exact != [] ==> plan != [] && plan[|plan| - 1].end == exact[|exact| - 1].end
    ensures |plan| <= |exact|
  {
    if |exact| <= 1 then exact
    else
      var last := |exact| - 1;
      Extended(MergeBy(exact[..last], merge), exact[last], last - 1 in merge)
  }

  /** Bytes and number of the gaps that a choice takes. */
  function Taken(gaps: seq<Gap>, merge: set<nat>): nat {
    if gaps == [] then 0
    else
      var last := gaps[|gaps| - 1];
      Taken(gaps[..|gaps| - 1], merge) + (if last.index in merge then last.size else 0)
  }

  function TakenCount(gaps: seq<Gap>, merge: set<nat>): (r: nat)
    ensures r <= |gaps|
  {
    if gaps == [] then 0
    else
      var last := gaps[|gaps| - 1];
      TakenCount(gaps[..|gaps| - 1], merge) + (if last.index in merge then 1 else 0)
  }

  // ---------------------------------------------------------------- what merging does

  lemma {:induction false} GapsPrefix(exact: seq<Span>)
    requires |exact| > 1
    ensures AllGaps(exact)[..|exact| - 2] == AllGaps(exact[..|exact| - 1])
  {
  }

  lemma ExtendedOrdered(plan: seq<Span>, next: Span, join: bool)
    requires Ordered(plan) && plan != [] && plan[|plan| - 1].end < next.start <= next.end
    ensures Ordered(Extended(plan, next, join))
  {
  }

  lemma BytesWithLast(spans: seq<Span>)
    requires spans != []
    ensures SpanBytes(spans) == SpanBytes(spans[..|spans| - 1]) + Length(spans[|spans| - 1])
  {
  }

  lemma ExtendedShape(plan: seq<Span>, next: Span, join: bool)
    requires Ordered(plan) && plan != [] && plan[|plan| - 1].end < next.start <= next.end
    ensures Ordered(Extended(plan, next, join))
    ensures SpanBytes(Extended(plan, next, join))
         == SpanBytes(plan) + Length(next) + (if join then next.start - plan[|plan| - 1].end else 0)
  {
    ExtendedOrdered(plan, next, join);
    var r, n := Extended(plan, next, join), |plan| - 1;
    assert plan[n].start <= plan[n].end;
    hide Ordered, SpanBytes;
    assert r[..|r| - 1] == if join then plan[..n] else plan;
    BytesWithLast(r);
    BytesWithLast(plan);
  }

  lemma ExtendedCovers(plan: seq<Span>, next: Span, join: bool, b: int)
    requires Ordered(plan) && plan != [] && plan[|plan| - 1].end < next.start <= next.end
    requires Covered(plan, b) || next.start <= b < next.end
    ensures Covered(Extended(plan, next, join), b)
  {
    var r, n := Extended(plan, next, join), |plan| - 1;
    CoveredWithLast(r, b);
    assert r[..|r| - 1] == if join then plan[..n] else plan;
    if join && Covered(plan, b) {
      CoveredWithLast(plan, b);
    }
  }

  lemma OrderedPrefix(exact: seq<Span>)
    requires Ordered(exact) && |exact| > 1
    ensures var last := |exact| - 1;
            Ordered(exact[..last]) && exact[last - 1].end < exact[last].start <= exact[last].end
  {
  }

  /** The last gap is taken or not. */
  lemma TakenWithLast(exact: seq<Span>, merge: set<nat>)
    requires |exact| > 1
    ensures var last := |exact| - 1;
            var taken := last - 1 in merge;
            && Taken(AllGaps(exact), merge)
               == Taken(AllGaps(exact[..last]), merge) + (if taken then Minus(exact[last].start, exact[last - 1].end) else 0)
            && TakenCount(AllGaps(exact), merge) == TakenCount(AllGaps(exact[..last]), merge) + (if taken then 1 else 0)
  {
    GapsPrefix(exact);
  }

  lemma NoGaps(exact: seq<Span>, merge: set<nat>)
    requires |exact| <= 1
    ensures Taken(AllGaps(exact), merge) == 0 && TakenCount(AllGaps(exact), merge) == 0
  {
  }

  lemma MergeByLast(exact: seq<Span>, merge: set<nat>)
    requires |exact| > 1
    ensures var last := |exact| - 1;
            MergeBy(exact, merge) == Extended(MergeBy(exact[..last], merge), exact[last], last - 1 in merge)
  {
    hide Extended;
  }

  /** A merged plan is ordered, spans the same bytes and the gaps taken, and has one range fewer per gap. */
  lemma {:induction false} MergeByShape(exact: seq<Span>, merge: set<nat>)
    requires Ordered(exact)
    ensures Ordered(MergeBy(exact, merge))
    ensures SpanBytes(MergeBy(exact, merge)) == SpanBytes(exact) + Taken(AllGaps(exact), merge)
    ensures |MergeBy(exact, merge)| + TakenCount(AllGaps(exact), merge) == |exact|
  {
    hide Extended, Ordered, Taken, TakenCount, AllGaps;
    if |exact| <= 1 {
      NoGaps(exact, merge);
    } else {
      var last := |exact| - 1;
      OrderedPrefix(exact);
      MergeByShape(exact[..last], merge);
      TakenWithLast(exact, merge);
      ExtendedShape(MergeBy(exact[..last], merge), exact[last], last - 1 in merge);
    }
  }

  /** Everything the exact ranges cover is still covered. */
  lemma {:induction false} MergeByCovers(exact: seq<Span>, merge: set<nat>, b: int)
    requires Ordered(exact) && Covered(exact, b)
    ensures Covered(MergeBy(exact, merge), b)
  {
    hide Extended, Covered;
    if |exact| > 1 {
      var last := |exact| - 1;
      MergeByShape(exact[..last], merge);
      CoveredWithLast(exact, b);
      if Covered(exact[..last], b) {
        MergeByCovers(exact[..last], merge, b);
      }
      ExtendedCovers(MergeBy(exact[..last], merge), exact[last], last - 1 in merge, b);
    }
  }

  // ---------------------------------------------------------------- the smallest gaps are the cheapest

  lemma TakenOrder(a: seq<Gap>, x: Gap, b: seq<Gap>, merge: set<nat>)
    ensures Taken(a + [x] + b, merge) == Taken(a + b, merge) + (if x.index in merge then x.size else 0)
    ensures TakenCount(a + [x] + b, merge) == TakenCount(a + b, merge) + (if x.index in merge then 1 else 0)
    decreases |b|
  {
    if b == [] {
      assert a + [x] + b == a + [x];
      assert (a + [x])[..|a|] == a;
      assert a + b == a;
    } else {
      var n := |b| - 1;
      assert (a + [x] + b)[..|a| + 1 + n] == a + [x] + b[..n];
      assert (a + b)[..|a| + n] == a + b[..n];
      TakenOrder(a, x, b[..n], merge);
    }
  }

  /** The total taken does not depend on the order of the gaps. */
  lemma {:induction false} TakenReordered(a: seq<Gap>, b: seq<Gap>, merge: set<nat>)
    requires multiset(a) == multiset(b)
    ensures Taken(a, merge) == Taken(b, merge) && TakenCount(a, merge) == TakenCount(b, merge)
    decreases |a|
  {
    if a == [] {
      assert |multiset(b)| == 0;
    } else {
      var n := |a| - 1;
      var x := a[n];
      assert a == a[..n] + [x];
      var i := Sorting.TakeOut(a, b);
      assert b == b[..i] + [x] + b[i + 1..];
      var without := b[..i] + b[i + 1..];
      TakenReordered(a[..n], without, merge);
      TakenOrder(b[..i], x, b[i + 1..], merge);
    }
  }

  /** The sizes of the first `k` gaps. */
  function FirstSizes(gaps: seq<Gap>, k: nat): nat
    requires k <= |gaps|
  {
    if k == 0 then 0 else FirstSizes(gaps, k - 1) + gaps[k - 1].size
  }

  lemma TakenWithNext(sorted: seq<Gap>, merge: set<nat>, k: nat)
    requires 0 < k <= |sorted|
    ensures var next := sorted[k - 1];
            && Taken(sorted[..k], merge) == Taken(sorted[..k - 1], merge) + (if next.index in merge then next.size else 0)
            && TakenCount(sorted[..k], merge) == TakenCount(sorted[..k - 1], merge) + (if next.index in merge then 1 else 0)
  {
    assert sorted[..k][..k - 1] == sorted[..k - 1];
  }

  lemma {:induction false} FirstAreLeast(sorted: seq<Gap>, merge: set<nat>, k: nat)
    requires Sorting.SortedBy(sorted, GapBefore) && k <= |sorted|
    ensures TakenCount(sorted[..k], merge) <= k
    ensures Taken(sorted[..k], merge) >= FirstSizes(sorted, TakenCount(sorted[..k], merge))
  {
    hide Taken, TakenCount;
    if k == 0 {
      assert sorted[..k] == [];
      NothingFirst(merge);
    } else {
      FirstAreLeast(sorted, merge, k - 1);
      TakenWithNext(sorted, merge, k);
      var c := TakenCount(sorted[..k - 1], merge);
      assert c < k - 1 ==> GapBefore(sorted[c], sorted[k - 1]);
    }
  }

  lemma NothingFirst(merge: set<nat>)
    ensures Taken([], merge) == 0 && TakenCount([], merge) == 0
  {
  }

  /** The positions of the first `k` gaps. */
  function FirstIndices(gaps: seq<Gap>, k: nat): set<nat>
    requires k <= |gaps|
  {
    if k == 0 then {} else FirstIndices(gaps, k - 1) + {gaps[k - 1].index}
  }

  lemma {:induction false} InFirstIndices(gaps: seq<Gap>, k: nat, i: nat)
    requires k <= |gaps|
    ensures i in FirstIndices(gaps, k) <==> exists j :: 0 <= j < k && gaps[j].index == i
  {
    if k > 0 {
      InFirstIndices(gaps, k - 1, i);
    }
  }

  ghost predicate DistinctIndices(gaps: seq<Gap>) {
    forall i, j :: 0 <= i < j < |gaps| ==> gaps[i].index != gaps[j].index
  }

  lemma {:induction false} TakenFirst(gaps: seq<Gap>, k: nat, n: nat)
    requires DistinctIndices(gaps) && k <= |gaps| && n <= |gaps|
    ensures TakenCount(gaps[..n], FirstIndices(gaps, k)) == if n <= k then n else k
    ensures Taken(gaps[..n], FirstIndices(gaps, k)) == FirstSizes(gaps, if n <= k then n else k)
  {
    if n > 0 {
      TakenFirst(gaps, k, n - 1);
      assert gaps[..n][..n - 1] == gaps[..n - 1];
      InFirstIndices(gaps, k, gaps[n - 1].index);
    }
  }

  lemma SortedGaps(exact: seq<Span>, sorted: seq<Gap>)
    requires multiset(sorted) == multiset(AllGaps(exact))
    ensures DistinctIndices(sorted) && |sorted| == Minus(|exact|, 1)
    ensures forall j :: 0 <= j < |sorted| ==> sorted[j].index < Minus(|exact|, 1)
  {
    var gaps := AllGaps(exact);
    assert |multiset(sorted)| == |multiset(gaps)|;
    Sorting.SameElements(gaps, sorted);
    Sorting.SortKeepsDistinct(gaps, sorted);
    forall j | 0 <= j < |sorted|
      ensures sorted[j] in gaps
    {
      assert sorted[j] in sorted;
    }
    assert forall i, j :: 0 <= i < j < |sorted| ==> sorted[i] != sorted[j];
  }

  /** Merging the smallest gaps: as many bytes as their sizes, and no choice of as many gaps does better. */
  lemma SmallestFirst(exact: seq<Span>, sorted: seq<Gap>, k: nat)
    requires Ordered(exact) && k <= |sorted|
    requires multiset(sorted) == multiset(AllGaps(exact))
    ensures var plan := MergeBy(exact, FirstIndices(sorted, k));
            SpanBytes(plan) == SpanBytes(exact) + FirstSizes(sorted, k) && |plan| == |exact| - k
  {
    SortedGaps(exact, sorted);
    TakenFirst(sorted, k, |sorted|);
    assert sorted[..|sorted|] == sorted;
    TakenReordered(sorted, AllGaps(exact), FirstIndices(sorted, k));
    MergeByShape(exact, FirstIndices(sorted, k));
  }

  lemma NoChoiceBeatsSmallest(exact: seq<Span>, sorted: seq<Gap>, merge: set<nat>)
    requires Ordered(exact) && Sorting.SortedBy(sorted, GapBefore)
    requires multiset(sorted) == multiset(AllGaps(exact))
    ensures var plan := MergeBy(exact, merge);
            && |exact| - |plan| <= |sorted|
            && SpanBytes(plan) >= SpanBytes(exact) + FirstSizes(sorted, |exact| - |plan|)
  {
    hide Taken, TakenCount, MergeBy, SpanBytes, Ordered, AllGaps, FirstSizes, Sorting.SortedBy;
    MergeByShape(exact, merge);
    TakenReordered(sorted, AllGaps(exact), merge);
    assert sorted[..|sorted|] == sorted;
    FirstAreLeast(sorted, merge, |sorted|);
  }

  /** The gap after range `i`. */
  function GapAfter(exact: seq<Span>, i: nat): nat
    requires i + 1 < |exact|
  {
    Minus(exact[i + 1].start, exact[i].end)
  }

  /** Every gap read across is smaller than every other one, or as large and earlier. */
  ghost predicate SmallestThenEarliest(exact: seq<Span>, merge: set<nat>) {
    forall i: nat, j: nat :: i + 1 < |exact| && j + 1 < |exact| && i in merge && j !in merge ==>
      GapAfter(exact, i) < GapAfter(exact, j) || (GapAfter(exact, i) == GapAfter(exact, j) && i < j)
  }

  /** The plan reads across gaps chosen by size first and position second. */
  ghost predicate MergesSmallest(exact: seq<Span>, plan: seq<Span>) {
    exists merge :: plan == MergeBy(exact, merge) && SmallestThenEarliest(exact, merge)
  }

  lemma GapPlace(exact: seq<Span>, sorted: seq<Gap>, i: nat) returns (p: nat)
    requires multiset(sorted) == multiset(AllGaps(exact)) && i + 1 < |exact|
    ensures p < |sorted| && sorted[p] == Gap(GapAfter(exact, i), i)
  {
    Sorting.SameElements(AllGaps(exact), sorted);
    assert AllGaps(exact)[i] == Gap(GapAfter(exact, i), i);
    assert Gap(GapAfter(exact, i), i) in sorted;
    p :| 0 <= p < |sorted| && sorted[p] == Gap(GapAfter(exact, i), i);
  }

  lemma FirstAreEarliest(exact: seq<Span>, sorted: seq<Gap>, k: nat)
    requires Sorting.SortedBy(sorted, GapBefore) && multiset(sorted) == multiset(AllGaps(exact)) && k <= |sorted|
    ensures MergesSmallest(exact, MergeBy(exact, FirstIndices(sorted, k)))
  {
    hide MergeBy, FirstIndices, AllGaps;
    var merge := FirstIndices(sorted, k);
    SortedGaps(exact, sorted);
    forall i: nat, j: nat | i + 1 < |exact| && j + 1 < |exact| && i in merge && j !in merge
      ensures GapAfter(exact, i) < GapAfter(exact, j) || (GapAfter(exact, i) == GapAfter(exact, j) && i < j)
    {
      var p := GapPlace(exact, sorted, i);
      var q := GapPlace(exact, sorted, j);
      InFirstIndices(sorted, k, i);
      InFirstIndices(sorted, k, j);
      assert p < k <= q;
      assert GapBefore(sorted[p], sorted[q]);
    }
    assert SmallestThenEarliest(exact, merge);
  }
}
