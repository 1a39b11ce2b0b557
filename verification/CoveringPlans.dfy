/** No plan that covers the requested bytes does better than merging the smallest gaps. */
module CoveringPlans {
  import opened GapMerging
  import opened Sets
  import Sorting
  import opened Spans

  /** Ranges in order that do not overlap; they may touch. */
  ghost predicate Disjoint(plan: seq<Span>) {
    && (forall i :: 0 <= i < |plan| ==> plan[i].start <= plan[i].end)
    && (forall i, j :: 0 <= i < j < |plan| ==> plan[i].end <= plan[j].start)
  }

  ghost predicate Covers(plan: seq<Span>, spans: seq<Span>) {
    forall b :: Covered(spans, b) ==> Covered(plan, b)
  }

  // ---------------------------------------------------------------- bytes as sets

  function Interval(start: nat, end: nat): (r: set<int>)
    ensures forall b :: b in r <==> start <= b < end
    ensures |r| == if start < end then end - start else 0
    decreases if start < end then end - start else 0
  {
    if start >= end then {}
    else
      var r := Interval(start, end - 1);
      r + {end - 1}
  }

  function ByteSet(spans: seq<Span>): set<int> {
    if spans == [] then {}
    else
      var last := spans[|spans| - 1];
      ByteSet(spans[..|spans| - 1]) + Interval(last.start, last.end)
  }

  lemma {:induction false} InByteSet(spans: seq<Span>, b: int)
    ensures b in ByteSet(spans) <==> Covered(spans, b)
  {
    if spans != [] {
      InByteSet(spans[..|spans| - 1], b);
      CoveredWithLast(spans, b);
    }
  }

  /** Disjoint ranges cover as many bytes as their lengths add up to. */
  lemma {:induction false} ByteSetSize(spans: seq<Span>)
    requires Disjoint(spans)
    ensures |ByteSet(spans)| == SpanBytes(spans)
  {
    if spans != [] {
      var before, last := spans[..|spans| - 1], spans[|spans| - 1];
      ByteSetSize(before);
      forall b | b in ByteSet(before)
        ensures b !in Interval(last.start, last.end)
      {
        InByteSet(before, b);
        var i :| 0 <= i < |before| && before[i].start <= b < before[i].end;
        assert spans[i].end <= last.start;
      }
      DisjointSizes(ByteSet(before), Interval(last.start, last.end));
    }
  }

  lemma CoveringCostsMore(small: seq<Span>, large: seq<Span>)
    requires Disjoint(small) && Disjoint(large) && Covers(large, small)
    ensures SpanBytes(small) <= SpanBytes(large)
  {
    ByteSetSize(small);
    ByteSetSize(large);
    forall b | b in ByteSet(small)
      ensures b in ByteSet(large)
    {
      InByteSet(small, b);
      InByteSet(large, b);
    }
    SubsetSize(ByteSet(small), ByteSet(large));
  }

  // ---------------------------------------------------------------- gaps a plan reads across

  /** The range of a plan that holds byte `b`. */
  ghost function Holder(plan: seq<Span>, b: int): (i: nat)
    requires Covered(plan, b)
    ensures i < |plan| && plan[i].start <= b < plan[i].end
  {
    var i :| 0 <= i < |plan| && plan[i].start <= b < plan[i].end;
    i
  }

  lemma HolderAscends(plan: seq<Span>, a: int, b: int)
    requires Disjoint(plan) && Covered(plan, a) && Covered(plan, b) && a <= b
    ensures Holder(plan, a) <= Holder(plan, b)
  {
    var i, j := Holder(plan, a), Holder(plan, b);
    assert plan[i].start <= a <= b < plan[j].end;
  }

  ghost predicate NonEmpty(exact: seq<Span>) {
    forall i :: 0 <= i < |exact| ==> exact[i].start < exact[i].end
  }

  /** Each range's first byte is covered. */
  lemma FirstByteCovered(exact: seq<Span>, plan: seq<Span>, i: nat)
    requires NonEmpty(exact) && Covers(plan, exact) && i < |exact|
    ensures Covered(plan, exact[i].start)
  {
    assert exact[i].start <= exact[i].start < exact[i].end;
    assert Covered(exact, exact[i].start);
  }

  /** The gaps before range `k` that lie within one range of the plan. */
  ghost function Joined(exact: seq<Span>, plan: seq<Span>, k: nat): (r: set<nat>)
    requires NonEmpty(exact) && Covers(plan, exact) && k < |exact|
    ensures forall i :: i in r ==> i < k
  {
    if k == 0 then {}
    else
      FirstByteCovered(exact, plan, k - 1);
      FirstByteCovered(exact, plan, k);
      Joined(exact, plan, k - 1)
      + if Holder(plan, exact[k - 1].start) == Holder(plan, exact[k].start) then {k - 1} else {}
  }

  lemma {:induction false} TakenLocal(gaps: seq<Gap>, a: set<nat>, b: set<nat>)
    requires forall i :: 0 <= i < |gaps| ==> (gaps[i].index in a <==> gaps[i].index in b)
    ensures TakenCount(gaps, a) == TakenCount(gaps, b) && Taken(gaps, a) == Taken(gaps, b)
  {
    if gaps != [] {
      TakenLocal(gaps[..|gaps| - 1], a, b);
    }
  }

  /** A plan of few ranges reads across many gaps. */
  lemma {:induction false} ManyJoined(exact: seq<Span>, plan: seq<Span>, k: nat)
    requires Ordered(exact) && NonEmpty(exact) && Disjoint(plan) && Covers(plan, exact) && k < |exact|
    ensures Covered(plan, exact[k].start)
    ensures TakenCount(Gaps(exact, k), Joined(exact, plan, k)) + Holder(plan, exact[k].start) >= k
  {
    hide Covered, Holder, Ordered, NonEmpty, Disjoint, Covers, Gaps, TakenCount;
    FirstByteCovered(exact, plan, k);
    if k == 0 {
      NothingTaken(exact);
    } else {
      FirstByteCovered(exact, plan, k - 1);
      StartsAscend(exact, k);
      ManyJoined(exact, plan, k - 1);
      HolderAscends(plan, exact[k - 1].start, exact[k].start);
      GapCount(exact, k, Joined(exact, plan, k), Joined(exact, plan, k - 1));
    }
  }

  lemma NothingTaken(exact: seq<Span>)
    requires exact != []
    ensures TakenCount(Gaps(exact, 0), {}) == 0
  {
  }

  lemma StartsAscend(exact: seq<Span>, k: nat)
    requires Ordered(exact) && 0 < k < |exact|
    ensures exact[k - 1].start <= exact[k].start
  {
  }

  lemma GapCount(exact: seq<Span>, k: nat, now: set<nat>, before: set<nat>)
    requires 0 < k < |exact| && before <= now && forall i :: i in now ==> i in before || i == k - 1
    requires k - 1 !in before
    ensures TakenCount(Gaps(exact, k), now) == TakenCount(Gaps(exact, k - 1), before) + (if k - 1 in now then 1 else 0)
  {
    var gaps := Gaps(exact, k);
    assert gaps[..k - 1] == Gaps(exact, k - 1);
    TakenLocal(gaps[..k - 1], now, before);
  }

  ghost predicate InGap(exact: seq<Span>, merge: set<nat>, b: int) {
    exists i :: i in merge && i + 1 < |exact| && exact[i].end <= b < exact[i + 1].start
  }

  lemma ExtendedCoversOnly(plan: seq<Span>, next: Span, join: bool, b: int)
    requires Ordered(plan) && plan != [] && plan[|plan| - 1].end < next.start <= next.end
    requires Covered(Extended(plan, next, join), b)
    ensures Covered(plan, b) || next.start <= b < next.end || (join && plan[|plan| - 1].end <= b < next.start)
  {
    var r, n := Extended(plan, next, join), |plan| - 1;
    CoveredWithLast(r, b);
    CoveredWithLast(plan, b);
    assert r[..|r| - 1] == if join then plan[..n] else plan;
  }

  lemma InMoreGaps(exact: seq<Span>, merge: set<nat>, b: int)
    requires |exact| > 1 && InGap(exact[..|exact| - 1], merge, b)
    ensures InGap(exact, merge, b)
  {
    var before := exact[..|exact| - 1];
    var i :| i in merge && i + 1 < |before| && before[i].end <= b < before[i + 1].start;
    assert exact[i].end <= b < exact[i + 1].start;
  }

  lemma InLastGap(exact: seq<Span>, merge: set<nat>, b: int)
    requires |exact| > 1 && |exact| - 2 in merge && exact[|exact| - 2].end <= b < exact[|exact| - 1].start
    ensures InGap(exact, merge, b)
  {
    var i := |exact| - 2;
    assert exact[i].end <= b < exact[i + 1].start;
  }

  lemma MergeFew(exact: seq<Span>, merge: set<nat>)
    requires |exact| <= 1
    ensures MergeBy(exact, merge) == exact
  {
  }

  /** A merged plan reads nothing but the exact ranges and the gaps it merges. */
  lemma {:induction false} MergeByCoversOnly(exact: seq<Span>, merge: set<nat>, b: int)
    requires Ordered(exact) && Covered(MergeBy(exact, merge), b)
    ensures Covered(exact, b) || InGap(exact, merge, b)
  {
    hide Extended, Covered, Ordered, InGap, MergeBy, SpanBytes, Taken, TakenCount, AllGaps;
    if |exact| <= 1 {
      MergeFew(exact, merge);
    } else {
      var last := |exact| - 1;
      var before := MergeBy(exact[..last], merge);
      OrderedPrefix(exact);
      MergeByShape(exact[..last], merge);
      MergeByLast(exact, merge);
      CoveredWithLast(exact, b);
      ExtendedCoversOnly(before, exact[last], last - 1 in merge, b);
      if Covered(before, b) {
        MergeByCoversOnly(exact[..last], merge, b);
        if InGap(exact[..last], merge, b) {
          InMoreGaps(exact, merge, b);
        }
      } else if !(exact[last].start <= b < exact[last].end) {
        InLastGap(exact, merge, b);
      }
    }
  }

  lemma {:induction false} JoinedGapHeld(exact: seq<Span>, plan: seq<Span>, k: nat, i: nat, b: int)
    requires Ordered(exact) && NonEmpty(exact) && Disjoint(plan) && Covers(plan, exact) && k < |exact|
    requires i in Joined(exact, plan, k) && exact[i].end <= b < exact[i + 1].start
    ensures Covered(plan, b)
  {
    hide Covered, Covers, Disjoint, NonEmpty, Holder;
    FirstByteCovered(exact, plan, k);
    FirstByteCovered(exact, plan, k - 1);
    if i == k - 1 && Holder(plan, exact[k - 1].start) == Holder(plan, exact[k].start) {
      HeldBetween(exact, plan, i, b);
    } else {
      JoinedGapHeld(exact, plan, k - 1, i, b);
    }
  }

  /** Two first bytes in one range of the plan: so is all between them. */
  lemma HeldBetween(exact: seq<Span>, plan: seq<Span>, i: nat, b: int)
    requires i + 1 < |exact| && Ordered(exact) && exact[i].end <= b < exact[i + 1].start
    requires Covered(plan, exact[i].start) && Covered(plan, exact[i + 1].start)
    requires Holder(plan, exact[i].start) == Holder(plan, exact[i + 1].start)
    ensures Covered(plan, b)
  {
    var h := Holder(plan, exact[i].start);
    assert plan[h].start <= b < plan[h].end;
  }

  lemma JoinedWithin(exact: seq<Span>, plan: seq<Span>)
    requires Ordered(exact) && NonEmpty(exact) && Disjoint(plan) && Covers(plan, exact) && exact != []
    ensures Covers(plan, MergeBy(exact, Joined(exact, plan, |exact| - 1)))
  {
    hide Covered, Joined, MergeBy;
    var k := |exact| - 1;
    var merge := Joined(exact, plan, k);
    forall b | Covered(MergeBy(exact, merge), b)
      ensures Covered(plan, b)
    {
      MergeByCoversOnly(exact, merge, b);
      if InGap(exact, merge, b) {
        var i :| i in merge && i + 1 < |exact| && exact[i].end <= b < exact[i + 1].start;
        JoinedGapHeld(exact, plan, k, i, b);
      }
    }
  }

  /** Any covering plan is at least as large as some merged plan of no more ranges. */
  lemma JoinedPlan(exact: seq<Span>, plan: seq<Span>) returns (merge: set<nat>)
    requires Ordered(exact) && NonEmpty(exact) && Disjoint(plan) && Covers(plan, exact) && exact != []
    ensures plan != [] && |MergeBy(exact, merge)| <= |plan|
    ensures SpanBytes(MergeBy(exact, merge)) <= SpanBytes(plan)
  {
    hide Covered, Covers, NonEmpty, Holder, Joined, MergeBy, SpanBytes, TakenCount, Taken, Ordered, Disjoint;
    var k := |exact| - 1;
    merge := Joined(exact, plan, k);
    ManyJoined(exact, plan, k);
    assert Holder(plan, exact[k].start) < |plan|;
    MergeByShape(exact, merge);
    JoinedWithin(exact, plan);
    OrderedIsDisjoint(MergeBy(exact, merge));
    CoveringCostsMore(MergeBy(exact, merge), plan);
  }

  /** Reading fewer ranges costs at least the smallest gaps, however a plan covers the request. */
  lemma CoveringPlanBytes(exact: seq<Span>, sorted: seq<Gap>, plan: seq<Span>)
    requires Ordered(exact) && NonEmpty(exact) && Disjoint(plan) && Covers(plan, exact)
    requires Sorting.SortedBy(sorted, GapBefore) && multiset(sorted) == multiset(AllGaps(exact))
    ensures exact != [] ==> plan != []
    ensures |plan| <= |exact| ==>
              && |exact| - |plan| <= |sorted|
              && SpanBytes(plan) >= SpanBytes(exact) + FirstSizes(sorted, |exact| - |plan|)
  {
    hide Covered, Covers, NonEmpty, MergeBy, SpanBytes, Sorting.SortedBy, FirstSizes, AllGaps, Ordered, Disjoint;
    SortedGaps(exact, sorted);
    if exact == [] {
      NoSizes(sorted);
    } else {
      var merge := JoinedPlan(exact, plan);
      NoChoiceBeatsSmallest(exact, sorted, merge);
      if |plan| <= |exact| {
        FirstSizesAscend(sorted, |exact| - |plan|, |exact| - |MergeBy(exact, merge)|);
      }
    }
  }

  lemma OrderedIsDisjoint(spans: seq<Span>)
    requires Ordered(spans)
    ensures Disjoint(spans)
  {
  }

  lemma NoSizes(gaps: seq<Gap>)
    ensures FirstSizes(gaps, 0) == 0 && SpanBytes([]) == 0
  {
  }

  lemma {:induction false} FirstSizesAscend(gaps: seq<Gap>, j: nat, k: nat)
    requires j <= k <= |gaps|
    ensures FirstSizes(gaps, j) <= FirstSizes(gaps, k)
  {
    if j < k {
      FirstSizesAscend(gaps, j, k - 1);
    }
  }
}
