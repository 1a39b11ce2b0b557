/** Choosing which gaps to read across: the coalesced exact ranges, then the cheapest merged plan. */
module RangePlanner {
  import opened CoveringPlans
  import opened GapMerging
  import opened Numbers
  import opened Options
  import Sorting
  import opened Spans

  // ---------------------------------------------------------------- exact ranges

  predicate StartsBefore(a: Span, b: Span) { a.start <= b.start }

  predicate Forward(spans: seq<Span>) {
    forall i :: 0 <= i < |spans| ==> spans[i].start <= spans[i].end
  }

  /** Byte `b` is requested, or lies between requested ranges that are at most `maxGap` apart. */
  ghost predicate Bridged(spans: seq<Span>, maxGap: nat, b: int) {
    Covered(spans, b)
    || exists i, j :: 0 <= i < |spans| && 0 <= j < |spans| && Bridge(spans[i], spans[j], maxGap, b)
  }

  predicate Bridge(before: Span, after: Span, maxGap: nat, b: int) {
    before.end <= b < after.start <= before.end + maxGap
  }

  /** Ranges in order with more than `maxGap` bytes between neighbours. */
  ghost predicate Apart(spans: seq<Span>, maxGap: nat) {
    Forward(spans) && forall i, j :: 0 <= i < j < |spans| ==> spans[i].end + maxGap < spans[j].start
  }

  ghost predicate EnclosedIn(span: Span, exact: seq<Span>) {
    exists p :: 0 <= p < |exact| && exact[p].start <= span.start && span.end <= exact[p].end
  }

  lemma SameBridged(a: seq<Span>, b: seq<Span>, maxGap: nat, x: int)
    requires multiset(a) == multiset(b) && Bridged(a, maxGap, x)
    ensures Bridged(b, maxGap, x)
  {
    Sorting.SameElements(a, b);
    if Covered(a, x) {
      var i :| 0 <= i < |a| && a[i].start <= x < a[i].end;
      assert a[i] in b;
    } else {
      var i, j :| 0 <= i < |a| && 0 <= j < |a| && Bridge(a[i], a[j], maxGap, x);
      assert a[i] in b && a[j] in b;
    }
  }

  lemma NothingBridged(spans: seq<Span>, b: int)
    ensures Bridged(spans, 0, b) <==> Covered(spans, b)
  {
  }

  /** A bridged byte lies in the range around one of its ends, when those ranges are the same or apart. */
  lemma BridgeHeld(p: Span, q: Span, before: Span, after: Span, maxGap: nat, b: int)
    requires p.start <= before.start <= before.end <= p.end && q.start <= after.start <= after.end <= q.end
    requires Bridge(before, after, maxGap, b)
    requires p == q || p.end + maxGap < q.start || q.end + maxGap < p.start
    ensures p.start <= b < p.end || q.start <= b < q.end
  {
  }

  lemma Enclosing(span: Span, exact: seq<Span>) returns (p: nat)
    requires EnclosedIn(span, exact)
    ensures p < |exact| && exact[p].start <= span.start && span.end <= exact[p].end
  {
    p :| 0 <= p < |exact| && exact[p].start <= span.start && span.end <= exact[p].end;
  }

  lemma TwoApart(exact: seq<Span>, maxGap: nat, p: nat, q: nat)
    requires Apart(exact, maxGap) && p < |exact| && q < |exact|
    ensures exact[p] == exact[q] || exact[p].end + maxGap < exact[q].start || exact[q].end + maxGap < exact[p].start
  {
  }

  lemma OneCovers(spans: seq<Span>, i: nat, b: int)
    requires i < |spans| && spans[i].start <= b < spans[i].end
    ensures Covered(spans, b)
  {
  }

  /** Ranges that are apart and enclose the requested ones cover every bridged byte. */
  lemma BridgedIsCovered(exact: seq<Span>, spans: seq<Span>, maxGap: nat, b: int)
    requires Apart(exact, maxGap) && Forward(spans) && forall k :: 0 <= k < |spans| ==> EnclosedIn(spans[k], exact)
    requires Bridged(spans, maxGap, b)
    ensures Covered(exact, b)
  {
    hide EnclosedIn, Apart;
    if Covered(spans, b) {
      var i :| 0 <= i < |spans| && spans[i].start <= b < spans[i].end;
      var p := Enclosing(spans[i], exact);
      OneCovers(exact, p, b);
    } else {
      var i, j :| 0 <= i < |spans| && 0 <= j < |spans| && Bridge(spans[i], spans[j], maxGap, b);
      var p := Enclosing(spans[i], exact);
      var q := Enclosing(spans[j], exact);
      TwoApart(exact, maxGap, p, q);
      BridgeHeld(exact[p], exact[q], spans[i], spans[j], maxGap, b);
      OneCovers(exact, if exact[p].start <= b < exact[p].end then p else q, b);
    }
  }

  /** The ranges lie within `low..high`. */
  ghost predicate Within(spans: seq<Span>, low: int, high: int) {
    forall i :: 0 <= i < |spans| ==> low <= spans[i].start && spans[i].end <= high
  }

  /** One stretch of sorted ranges, none of them more than `maxGap` beyond the ranges before it. */
  method Stretch(sorted: seq<Span>, first: nat, maxGap: nat) returns (end: nat, next: nat)
    requires Forward(sorted) && Sorting.SortedBy(sorted, StartsBefore) && first < |sorted|
    ensures first < next <= |sorted| && sorted[first].start <= end
    ensures forall k :: first <= k < next ==> sorted[first].start <= sorted[k].start && sorted[k].end <= end
    ensures next < |sorted| ==> end + maxGap < sorted[next].start
    ensures forall b :: sorted[first].start <= b < end ==> Bridged(sorted, maxGap, b)
    ensures forall high :: Within(sorted, 0, high) ==> end <= high
    ensures NonEmpty(sorted) ==> sorted[first].start < end
  {
    hide Within, NonEmpty;
    end, next := sorted[first].end, first + 1;
    ghost var last := first;
    WithinOne(sorted, first);
    while next != |sorted| && sorted[next].start <= end + maxGap
      invariant first <= last < next <= |sorted| && sorted[last].end == end && sorted[first].end <= end
      invariant forall k :: first <= k < next ==> sorted[first].start <= sorted[k].start && sorted[k].end <= end
      invariant forall b :: sorted[first].start <= b < end ==> Bridged(sorted, maxGap, b)
      invariant forall high :: Within(sorted, 0, high) ==> end <= high
      decreases |sorted| - next
    {
      assert StartsBefore(sorted[first], sorted[next]);
      forall b | end <= b < sorted[next].end
        ensures Bridged(sorted, maxGap, b)
      {
        if b < sorted[next].start {
          assert Bridge(sorted[last], sorted[next], maxGap, b);
        } else {
          assert sorted[next].start <= b < sorted[next].end;
        }
      }
      WithinOne(sorted, next);
      if sorted[next].end > end {
        last := next;
      }
      end := Max(end, sorted[next].end);
      next := next + 1;
    }
  }

  lemma WithinOne(spans: seq<Span>, k: nat)
    requires k < |spans|
    ensures forall high :: Within(spans, 0, high) ==> spans[k].end <= high
    ensures NonEmpty(spans) ==> spans[k].start < spans[k].end
  {
  }

  lemma StillEnclosed(span: Span, exact: seq<Span>, more: Span)
    requires EnclosedIn(span, exact) || (more.start <= span.start && span.end <= more.end)
    ensures EnclosedIn(span, exact + [more])
  {
    if EnclosedIn(span, exact) {
      var p :| 0 <= p < |exact| && exact[p].start <= span.start && span.end <= exact[p].end;
      assert (exact + [more])[p] == exact[p];
    } else {
      assert (exact + [more])[|exact|] == more;
    }
  }

  /** Joins sorted ranges at most `maxGap` apart. */
  method Coalesce(sorted: seq<Span>, maxGap: nat) returns (exact: seq<Span>)
    requires Forward(sorted) && Sorting.SortedBy(sorted, StartsBefore)
    ensures Apart(exact, maxGap) && |exact| <= |sorted|
    ensures forall k :: 0 <= k < |sorted| ==> EnclosedIn(sorted[k], exact)
    ensures forall b :: Covered(exact, b) ==> Bridged(sorted, maxGap, b)
    ensures NonEmpty(sorted) ==> NonEmpty(exact)
    ensures forall low, high :: Within(sorted, low, high) ==> Within(exact, low, high)
  {
    hide Bridged, Covered, EnclosedIn;
    exact := [];
    NothingCovered();
    var first: nat := 0;
    while first != |sorted|
      invariant first <= |sorted| && |exact| <= first
      invariant Apart(exact, maxGap)
      invariant first < |sorted| ==> forall i :: 0 <= i < |exact| ==> exact[i].end + maxGap < sorted[first].start
      invariant forall k :: 0 <= k < first ==> EnclosedIn(sorted[k], exact)
      invariant forall b :: Covered(exact, b) ==> Bridged(sorted, maxGap, b)
      invariant NonEmpty(sorted) ==> NonEmpty(exact)
      invariant forall low, high :: Within(sorted, low, high) ==> Within(exact, low, high)
      decreases |sorted| - first
    {
      var end, next := Stretch(sorted, first, maxGap);
      var joined := Span(sorted[first].start, end);
      forall k | 0 <= k < next
        ensures EnclosedIn(sorted[k], exact + [joined])
      {
        StillEnclosed(sorted[k], exact, joined);
      }
      var more := exact + [joined];
      forall b | Covered(more, b)
        ensures Bridged(sorted, maxGap, b)
      {
        CoveredByEither(exact, [joined], b);
        CoveredAlone(joined, b);
      }
      forall low, high | Within(sorted, low, high)
        ensures Within(more, low, high)
      {
        assert low <= sorted[first].start;
        assert high >= 0 ==> Within(sorted, 0, high);
        assert sorted[first].end <= high;
      }
      exact := more;
      first := next;
    }
  }

  lemma NothingCovered()
    ensures forall b :: !Covered([], b)
  {
  }

  /** The requested ranges in order, joined where they are at most `maxGap` apart. */
  method MergeRanges(requested: seq<Span>, maxGap: nat) returns (exact: seq<Span>)
    requires Forward(requested)
    ensures Apart(exact, maxGap) && Ordered(exact) && |exact| <= |requested|
    ensures forall b :: Covered(exact, b) <==> Bridged(requested, maxGap, b)
    ensures NonEmpty(requested) ==> NonEmpty(exact)
    ensures forall low, high :: Within(requested, low, high) ==> Within(exact, low, high)
  {
    hide Covered, Bridged, EnclosedIn;
    StartOrder();
    var sorted := Sorting.Sort(requested, StartsBefore);
    Sorting.SameElements(requested, sorted);
    forall i | 0 <= i < |sorted|
      ensures sorted[i] in requested
    {
      assert sorted[i] in sorted;
    }
    exact := Coalesce(sorted, maxGap);
    forall b
      ensures Covered(exact, b) <==> Bridged(requested, maxGap, b)
    {
      if Covered(exact, b) {
        SameBridged(sorted, requested, maxGap, b);
      }
      if Bridged(requested, maxGap, b) {
        SameBridged(requested, sorted, maxGap, b);
        BridgedIsCovered(exact, sorted, maxGap, b);
      }
    }
  }

  lemma StartOrder()
    ensures Sorting.TotalOrder(StartsBefore)
  {
  }

  // ---------------------------------------------------------------- the chosen plan

  /** Cost of a number of bytes in a number of requests; None when the number cannot be priced. */
  type Cost = (nat, nat) -> Option<nat>

  /** Up to `counts` requests, more bytes never cost less, and only the number of requests decides what is priced. */
  ghost predicate Monotone(cost: Cost, counts: nat) {
    forall fewer: nat, more: nat, count: nat :: fewer <= more && count <= counts ==>
      (cost(fewer, count).Some? <==> cost(more, count).Some?)
      && (cost(fewer, count).Some? ==> cost(fewer, count).value <= cost(more, count).value)
  }

  /** The cost of merging the `k` smallest gaps. */
  ghost function CostAfter(cost: Cost, exact: seq<Span>, sorted: seq<Gap>, k: nat): Option<nat>
    requires k <= |sorted| && |sorted| == Minus(|exact|, 1)
  {
    cost(SpanBytes(exact) + FirstSizes(sorted, k), |exact| - k)
  }

  /** `best` is the least cost among merging up to `k` gaps, first reached by `merges` gaps. */
  ghost predicate IsBest(cost: Cost, exact: seq<Span>, sorted: seq<Gap>, k: nat, best: Option<nat>, merges: nat)
    requires k <= |sorted| && |sorted| == Minus(|exact|, 1)
  {
    && merges <= k
    && (best.Some? ==> CostAfter(cost, exact, sorted, merges) == best)
    && (forall j :: 0 <= j <= k && CostAfter(cost, exact, sorted, j).Some? ==>
          best.Some? && best.value <= CostAfter(cost, exact, sorted, j).value)
    && (forall j :: 0 <= j < merges && CostAfter(cost, exact, sorted, j).Some? ==>
          best.Some? && best.value < CostAfter(cost, exact, sorted, j).value)
  }

  lemma NoIndices(sorted: seq<Gap>)
    ensures FirstIndices(sorted, 0) == {}
  {
  }

  lemma NextIndex(sorted: seq<Gap>, j: nat)
    requires j < |sorted|
    ensures FirstIndices(sorted, j + 1) == FirstIndices(sorted, j) + {sorted[j].index}
  {
  }

  lemma MergeNothing(merge: set<nat>)
    ensures MergeBy([], merge) == []
  {
  }

  lemma MergeOne(span: Span, merge: set<nat>)
    ensures MergeBy([span], merge) == [span]
  {
  }

  /** Stretching the last range, or starting another one. */
  lemma ExtendsLast(plan: seq<Span>, current: Span, next: Span, join: bool)
    ensures Extended(plan + [current], next, join)
         == if join then plan + [Span(current.start, next.end)] else plan + [current] + [next]
  {
  }

  /** Builds the plan that merges the gaps listed first. */
  method MergeSmallestGaps(exact: seq<Span>, sorted: seq<Gap>, count: nat) returns (plan: seq<Span>)
    requires count <= |sorted| && |sorted| == Minus(|exact|, 1)
    requires forall j :: 0 <= j < |sorted| ==> sorted[j].index < |sorted|
    ensures plan == MergeBy(exact, FirstIndices(sorted, count))
  {
    hide FirstIndices, Extended, MergeBy;
    if exact == [] {
      MergeNothing(FirstIndices(sorted, count));
      return [];
    }
    var merge := new bool[|exact| - 1](_ => false);
    NoIndices(sorted);
    for j := 0 to count
      invariant forall i :: 0 <= i < merge.Length ==> (merge[i] <==> i in FirstIndices(sorted, j))
    {
      NextIndex(sorted, j);
      merge[sorted[j].index] := true;
    }
    plan := [];
    var current := exact[0];
    assert exact[..1] == [exact[0]];
    MergeOne(exact[0], FirstIndices(sorted, count));
    for index := 1 to |exact|
      invariant forall i :: 0 <= i < merge.Length ==> (merge[i] <==> i in FirstIndices(sorted, count))
      invariant plan + [current] == MergeBy(exact[..index], FirstIndices(sorted, count))
    {
      ghost var next := exact[..index + 1];
      assert next[..|next| - 1] == exact[..index] && next[|next| - 1] == exact[index];
      MergeByLast(next, FirstIndices(sorted, count));
      ExtendsLast(plan, current, exact[index], merge[index - 1]);
      if merge[index - 1] {
        current := Span(current.start, exact[index].end);
      } else {
        plan := plan + [current];
        current := exact[index];
      }
    }
    assert exact[..|exact|] == exact;
    plan := plan + [current];
  }

  lemma {:induction false} MergeByWithin(exact: seq<Span>, merge: set<nat>, low: int, high: int)
    requires Within(exact, low, high)
    ensures Within(MergeBy(exact, merge), low, high)
  {
    if |exact| > 1 {
      MergeByWithin(exact[..|exact| - 1], merge, low, high);
    }
  }

  lemma {:induction false} MergeByNonEmpty(exact: seq<Span>, merge: set<nat>)
    requires Ordered(exact)
    ensures NonEmpty(exact) ==> NonEmpty(MergeBy(exact, merge))
  {
    hide Extended;
    if |exact| > 1 && NonEmpty(exact) {
      var last := |exact| - 1;
      MergeByNonEmpty(exact[..last], merge);
      var before := MergeBy(exact[..last], merge);
      assert before[|before| - 1].start < before[|before| - 1].end == exact[last - 1].end;
      ExtendedNonEmpty(before, exact[last], last - 1 in merge);
    }
  }

  lemma ExtendedNonEmpty(plan: seq<Span>, next: Span, join: bool)
    requires NonEmpty(plan) && plan != [] && plan[|plan| - 1].end < next.start < next.end
    ensures NonEmpty(Extended(plan, next, join))
  {
  }

  /** A plan's price. */
  ghost function Price(cost: Cost, plan: seq<Span>): Option<nat> {
    cost(SpanBytes(plan), |plan|)
  }

  /** A priced plan within the budget that covers the request in no more ranges than the exact one. */
  ghost predicate Rival(cost: Cost, budget: nat, exact: seq<Span>, plan: seq<Span>) {
    && Disjoint(plan) && Covers(plan, exact) && |plan| <= |exact|
    && SpanBytes(plan) <= budget && Price(cost, plan).Some?
  }

  /** No dearer than `other`, and no larger when they cost the same. */
  ghost predicate AsGood(cost: Cost, plan: seq<Span>, other: seq<Span>) {
    Price(cost, plan).Some? && Price(cost, other).Some? ==>
      && Price(cost, plan).value <= Price(cost, other).value
      && (Price(cost, plan) == Price(cost, other) ==> SpanBytes(plan) <= SpanBytes(other))
  }

  /** Loses to merging the same number of smallest gaps, which also fits. */
  ghost predicate Dominated(exact: seq<Span>, sorted: seq<Gap>, other: seq<Span>)
    requires |sorted| == Minus(|exact|, 1)
  {
    && |exact| - |other| <= |sorted|
    && |other| <= |exact|
    && SpanBytes(exact) + FirstSizes(sorted, |exact| - |other|) <= SpanBytes(other)
  }

  /** As good as every choice of gaps and, for non-empty ranges, as every covering plan; or there is none. */
  ghost predicate Winner(cost: Cost, budget: nat, exact: seq<Span>, chosen: Option<seq<Span>>) {
    && (forall merge {:trigger MergeBy(exact, merge)} :: Rival(cost, budget, exact, MergeBy(exact, merge)) ==>
          chosen.Some? && AsGood(cost, chosen.value, MergeBy(exact, merge)))
    && (NonEmpty(exact) ==> forall other :: Rival(cost, budget, exact, other) ==>
          chosen.Some? && AsGood(cost, chosen.value, other))
  }

  /** The best count of smallest gaps beats every dominated plan. */
  lemma BestBeats(cost: Cost, budget: nat, exact: seq<Span>, sorted: seq<Gap>, tried: nat, best: Option<nat>,
                  merges: nat, plan: seq<Span>, other: seq<Span>)
    requires Monotone(cost, |exact|) && tried <= |sorted| && |sorted| == Minus(|exact|, 1)
    requires IsBest(cost, exact, sorted, tried, best, merges)
    requires tried < |sorted| ==> SpanBytes(exact) + FirstSizes(sorted, tried + 1) > budget
    requires Dominated(exact, sorted, other)
    requires SpanBytes(other) <= budget && Price(cost, other).Some?
    requires SpanBytes(plan) == SpanBytes(exact) + FirstSizes(sorted, merges) && |plan| == |exact| - merges
    ensures best.Some? && AsGood(cost, plan, other)
  {
    hide FirstSizes, SpanBytes;
    var j := |exact| - |other|;
    if j > tried {
      FirstSizesAscend(sorted, tried + 1, j);
    }
    var least := SpanBytes(exact) + FirstSizes(sorted, j);
    assert least <= SpanBytes(other);
    assert cost(least, |other|).Some? <==> cost(SpanBytes(other), |other|).Some?;
    assert CostAfter(cost, exact, sorted, j).Some?;
    if merges <= j {
      FirstSizesAscend(sorted, merges, j);
    }
  }

  lemma PlansDominated(exact: seq<Span>, sorted: seq<Gap>, other: seq<Span>)
    requires Ordered(exact) && NonEmpty(exact) && Disjoint(other) && Covers(other, exact) && |other| <= |exact|
    requires Sorting.SortedBy(sorted, GapBefore) && multiset(sorted) == multiset(AllGaps(exact))
    ensures |sorted| == Minus(|exact|, 1) && Dominated(exact, sorted, other)
  {
    hide Covered, Covers, NonEmpty, SpanBytes, Sorting.SortedBy, FirstSizes, AllGaps, Ordered, Disjoint;
    SortedGaps(exact, sorted);
    CoveringPlanBytes(exact, sorted, other);
  }

  lemma MergesDominated(exact: seq<Span>, sorted: seq<Gap>, merge: set<nat>)
    requires Ordered(exact)
    requires Sorting.SortedBy(sorted, GapBefore) && multiset(sorted) == multiset(AllGaps(exact))
    ensures |sorted| == Minus(|exact|, 1) && Dominated(exact, sorted, MergeBy(exact, merge))
  {
    hide SpanBytes, Sorting.SortedBy, FirstSizes, AllGaps, Ordered;
    SortedGaps(exact, sorted);
    NoChoiceBeatsSmallest(exact, sorted, merge);
  }

  lemma GapOrder()
    ensures Sorting.TotalOrder(GapBefore)
  {
  }

  /** The count of smallest gaps to merge that costs least within the budget. */
  method BestCount(exact: seq<Span>, sorted: seq<Gap>, budget: nat, cost: Cost)
      returns (best: Option<nat>, merges: nat, ghost tried: nat)
    requires SpanBytes(exact) <= budget && |sorted| == Minus(|exact|, 1)
    ensures merges <= tried <= |sorted| && IsBest(cost, exact, sorted, tried, best, merges)
    ensures SpanBytes(exact) + FirstSizes(sorted, merges) <= budget
    ensures tried < |sorted| ==> SpanBytes(exact) + FirstSizes(sorted, tried + 1) > budget
  {
    hide SpanBytes;
    var bytes := SpanBytes(exact);
    best := cost(bytes, |exact|);
    merges := 0;
    tried := 0;
    var merged: nat := 0;
    while merged < |sorted|
      invariant merged <= |sorted| && tried == merged
      invariant bytes == SpanBytes(exact) + FirstSizes(sorted, merged) && bytes <= budget
      invariant IsBest(cost, exact, sorted, merged, best, merges)
      invariant SpanBytes(exact) + FirstSizes(sorted, merges) <= budget
    {
      bytes := bytes + sorted[merged].size;
      if bytes > budget {
        break;
      }
      var score := cost(bytes, |exact| - merged - 1);
      if score.Some? && (best.None? || score.value < best.value) {
        best := score;
        merges := merged + 1;
      }
      merged := merged + 1;
      tried := merged;
    }
  }

  lemma TooLarge(cost: Cost, budget: nat, exact: seq<Span>)
    requires Ordered(exact) && SpanBytes(exact) > budget
    ensures Winner(cost, budget, exact, None)
  {
    hide SpanBytes, MergeBy, Covered, NonEmpty;
    forall other | Rival(cost, budget, exact, other)
      ensures false
    {
      OrderedIsDisjoint(exact);
      CoveringCostsMore(exact, other);
    }
  }

  lemma MergedPlanFits(cost: Cost, budget: nat, exact: seq<Span>, sorted: seq<Gap>, tried: nat, best: Option<nat>,
                       merges: nat)
    requires Ordered(exact) && multiset(sorted) == multiset(AllGaps(exact)) && |sorted| == Minus(|exact|, 1)
    requires tried <= |sorted| && IsBest(cost, exact, sorted, tried, best, merges) && best.Some?
    requires SpanBytes(exact) + FirstSizes(sorted, merges) <= budget
    ensures var plan := MergeBy(exact, FirstIndices(sorted, merges));
            Ordered(plan) && Rival(cost, budget, exact, plan)
  {
    hide SpanBytes, FirstSizes, Covered, FirstIndices, MergeBy, AllGaps, Ordered, Disjoint;
    var merge := FirstIndices(sorted, merges);
    SmallestFirst(exact, sorted, merges);
    MergeByShape(exact, merge);
    OrderedIsDisjoint(MergeBy(exact, merge));
    forall b | Covered(exact, b)
      ensures Covered(MergeBy(exact, merge), b)
    {
      MergeByCovers(exact, merge, b);
    }
  }

  lemma PricedAlone(cost: Cost, exact: seq<Span>, sorted: seq<Gap>, tried: nat, best: Option<nat>, merges: nat)
    requires tried <= |sorted| && |sorted| == Minus(|exact|, 1) && IsBest(cost, exact, sorted, tried, best, merges)
    ensures Price(cost, exact).Some? ==> best.Some?
  {
    assert CostAfter(cost, exact, sorted, 0) == Price(cost, exact);
  }

  lemma FirstIsWinner(cost: Cost, budget: nat, exact: seq<Span>, sorted: seq<Gap>, tried: nat, best: Option<nat>,
                      merges: nat)
    requires Monotone(cost, |exact|) && Ordered(exact) && |sorted| == Minus(|exact|, 1)
    requires Sorting.SortedBy(sorted, GapBefore) && multiset(sorted) == multiset(AllGaps(exact))
    requires merges <= tried <= |sorted| && IsBest(cost, exact, sorted, tried, best, merges)
    requires tried < |sorted| ==> SpanBytes(exact) + FirstSizes(sorted, tried + 1) > budget
    ensures Winner(cost, budget, exact,
                   if best.Some? then Some(MergeBy(exact, FirstIndices(sorted, merges))) else None)
  {
    hide SpanBytes, FirstSizes, Covered, Covers, FirstIndices, MergeBy, AllGaps, Ordered, Disjoint, NonEmpty, Price,
         AsGood, Dominated, IsBest, Monotone, Sorting.SortedBy;
    var plan := MergeBy(exact, FirstIndices(sorted, merges));
    SmallestFirst(exact, sorted, merges);
    forall other | Rival(cost, budget, exact, other) && Dominated(exact, sorted, other)
      ensures best.Some? && AsGood(cost, plan, other)
    {
      BestBeats(cost, budget, exact, sorted, tried, best, merges, plan, other);
    }
    forall merge | Rival(cost, budget, exact, MergeBy(exact, merge))
      ensures Dominated(exact, sorted, MergeBy(exact, merge))
    {
      MergesDominated(exact, sorted, merge);
    }
    if NonEmpty(exact) {
      forall other | Rival(cost, budget, exact, other)
        ensures Dominated(exact, sorted, other)
      {
        PlansDominated(exact, sorted, other);
      }
    }
  }

  /** The cheapest plan, by the caller's cost, among merges of the smallest gaps that fit the budget. */
  method Choose(requested: seq<Span>, budget: nat, cost: Cost) returns (chosen: Option<seq<Span>>, ghost exact: seq<Span>)
    requires Forward(requested)
    ensures Ordered(exact) && forall b :: Covered(exact, b) <==> Covered(requested, b)
    ensures |exact| <= |requested| && (NonEmpty(requested) ==> NonEmpty(exact))
    ensures chosen.Some? ==> Ordered(chosen.value) && Rival(cost, budget, exact, chosen.value)
    ensures chosen.Some? ==> MergesSmallest(exact, chosen.value)
    ensures chosen.Some? ==> forall low, high :: Within(requested, low, high) ==> Within(chosen.value, low, high)
    ensures chosen.Some? && NonEmpty(requested) ==> NonEmpty(chosen.value)
    ensures Monotone(cost, |exact|) ==> Winner(cost, budget, exact, chosen)
    ensures SpanBytes(exact) > budget ==> chosen.None?
    ensures SpanBytes(exact) <= budget && Price(cost, exact).Some? ==> chosen.Some?
  {
    hide SpanBytes, FirstSizes, IsBest, Ordered, Covered, NonEmpty, Dominated, Price, AsGood, FirstIndices, MergeBy, AllGaps,
         Within, Bridged, Apart, MergesSmallest;
    var ranges := MergeRanges(requested, 0);
    exact := ranges;
    forall b
      ensures Covered(exact, b) <==> Covered(requested, b)
    {
      NothingBridged(requested, b);
    }
    if SpanBytes(ranges) > budget {
      chosen := None;
      TooLarge(cost, budget, exact);
      return;
    }
    GapOrder();
    var gaps := Sorting.Sort(AllGaps(ranges), GapBefore);
    SortedGaps(exact, gaps);
    var best, merges, tried := BestCount(ranges, gaps, budget, cost);
    PricedAlone(cost, exact, gaps, tried, best, merges);
    if best.None? {
      chosen := None;
    } else {
      var plan := MergeSmallestGaps(ranges, gaps, merges);
      chosen := Some(plan);
      MergedPlanFits(cost, budget, exact, gaps, tried, best, merges);
      forall low, high | Within(requested, low, high)
        ensures Within(plan, low, high)
      {
        MergeByWithin(exact, FirstIndices(gaps, merges), low, high);
      }
      MergeByNonEmpty(exact, FirstIndices(gaps, merges));
      FirstAreEarliest(exact, gaps, merges);
    }
    if Monotone(cost, |exact|) {
      FirstIsWinner(cost, budget, exact, gaps, tried, best, merges);
    }
  }
}
