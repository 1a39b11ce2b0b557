/** Choosing the reads for a page's missing payload, or none when reading the page whole is as good. */
module PayloadPlan {
  import opened Bytes
  import opened Costs
  import opened CoveringPlans
  import opened GapMerging
  import opened Numbers
  import opened Options
  import opened RangePlanner
  import opened Spans

  /** The bytes that may be read of a page body: three quarters. */
  function Usable(body: nat): nat { body * 3 / 4 }

  /** Less than nine tenths of the ordinary cost. */
  predicate Worthwhile(partial: Option<nat>, ordinary: Option<nat>) {
    partial.Some? && ordinary.Some? && Sat(partial.value * 100) < Sat(ordinary.value * 90)
  }

  /** A plan that leaves out a quarter of the body and costs less than nine tenths of reading the rest whole. */
  ghost predicate Saves(model: CostModel, cached: nat, body: nat, plan: seq<Span>) {
    && cached + SpanBytes(plan) <= Usable(body)
    && Worthwhile(model.Cost(SpanBytes(plan), |plan|), model.Cost(Minus(body, cached), 1))
  }

  /**
   * Away from saturation a plan saves exactly when it and the bytes held are at most three quarters of the
   * body, and it costs less than nine tenths of reading the rest in one request.
   */
  lemma SavesTenth(model: CostModel, cached: nat, body: nat, plan: seq<Span>)
    requires model.Cost(Minus(body, cached), 1).Some? && model.Cost(Minus(body, cached), 1).value * 90 <= U128_MAX
    ensures Saves(model, cached, body, plan) <==>
              && 4 * (cached + SpanBytes(plan)) <= 3 * body
              && model.Cost(SpanBytes(plan), |plan|).Some?
              && 10 * model.Cost(SpanBytes(plan), |plan|).value < 9 * model.Cost(Minus(body, cached), 1).value
  {
    hide CostModel.Cost, SpanBytes;
  }

  /** The bytes requested, each counted once. */
  ghost function RequestedBytes(requested: seq<Span>): nat { |ByteSet(requested)| }

  lemma ExactBytes(requested: seq<Span>, exact: seq<Span>)
    requires Ordered(exact) && forall b :: Covered(exact, b) <==> Covered(requested, b)
    ensures SpanBytes(exact) == RequestedBytes(requested)
  {
    OrderedIsDisjoint(exact);
    ByteSetSize(exact);
    forall b
      ensures b in ByteSet(exact) <==> b in ByteSet(requested)
    {
      InByteSet(exact, b);
      InByteSet(requested, b);
    }
    assert ByteSet(exact) == ByteSet(requested);
  }

  /** The exact ranges cost no more than a plan of more ranges. */
  lemma ExactIsCheaper(model: CostModel, exact: seq<Span>, other: seq<Span>)
    requires model.Valid() && Ordered(exact) && Disjoint(other) && Covers(other, exact)
    requires |exact| <= |other| <= USIZE_MAX && SpanBytes(other) <= USIZE_MAX
    requires model.Cost(SpanBytes(other), |other|).Some?
    ensures SpanBytes(exact) <= SpanBytes(other) && model.Cost(SpanBytes(exact), |exact|).Some?
    ensures model.Cost(SpanBytes(exact), |exact|).value <= model.Cost(SpanBytes(other), |other|).value
  {
    hide SpanBytes, Covered, Covers, Ordered, Disjoint;
    OrderedIsDisjoint(exact);
    CoveringCostsMore(exact, other);
    CostInBytes(model);
    assert model.Pricing()(SpanBytes(exact), |exact|) == model.Cost(SpanBytes(exact), |exact|);
    WaitingBound(model, |other|);
    CostInRequests(model, SpanBytes(other), |exact|, |other|);
    assert model.Pricing()(SpanBytes(other), |exact|) == model.Cost(SpanBytes(other), |exact|);
  }

  /** When any covering plan saves, the winner exists and saves too. */
  lemma WinnerSaves(model: CostModel, cached: nat, body: nat, exact: seq<Span>, chosen: Option<seq<Span>>, other: seq<Span>)
    requires model.Valid() && cached <= Usable(body) && body <= USIZE_MAX
    requires Ordered(exact) && NonEmpty(exact)
    requires Winner(model.Pricing(), Usable(body) - cached, exact, chosen)
    requires chosen.Some? ==> Rival(model.Pricing(), Usable(body) - cached, exact, chosen.value)
    requires Disjoint(other) && Covers(other, exact) && |other| <= USIZE_MAX && Saves(model, cached, body, other)
    ensures chosen.Some? && Saves(model, cached, body, chosen.value)
  {
    hide SpanBytes, Covered, Covers, Ordered, Disjoint, NonEmpty, Usable, Worthwhile, CostModel.Cost;
    SavesWithin(model, cached, body, other);
    var budget := Usable(body) - cached;
    var rival := if |other| <= |exact| then other else exact;
    if |other| > |exact| {
      ExactIsCheaper(model, exact, other);
      OrderedIsDisjoint(exact);
      CoversItself(exact);
    }
    assert Rival(model.Pricing(), budget, exact, rival);
    assert chosen.Some? && AsGood(model.Pricing(), chosen.value, rival);
    assert Price(model.Pricing(), chosen.value) == model.Cost(SpanBytes(chosen.value), |chosen.value|);
    assert Price(model.Pricing(), rival) == model.Cost(SpanBytes(rival), |rival|);
    CheaperIsWorthwhile(model.Cost(SpanBytes(chosen.value), |chosen.value|), model.Cost(SpanBytes(other), |other|),
                        model.Cost(Minus(body, cached), 1));
  }

  lemma CheaperIsWorthwhile(cheap: Option<nat>, dear: Option<nat>, ordinary: Option<nat>)
    requires Worthwhile(dear, ordinary) && cheap.Some? && cheap.value <= dear.value
    ensures Worthwhile(cheap, ordinary)
  {
  }

  lemma SavesWithin(model: CostModel, cached: nat, body: nat, plan: seq<Span>)
    requires Saves(model, cached, body, plan) && body <= USIZE_MAX
    ensures cached <= Usable(body) && SpanBytes(plan) <= USIZE_MAX && model.Cost(SpanBytes(plan), |plan|).Some?
    ensures SpanBytes(plan) <= Usable(body) - cached
  {
  }

  lemma CoversItself(spans: seq<Span>)
    ensures Covers(spans, spans)
  {
  }

  /** The exact ranges and the request are covered by the same plans. */
  lemma CoversExact(plan: seq<Span>, exact: seq<Span>, requested: seq<Span>)
    requires forall b :: Covered(exact, b) <==> Covered(requested, b)
    ensures Covers(plan, exact) <==> Covers(plan, requested)
  {
    hide Covered;
  }

  lemma UsableBytes(body: nat)
    ensures Usable(body) == body * 3 / 4
  {
  }

  lemma MonotoneBelow(cost: RangePlanner.Cost, fewer: nat, more: nat)
    requires Monotone(cost, more) && fewer <= more
    ensures Monotone(cost, fewer)
  {
  }

  /** No covering plan saves. */
  ghost predicate NoneSaves(model: CostModel, requested: seq<Span>, cached: nat, body: nat) {
    forall other :: Disjoint(other) && Covers(other, requested) && |other| <= USIZE_MAX ==>
      !Saves(model, cached, body, other)
  }

  lemma WinnerAlwaysSaves(model: CostModel, requested: seq<Span>, cached: nat, body: nat, exact: seq<Span>,
                          chosen: Option<seq<Span>>)
    requires model.Valid() && cached <= Usable(body) && body <= USIZE_MAX
    requires Ordered(exact) && NonEmpty(exact) && forall b :: Covered(exact, b) <==> Covered(requested, b)
    requires Winner(model.Pricing(), Usable(body) - cached, exact, chosen)
    requires chosen.Some? ==> Rival(model.Pricing(), Usable(body) - cached, exact, chosen.value)
    ensures NoneSaves(model, requested, cached, body) || (chosen.Some? && Saves(model, cached, body, chosen.value))
  {
    hide SpanBytes, Covered, Covers, Ordered, Disjoint, NonEmpty, Winner, Rival, Usable, Saves, CostModel.Cost;
    forall other | Disjoint(other) && Covers(other, requested) && |other| <= USIZE_MAX && Saves(model, cached, body, other)
      ensures chosen.Some? && Saves(model, cached, body, chosen.value)
    {
      CoversExact(other, exact, requested);
      WinnerSaves(model, cached, body, exact, chosen, other);
    }
  }

  /** A plan fit for use: it covers the request in ordered, non-empty reads, reads nothing outside, and saves. */
  ghost predicate GoodPlan(model: CostModel, requested: seq<Span>, cached: nat, body: nat, plan: seq<Span>) {
    && Ordered(plan) && Covers(plan, requested) && Saves(model, cached, body, plan)
    && (NonEmpty(requested) ==> NonEmpty(plan))
    && forall low, high :: Within(requested, low, high) ==> Within(plan, low, high)
  }

  /** No covering plan of as few ranges as the request, within the budget, is cheaper, or as cheap and smaller. */
  ghost predicate Best(cost: RangePlanner.Cost, budget: nat, requested: seq<Span>, plan: seq<Span>) {
    exists exact ::
      && Ordered(exact) && (forall b :: Covered(exact, b) <==> Covered(requested, b))
      && Rival(cost, budget, exact, plan) && Winner(cost, budget, exact, Some(plan))
  }

  /**
   * The reads for the requested ranges, when they are worth it: what the transport alone would choose, or else
   * what costs least.
   */
  method PayloadRanges(model: CostModel, requested: seq<Span>, cached: nat, body: nat)
    returns (r: Result<Option<seq<Span>>>, ghost first: seq<Span>)
    requires model.Valid() && Forward(requested) && |requested| <= USIZE_MAX && body <= USIZE_MAX
    ensures r.Err? <==> cached > body || RequestedBytes(requested) > body - cached
    ensures r.Ok? && r.value.Some? ==> GoodPlan(model, requested, cached, body, r.value.value)
    ensures r.Ok? && r.value.None? && NonEmpty(requested) ==> NoneSaves(model, requested, cached, body)
    ensures r.Ok? ==> Best(model.TransportPricing(), body - cached, requested, first)
    ensures r.Ok? && Saves(model, cached, body, first) ==> r.value == Some(first)
    ensures r.Ok? && !Saves(model, cached, body, first) && r.value.Some? ==>
              Best(model.Pricing(), Minus(body * 3 / 4, cached), requested, r.value.value)
  {
    hide SpanBytes, Covered, Covers, Ordered, Disjoint, NonEmpty, Within, Winner, RequestedBytes, Usable,
         Worthwhile, CostModel.Cost, AsGood, CostModel.Valid, Monotone;
    first := [];
    if cached > body {
      return Err(Invalid(CachedPrefix)), first;
    }
    var initial, exact := Choose(requested, body - cached, model.TransportPricing());
    ExactBytes(requested, exact);
    assert Price(model.TransportPricing(), exact).Some?;
    if initial.None? {
      return Err(Invalid(PayloadPlan)), first;
    }
    first := initial.value;
    TransportCostInBytes(model);
    MonotoneBelow(model.TransportPricing(), |exact|, USIZE_MAX);
    assert Best(model.TransportPricing(), body - cached, requested, first);
    var usable := Usable(body);
    if usable < cached {
      assert NoneSaves(model, requested, cached, body);
      return Ok(None), first;
    }
    CoversExact(initial.value, exact, requested);
    var ordinary := model.Cost(body - cached, 1);
    var partial := model.Cost(SpanBytes(initial.value), |initial.value|);
    if SpanBytes(initial.value) <= usable - cached && Worthwhile(partial, ordinary) {
      return Ok(initial), first;
    }
    var chosen, exact' := Choose(requested, usable - cached, model.Pricing());
    CostInBytes(model);
    MonotoneBelow(model.Pricing(), |exact'|, USIZE_MAX);
    if NonEmpty(requested) {
      WinnerAlwaysSaves(model, requested, cached, body, exact', chosen);
    }
    if chosen.None? {
      return Ok(None), first;
    }
    CoversExact(chosen.value, exact', requested);
    partial := model.Cost(SpanBytes(chosen.value), |chosen.value|);
    if SpanBytes(chosen.value) <= usable - cached && Worthwhile(partial, ordinary) {
      UsableBytes(body);
      assert Best(model.Pricing(), usable - cached, requested, chosen.value);
      return Ok(chosen), first;
    }
    return Ok(None), first;
  }
}
