/** Numerical costs of reads in byte-equivalent units, with the source's saturating 128-bit arithmetic. */
module Costs {
  import opened Bytes
  import opened Limits
  import opened Numbers
  import opened Options
  import opened RangePlanner

  const U128_MAX: nat := 0xffff_ffff_ffff_ffff_ffff_ffff_ffff_ffff
  const NANOS: nat := 1_000_000_000
  const MAX_LATENCY_MS: nat := 60_000
  const MAX_MBPS: nat := 100_000
  const CURVE_ENTRIES: nat := 65

  function Sat(x: nat): nat { if x <= U128_MAX then x else U128_MAX }

  /** Rounds of requests at the fixed concurrency. */
  function Waves(requests: nat): nat { (requests + CONCURRENCY - 1) / CONCURRENCY }

  /** Transport part of a read: `waiting` bytes of latency in all, of which a share overlaps other responses. */
  function TransportCost(bytes: nat, latency: nat, waiting: nat): nat {
    Minus(Sat(bytes + waiting), Min(Sat(bytes * (CONCURRENCY - 1)) / CONCURRENCY, Minus(waiting, latency)))
  }

  /** Bytes in a number of requests, when one latency is worth `latency` bytes. */
  function PartialReadCost(bytes: nat, requests: nat, latency: nat, overhead: nat): nat {
    Max(TransportCost(bytes, latency, Sat(latency * Waves(requests))),
         Sat(Sat(overhead * requests) + (if requests == 0 then 0 else latency)))
  }

  /** Calibrated request costs: from nothing for no request, positive, and never falling. */
  predicate Curve(costs: seq<nat>) {
    && |costs| == CURVE_ENTRIES && costs[0] == 0 && costs[1] > 0
    && forall i :: 0 < i < CURVE_ENTRIES ==> costs[i - 1] <= costs[i]
  }

  datatype CostModel = CostModel(latencyMs: nat, mbps: nat, overhead: nat, curve: Option<seq<nat>>) {
    function BytesPerSecond(): nat { mbps * 125_000 }

    /** Bytes that one request's latency is worth. */
    function Delay(): nat { Sat(latencyMs * 1_000_000 * BytesPerSecond()) / NANOS }

    /** The profiles that are accepted. */
    predicate Valid() {
      && latencyMs <= MAX_LATENCY_MS && 1 <= mbps <= MAX_MBPS
      && (curve.Some? ==> Curve(curve.value))
    }

    function Capacity(requests: nat): nat
      requires curve.Some? ==> requests < |curve.value|
    {
      match curve
      case Some(costs) => costs[requests] * BytesPerSecond() / NANOS
      case None => Sat(overhead * requests)
    }

    /** None when the curve does not reach that many requests. */
    function Cost(bytes: nat, requests: nat): Option<nat> {
      if curve.Some? && requests >= |curve.value| then None
      else Some(Max(PartialReadCost(bytes, requests, Delay(), 0), Capacity(requests)))
    }

    function Pricing(): RangePlanner.Cost {
      (bytes, requests) => Cost(bytes, requests)
    }

    /** The transport's own score, which prices any number of requests. */
    function TransportPricing(): RangePlanner.Cost {
      (bytes, requests) => Some(PartialReadCost(bytes, requests, Delay(), overhead))
    }
  }

  // ---------------------------------------------------------------- monotone, saturation included

  /** More bytes cost no less, as long as the waiting alone is not near saturation. */
  lemma TransportInBytes(fewer: nat, more: nat, latency: nat, waiting: nat)
    requires fewer <= more && waiting <= U128_MAX / 2
    ensures TransportCost(fewer, latency, waiting) <= TransportCost(more, latency, waiting)
  {
  }

  const LONG_WAIT: nat := U128_MAX / 64

  /** Bytes and waiting are added without saturating. */
  predicate Unsaturated(bytes: nat, waiting: nat) {
    bytes + waiting <= U128_MAX
  }

  /**
   * Longer waiting costs no less, exactly as long as the sum does not saturate: once it does, the overlap
   * that is taken off it still grows.
   */
  lemma TransportInWaiting(bytes: nat, latency: nat, fewer: nat, more: nat)
    requires latency <= fewer <= more <= LONG_WAIT
    ensures TransportCost(bytes, latency, fewer) <= TransportCost(bytes, latency, more)
       <==> Unsaturated(bytes, more) || fewer == more
  {
  }

  /** The whole latency is paid on top of the bytes, exactly as long as the sum does not saturate. */
  lemma TransportInFull(bytes: nat, latency: nat, waiting: nat)
    requires latency <= waiting <= LONG_WAIT
    ensures TransportCost(bytes, latency, waiting) >= bytes + latency <==> Unsaturated(bytes, waiting)
  {
  }

  lemma ProductInBounds(a: nat, b: nat, most: nat, times: nat)
    requires a <= most && b <= times
    ensures a * b <= most * times
  {
    assert a * b <= most * b;
    assert most * b <= most * times;
  }

  lemma DelayBound(model: CostModel)
    requires model.Valid()
    ensures model.Delay() <= 750_000_000_000
  {
    ProductInBounds(model.latencyMs * 1_000_000, model.BytesPerSecond(), 60_000_000_000, 12_500_000_000);
  }

  lemma WaitingBound(model: CostModel, requests: nat)
    requires model.Valid() && requests <= USIZE_MAX
    ensures model.Delay() * Waves(requests) <= LONG_WAIT
  {
    DelayBound(model);
    ProductInBounds(model.Delay(), Waves(requests), 750_000_000_000, USIZE_MAX);
  }

  /** An accepted profile never prices more bytes lower, for any number of requests a plan can have. */
  lemma CostInBytes(model: CostModel)
    requires model.Valid()
    ensures Monotone(model.Pricing(), USIZE_MAX)
  {
    hide TransportCost;
    forall fewer: nat, more: nat, requests: nat | fewer <= more && requests <= USIZE_MAX && model.Cost(fewer, requests).Some?
      ensures model.Cost(fewer, requests).value <= model.Cost(more, requests).value
    {
      WaitingBound(model, requests);
      TransportInBytes(fewer, more, model.Delay(), model.Delay() * Waves(requests));
    }
  }

  lemma PartialInBytes(fewer: nat, more: nat, requests: nat, latency: nat, overhead: nat)
    requires fewer <= more && latency * Waves(requests) <= LONG_WAIT
    ensures PartialReadCost(fewer, requests, latency, overhead) <= PartialReadCost(more, requests, latency, overhead)
  {
    hide TransportCost, Waves;
    TransportInBytes(fewer, more, latency, latency * Waves(requests));
  }

  /** Neither does the transport's own score, with any overhead. */
  lemma TransportCostInBytes(model: CostModel)
    requires model.Valid()
    ensures Monotone(model.TransportPricing(), USIZE_MAX)
  {
    hide PartialReadCost, Waves, CostModel.Delay;
    forall fewer: nat, more: nat, requests: nat | fewer <= more && requests <= USIZE_MAX
      ensures PartialReadCost(fewer, requests, model.Delay(), model.overhead)
           <= PartialReadCost(more, requests, model.Delay(), model.overhead)
    {
      WaitingBound(model, requests);
      PartialInBytes(fewer, more, requests, model.Delay(), model.overhead);
    }
  }

  lemma {:induction false} CurveAscends(costs: seq<nat>, i: nat, j: nat)
    requires Curve(costs) && i <= j < CURVE_ENTRIES
    ensures costs[i] <= costs[j]
  {
    if i < j {
      CurveAscends(costs, i, j - 1);
    }
  }

  lemma ScaledOrder(a: nat, b: nat, c: nat)
    requires a <= b
    ensures a * c <= b * c && a * c / NANOS <= b * c / NANOS && c * a <= c * b
  {
  }

  lemma CapacityInRequests(model: CostModel, fewer: nat, more: nat)
    requires model.Valid() && fewer <= more && (model.curve.Some? ==> more < CURVE_ENTRIES)
    ensures model.Capacity(fewer) <= model.Capacity(more)
  {
    if model.curve.Some? {
      CurveAscends(model.curve.value, fewer, more);
      ScaledOrder(model.curve.value[fewer], model.curve.value[more], model.BytesPerSecond());
    } else {
      ScaledOrder(fewer, more, model.overhead);
    }
  }

  lemma WavesAscend(fewer: nat, more: nat)
    requires fewer <= more
    ensures Waves(fewer) <= Waves(more)
    ensures Waves(fewer) == 0 <==> fewer == 0
  {
  }

  /** The latency of all waves is at least that of one. */
  lemma WavesWait(model: CostModel, fewer: nat, more: nat)
    requires model.Valid() && fewer <= more <= USIZE_MAX
    ensures model.Delay() * Waves(fewer) <= model.Delay() * Waves(more) <= LONG_WAIT
    ensures fewer > 0 ==> model.Delay() <= model.Delay() * Waves(fewer)
    ensures fewer == 0 ==> model.Delay() * Waves(fewer) == 0
  {
    hide Waves, CostModel.Delay;
    WaitingBound(model, more);
    WavesAscend(fewer, more);
    WavesAscend(0, fewer);
    ScaledOrder(Waves(fewer), Waves(more), model.Delay());
    if fewer > 0 {
      ScaledOrder(1, Waves(fewer), model.Delay());
    }
  }

  /** Nor does it price more requests lower, unless the bytes and the waiting together saturate. */
  lemma CostInRequests(model: CostModel, bytes: nat, fewer: nat, more: nat)
    requires model.Valid() && fewer <= more <= USIZE_MAX && model.Cost(bytes, more).Some?
    requires Unsaturated(bytes, model.Delay() * Waves(more)) || (fewer > 0 && Waves(fewer) == Waves(more))
    ensures model.Cost(bytes, fewer).Some?
    ensures model.Cost(bytes, fewer).value <= model.Cost(bytes, more).value
  {
    hide TransportCost, Waves, CostModel.Delay;
    CapacityInRequests(model, fewer, more);
    WavesWait(model, fewer, more);
    WavesWait(model, more, more);
    if fewer > 0 {
      TransportInWaiting(bytes, model.Delay(), model.Delay() * Waves(fewer), model.Delay() * Waves(more));
    } else if more > 0 {
      TransportInFull(bytes, model.Delay(), model.Delay() * Waves(more));
      NoWaiting(bytes, model.Delay());
    }
  }

  lemma NoWaiting(bytes: nat, latency: nat)
    ensures TransportCost(bytes, latency, 0) == Sat(bytes)
  {
  }

  /** More requests cost no less: the sum does not saturate, or they wait no longer, or their own costs decide. */
  predicate NoCheaper(model: CostModel, bytes: nat, fewer: nat, more: nat)
    requires model.curve.Some? ==> more < |model.curve.value|
  {
    || Unsaturated(bytes, model.Delay() * Waves(more))
    || model.Delay() * Waves(fewer) == model.Delay() * Waves(more)
    || TransportCost(bytes, model.Delay(), model.Delay() * Waves(fewer)) <= model.Capacity(more)
  }

  /** For every accepted profile that condition is exact: past saturation, more waves are priced lower. */
  lemma SaturatedCost(model: CostModel, bytes: nat, fewer: nat, more: nat)
    requires model.Valid() && 0 < fewer <= more <= USIZE_MAX && model.Cost(bytes, more).Some?
    ensures model.Cost(bytes, fewer).Some?
    ensures model.Cost(bytes, fewer).value <= model.Cost(bytes, more).value <==> NoCheaper(model, bytes, fewer, more)
  {
    hide TransportCost, Waves, CostModel.Delay, CostModel.Capacity, Unsaturated;
    WavesWait(model, fewer, more);
    WavesWait(model, more, more);
    CapacityInRequests(model, fewer, more);
    TransportInWaiting(bytes, model.Delay(), model.Delay() * Waves(fewer), model.Delay() * Waves(more));
    AtLeastLatency(bytes, model.Delay(), model.Delay() * Waves(fewer));
    AtLeastLatency(bytes, model.Delay(), model.Delay() * Waves(more));
  }

  /** Bytes that are read in no request at all cost themselves. */
  lemma SaturatedFromNone(model: CostModel, bytes: nat, more: nat)
    requires model.Valid() && 0 < more <= USIZE_MAX && bytes <= U128_MAX && model.Cost(bytes, more).Some?
    ensures model.Cost(bytes, 0) == Some(bytes)
    ensures bytes <= model.Cost(bytes, more).value
       <==> bytes + model.Delay() * Waves(more) - model.Delay() <= U128_MAX || bytes <= model.Capacity(more)
  {
    hide TransportCost, Waves, CostModel.Delay;
    WavesWait(model, 0, more);
    WavesWait(model, more, more);
    NoWaiting(bytes, model.Delay());
    TransportAboveBytes(bytes, model.Delay(), model.Delay() * Waves(more));
    AtLeastLatency(bytes, model.Delay(), model.Delay() * Waves(more));
  }

  lemma TransportAboveBytes(bytes: nat, latency: nat, waiting: nat)
    requires latency <= waiting <= LONG_WAIT && bytes <= U128_MAX
    ensures TransportCost(bytes, latency, waiting) >= bytes <==> bytes + waiting - latency <= U128_MAX
  {
  }

  const SIXTEENTH: nat := U128_MAX / 16

  /** More requests than any list of ranges in memory has. */
  const LISTED_REQUESTS: nat := 0x1000_0000_0000_0000

  /**
   * With numbers as they are stored and fewer than 2^60 requests, their own costs never decide: past
   * saturation more waves are always priced lower.
   */
  lemma SaturatedStoredCost(model: CostModel, bytes: nat, fewer: nat, more: nat)
    requires model.Valid() && Stored(model) && 0 < fewer <= more < LISTED_REQUESTS && model.Cost(bytes, more).Some?
    ensures model.Cost(bytes, fewer).Some?
    ensures model.Cost(bytes, fewer).value <= model.Cost(bytes, more).value
       <==> Unsaturated(bytes, model.Delay() * Waves(more)) || model.Delay() * Waves(fewer) == model.Delay() * Waves(more)
  {
    hide TransportCost, Waves, CostModel.Delay, CostModel.Capacity, CostModel.Cost, CostModel.Valid, Stored;
    SaturatedCost(model, bytes, fewer, more);
    WavesWait(model, fewer, more);
    if !Unsaturated(bytes, model.Delay() * Waves(more)) {
      SaturatedIsHigh(bytes, model.Delay(), model.Delay() * Waves(fewer), model.Delay() * Waves(more));
      ListedCapacity(model, bytes, more);
    }
  }

  lemma SaturatedIsHigh(bytes: nat, latency: nat, fewer: nat, more: nat)
    requires latency <= fewer <= more <= LONG_WAIT && !Unsaturated(bytes, more)
    ensures TransportCost(bytes, latency, fewer) > SIXTEENTH
  {
  }

  lemma ListedCapacity(model: CostModel, bytes: nat, requests: nat)
    requires model.Valid() && Stored(model) && requests < LISTED_REQUESTS && model.Cost(bytes, requests).Some?
    ensures model.Capacity(requests) <= SIXTEENTH
  {
    if model.curve.Some? {
      ProductInBounds(model.curve.value[requests], model.BytesPerSecond(), USIZE_MAX, 12_500_000_000);
    } else {
      ProductInBounds(model.overhead, requests, USIZE_MAX, LISTED_REQUESTS - 1);
    }
  }

  lemma AtLeastLatency(bytes: nat, latency: nat, waiting: nat)
    requires latency <= waiting <= LONG_WAIT
    ensures TransportCost(bytes, latency, waiting) >= latency
  {
  }

  /** The largest number of bytes that the type admits, though no page has it, costs less in 33 requests than in one. */
  lemma SaturationExample()
    ensures var model := CostModel(MAX_LATENCY_MS, MAX_MBPS, 0, None);
            && model.Valid() && model.Cost(U128_MAX, 1).Some? && model.Cost(U128_MAX, 33).Some?
            && model.Cost(U128_MAX, 33).value < model.Cost(U128_MAX, 1).value
  {
    var model := CostModel(MAX_LATENCY_MS, MAX_MBPS, 0, None);
    assert model.Delay() == 750_000_000_000 && Waves(1) == 1 && Waves(33) == 2;
    SaturatedStoredCost(model, U128_MAX, 1, 33);
  }

  /** Nothing costs nothing; a read costs at least its bytes and one latency. */
  lemma CostAtLeast(model: CostModel, bytes: nat, requests: nat)
    requires model.Valid() && requests <= USIZE_MAX && model.Cost(bytes, requests).Some?
    ensures bytes == 0 && requests == 0 ==> model.Cost(bytes, requests) == Some(0)
    ensures requests > 0 && Unsaturated(bytes, model.Delay() * Waves(requests)) ==>
              model.Cost(bytes, requests).value >= bytes + model.Delay()
  {
    hide TransportCost, Waves, CostModel.Delay;
    WavesWait(model, requests, requests);
    WavesAscend(0, requests);
    if requests > 0 {
      TransportInFull(bytes, model.Delay(), model.Delay() * Waves(requests));
    } else {
      NoWaiting(bytes, model.Delay());
    }
  }

  // ---------------------------------------------------------------- what a read costs

  /** Up to 32 requests go in one wave, up to 64 in two, and so on. */
  lemma WavesOf32(requests: nat, waves: nat)
    requires waves > 0 && 32 * (waves - 1) < requests <= 32 * waves
    ensures Waves(requests) == waves
  {
  }

  /** The waiting of all waves, of which all but the first hides behind 31 parts in 32 of the bytes. */
  function ReadTime(bytes: nat, latency: nat, waves: nat): nat {
    Max(bytes + latency, bytes - 31 * bytes / 32 + waves * latency)
  }

  lemma TransportTime(bytes: nat, latency: nat, waves: nat)
    requires waves > 0 && bytes + waves * latency <= U128_MAX && 31 * bytes <= U128_MAX
    ensures TransportCost(bytes, latency, latency * waves) == ReadTime(bytes, latency, waves)
  {
    assert latency * waves == waves * latency;
    ScaledOrder(1, waves, latency);
    TransportOf(bytes, latency, latency * waves);
  }

  lemma TransportOf(bytes: nat, latency: nat, waiting: nat)
    requires latency <= waiting && bytes + waiting <= U128_MAX && 31 * bytes <= U128_MAX
    ensures TransportCost(bytes, latency, waiting) == Max(bytes + latency, bytes - 31 * bytes / 32 + waiting)
  {
  }

  /** Away from saturation a read pays the longer of its transport and the handling of its requests. */
  lemma ReadCost(bytes: nat, requests: nat, waves: nat, latency: nat, overhead: nat)
    requires waves > 0 && 32 * (waves - 1) < requests <= 32 * waves
    requires bytes + waves * latency <= U128_MAX && 31 * bytes <= U128_MAX && overhead * requests + latency <= U128_MAX
    ensures PartialReadCost(bytes, requests, latency, overhead)
         == Max(ReadTime(bytes, latency, waves), overhead * requests + latency)
  {
    hide TransportCost, ReadTime, Waves;
    WavesOf32(requests, waves);
    TransportTime(bytes, latency, waves);
    assert latency * waves == waves * latency;
  }

  /** A latency in milliseconds at megabits per second, in bytes. */
  lemma DelayIs(model: CostModel)
    requires model.Valid()
    ensures model.Delay() == model.latencyMs * model.mbps * 125
  {
    ProductInBounds(model.latencyMs * 1_000_000, model.BytesPerSecond(), 60_000_000_000, 12_500_000_000);
    var product := model.latencyMs * model.mbps;
    assert model.latencyMs * 1_000_000 * (model.mbps * 125_000) == product * 125_000_000_000;
    assert product * 125_000_000_000 / 1_000_000_000 == product * 125;
  }

  /** What the requests themselves cost: as calibrated, in nanoseconds, or a fixed number of bytes each. */
  function RequestCost(model: CostModel, requests: nat): nat
    requires model.curve.Some? ==> requests < |model.curve.value|
  {
    match model.curve
    case Some(nanos) => nanos[requests] * (model.mbps * 125_000) / 1_000_000_000
    case None => model.overhead * requests
  }

  /** The whole price of a read of any profile, away from saturation. */
  lemma CostOfRead(model: CostModel, bytes: nat, requests: nat, waves: nat)
    requires model.Valid() && waves > 0 && 32 * (waves - 1) < requests <= 32 * waves && (model.curve.Some? ==> requests <= 64)
    requires bytes + waves * model.Delay() <= U128_MAX && 31 * bytes <= U128_MAX
    requires model.overhead * requests <= U128_MAX
    ensures model.Cost(bytes, requests)
         == Some(Max(ReadTime(bytes, model.Delay(), waves), RequestCost(model, requests)))
  {
    hide PartialReadCost, CostModel.Delay, CostModel.Valid, ReadTime;
    ReadCost(bytes, requests, waves, model.Delay(), 0);
    assert model.Delay() <= waves * model.Delay() by { ScaledOrder(1, waves, model.Delay()); }
    AtLeastDelay(bytes, model.Delay(), waves);
    CurveLength(model);
  }

  lemma CurveLength(model: CostModel)
    requires model.Valid()
    ensures model.curve.Some? ==> |model.curve.value| == 65
  {
  }

  lemma AtLeastDelay(bytes: nat, latency: nat, waves: nat)
    ensures ReadTime(bytes, latency, waves) >= latency
  {
  }

  /** One wave: the bytes and one latency. No bytes: one latency for each wave. */
  lemma OneWaveOrNoBytes(model: CostModel, bytes: nat, requests: nat, waves: nat)
    requires model.Valid() && model.curve.None? && model.overhead == 0
    requires waves > 0 && 32 * (waves - 1) < requests <= 32 * waves
    requires bytes + waves * model.Delay() <= U128_MAX && 31 * bytes <= U128_MAX
    ensures requests <= 32 ==> model.Cost(bytes, requests) == Some(bytes + model.Delay())
    ensures bytes == 0 ==> model.Cost(bytes, requests) == Some(waves * model.Delay())
  {
    hide CostModel.Delay, CostModel.Cost;
    CostOfRead(model, bytes, requests, waves);
    ScaledOrder(1, waves, model.Delay());
  }

  /** The profile's numbers are 64-bit words, as they are stored. */
  ghost predicate Stored(model: CostModel) {
    && model.overhead <= USIZE_MAX
    && (model.curve.Some? ==> forall i :: 0 <= i < |model.curve.value| ==> model.curve.value[i] <= USIZE_MAX)
  }

  const MANY_BYTES: nat := 0x1_0000_0000_0000_0000_0000
  const MANY_REQUESTS: nat := 0x1_0000_0000
  const HIGH_COST: nat := 0x4_0000_0000_0000_0000_0000_0000

  lemma CapacityFits(model: CostModel, requests: nat)
    requires model.Valid() && Stored(model) && requests <= MANY_REQUESTS
    requires model.curve.Some? ==> requests < |model.curve.value|
    ensures model.Capacity(requests) <= HIGH_COST
  {
    if model.curve.Some? {
      ProductInBounds(model.curve.value[requests], model.BytesPerSecond(), USIZE_MAX, 12_500_000_000);
    } else {
      ProductInBounds(model.overhead, requests, USIZE_MAX, MANY_REQUESTS);
    }
  }

  /** Costs of up to 2^80 bytes in up to 2^32 requests are far from the 128-bit limit. */
  lemma CostFits(model: CostModel, bytes: nat, requests: nat)
    requires model.Valid() && Stored(model) && bytes <= MANY_BYTES && requests <= MANY_REQUESTS
    requires model.Cost(bytes, requests).Some?
    ensures model.Cost(bytes, requests).value <= HIGH_COST
  {
    hide CostModel.Delay, CostModel.Capacity, Waves;
    DelayBound(model);
    FewWaves(requests);
    ProductInBounds(model.Delay(), Waves(requests), 750_000_000_000, MANY_REQUESTS);
    CapacityFits(model, requests);
  }

  lemma FewWaves(requests: nat)
    requires requests <= MANY_REQUESTS
    ensures Waves(requests) <= MANY_REQUESTS
  {
  }
}
