/** Several requested ranges of one file, answered out of one probe budget. */
module RangeRequests {
  import opened Bytes
  import opened Costs
  import ExtraCosts
  import opened Limits
  import opened ObjectStore
  import opened Options
  import opened PageParts
  import opened PageReader
  import opened Pieces
  import opened ProbeBudgets
  import Ranks
  import opened Spans

  /** The extra time of prefixes in nanoseconds and what the estimate took; None when there is none in time. */
  type Estimator = (seq<ExtraCosts.ReadRange>, nat) -> Option<(real, nat)>

  // ---------------------------------------------------------------- the budget of a call

  function PagesIn(parts: seq<Part>): nat {
    if parts == [] then 0 else PagesIn(parts[..|parts| - 1]) + (if parts[|parts| - 1].page.Some? then 1 else 0)
  }

  function PageCount(parts: seq<seq<Part>>): nat {
    if parts == [] then 0 else PageCount(parts[..|parts| - 1]) + PagesIn(parts[|parts| - 1])
  }

  function PartCount(parts: seq<seq<Part>>): nat {
    if parts == [] then 0 else PartCount(parts[..|parts| - 1]) + |parts[|parts| - 1]|
  }

  /** The range is one page, or has none. */
  predicate Undivided(range: Span, parts: seq<Part>) {
    |parts| == 1 && parts[0].range == range && range.start <= range.end
  }

  /** Only undivided ranges can be simulated. */
  function ModeledRanges(ranges: seq<Span>, parts: seq<seq<Part>>): (r: Option<seq<ExtraCosts.ReadRange>>)
    requires |ranges| == |parts|
  {
    if |ranges| > MAX_READS || (exists k :: 0 <= k < |ranges| && !Undivided(ranges[k], parts[k])) then None
    else
      Some(seq(|ranges|, k requires 0 <= k < |ranges| =>
        ExtraCosts.ReadRange(Length(ranges[k]), parts[k][0].page.Some?)))
  }

  /** The time that five percent of the ordinary cost are worth. */
  function Allowance(ordinaryCost: nat, bytesPerSecond: nat): Option<nat>
    requires bytesPerSecond > 0
  {
    if ordinaryCost / 20 * NANOS > U128_MAX || ordinaryCost / 20 * NANOS / bytesPerSecond > USIZE_MAX then None
    else Some(ordinaryCost / 20 * NANOS / bytesPerSecond)
  }

  /** An estimate that is a valid number, rounded up. */
  function RoundedUp(extra: real): Option<nat> {
    if extra < 0.0 || extra >= (U128_MAX + 1) as real then None else Some(-((-extra).Floor))
  }

  /** The allowance is what a twentieth of the ordinary cost takes to transfer, in whole nanoseconds. */
  lemma AllowanceIs(ordinaryCost: nat, bytesPerSecond: nat)
    requires bytesPerSecond > 0
    ensures var allowance := Allowance(ordinaryCost, bytesPerSecond);
            allowance.Some? ==>
              var share := ordinaryCost / 20 * 1_000_000_000;
              allowance.value * bytesPerSecond <= share < (allowance.value + 1) * bytesPerSecond
  {
    var share := ordinaryCost / 20 * 1_000_000_000;
    assert share == share / bytesPerSecond * bytesPerSecond + share % bytesPerSecond;
    assert (share / bytesPerSecond + 1) * bytesPerSecond == share / bytesPerSecond * bytesPerSecond + bytesPerSecond;
  }

  /** Estimates are never rounded down. */
  lemma RoundedUpIs(extra: real)
    requires 0.0 <= extra < 340282366920938463463374607431768211456.0
    ensures RoundedUp(extra).Some? && extra <= RoundedUp(extra).value as real < extra + 1.0
  {
  }

  /** Without an estimator: the ordinary cost is priced, and the first prefixes and the fallback are affordable. */
  predicate PaysFallback(model: CostModel, ranges: seq<Span>, parts: seq<seq<Part>>) {
    var bytes := SpanBytes(ranges);
    var ordinaryCost := model.Cost(bytes, |ranges|);
    && ordinaryCost.Some?
    && Granted(Terms(model, Limit(ordinaryCost.value), 0, Some(PartCount(parts))), Account(NoRounds(), bytes),
               FirstPrefixes(PageCount(parts)))
  }

  /** With one: the call can be simulated, and an estimate comes in time and is at most five percent. */
  predicate PaysEstimate(model: CostModel, estimate: Estimator, ranges: seq<Span>, parts: seq<seq<Part>>)
    requires |ranges| == |parts| && model.BytesPerSecond() > 0
  {
    var bytes := SpanBytes(ranges);
    var ordinaryCost := model.Cost(bytes, |ranges|);
    && ModeledRanges(ranges, parts).Some? && ordinaryCost.Some?
    && var allowance := Allowance(ordinaryCost.value, model.BytesPerSecond());
       allowance.Some?
       && var extra := estimate(ModeledRanges(ranges, parts).value, allowance.value);
          extra.Some? && EstimatedTerms(model, ordinaryCost, RoundedUp(extra.value.0), extra.value.1).Some?
          && PREFIX_BYTES * PageCount(parts) <= bytes
  }

  /** When a call gets a budget. */
  ghost predicate Opens(model: CostModel, estimator: Option<Estimator>, ranges: seq<Span>, parts: seq<seq<Part>>)
    requires |ranges| == |parts| && model.BytesPerSecond() > 0
  {
    PageCount(parts) > 0
    && match estimator
       case None => PaysFallback(model, ranges, parts)
       case Some(estimate) => PaysEstimate(model, estimate, ranges, parts)
  }

  /** No budget is opened without pages, or when it could not pay for their first prefixes. */
  method OpenBudget(model: CostModel, estimator: Option<Estimator>, ranges: seq<Span>, parts: seq<seq<Part>>)
    returns (budget: ProbeBudget?)
    requires model.Valid() && |ranges| == |parts|
    ensures budget != null <==> Opens(model, estimator, ranges, parts)
    ensures budget != null ==>
              && fresh(budget) && fresh(budget.rounds) && budget.Valid() && budget.terms.model == model
              && PageCount(parts) > 0 && Opened(budget.terms, budget.Contents(), SpanBytes(ranges), |ranges|)
              && budget.Contents().remaining + PREFIX_BYTES * PageCount(parts) == SpanBytes(ranges)
              && (budget.terms.fallback == if estimator.None? then Some(PartCount(parts)) else None)
  {
    hide CostModel.Cost, CostModel.Valid, SpanBytes, PageCount, PartCount, Affordable, ReservedBytes, ModeledRanges,
         RoundedUp, EstimatedTerms, Granted;
    AcceptedBandwidth(model);
    var pages := PageCount(parts);
    if pages == 0 {
      return null;
    }
    match estimator
    case None =>
      budget := New(model, ranges, pages, PartCount(parts));
    case Some(estimate) =>
      var input := ModeledRanges(ranges, parts);
      var ordinaryCost := model.Cost(SpanBytes(ranges), |ranges|);
      if input.None? || ordinaryCost.None? {
        return null;
      }
      var allowance := Allowance(ordinaryCost.value, model.BytesPerSecond());
      if allowance.None? {
        return null;
      }
      var extra := estimate(input.value, allowance.value);
      if extra.None? {
        return null;
      }
      budget := FromEstimate(model, ranges, pages, RoundedUp(extra.value.0), extra.value.1);
      if budget != null {
        EstimateWithinLimit(model, ordinaryCost, RoundedUp(extra.value.0), extra.value.1);
      }
  }

  lemma AcceptedBandwidth(model: CostModel)
    requires model.Valid()
    ensures model.BytesPerSecond() > 0
  {
  }

  // ---------------------------------------------------------------- a call

  ghost predicate AllSplit(parts: seq<seq<Part>>, candidates: seq<Page>, ranges: seq<Span>) {
    |parts| == |ranges| && forall k :: 0 <= k < |ranges| ==> Split(parts[k], candidates, ranges[k])
  }

  ghost predicate Requested(ranges: seq<Span>, file: seq<Byte>) {
    forall k :: 0 <= k < |ranges| ==> ranges[k].start <= ranges[k].end <= |file|
  }

  /** Without a budget every range is read as it is stored; with one it is made of its parts. */
  ghost predicate Answered(answer: seq<Byte>, range: Span, parts: seq<Part>, budgeted: bool, header: HeaderSize,
                           file: seq<Byte>)
    requires range.start <= range.end <= |file|
  {
    if budgeted then Assembled(answer, parts, header, file) else answer == file[range.start..range.end]
  }

  /** At every moment all that was granted, and giving up then, stays within the limit, and no byte is lost. */
  ghost predicate AlwaysAffordable(terms: Terms, start: Account, log: seq<Reservation>) {
    forall n :: 0 <= n <= |log| ==>
      var account := AfterAll(terms, start, log[..n]);
      && Affordable(terms, account)
      && account.remaining + ReservedBytes(account.rounds) == start.remaining + ReservedBytes(start.rounds)
  }

  /** What is simulated for a call satisfies the simulator's own conditions, if its pages exceed a first prefix. */
  lemma ModeledAreValid(ranges: seq<Span>, parts: seq<seq<Part>>, candidates: seq<Page>)
    requires AllSplit(parts, candidates, ranges) && ModeledRanges(ranges, parts).Some?
    requires forall page :: page in candidates ==> Length(page.range) > PREFIX_BYTES
    ensures ExtraCosts.ValidRequests(ModeledRanges(ranges, parts).value)
    ensures forall k :: 0 <= k < |ranges| ==>
              var modeled := ModeledRanges(ranges, parts).value[k];
              && modeled.bytes == Length(ranges[k])
              && (modeled.split <==> exists page :: page in candidates && parts[k] == [Part(ranges[k], Some(page))])
  {
    hide Straddled, Overlapping, InOrder, Tiles, Chained;
    forall k | 0 <= k < |ranges|
      ensures ModeledRanges(ranges, parts).value[k].split
         <==> exists page :: page in candidates && parts[k] == [Part(ranges[k], Some(page))]
    {
      assert Undivided(ranges[k], parts[k]) && Split(parts[k], candidates, ranges[k]);
      assert OwnPart(parts[k][0], candidates, ranges[k]);
      if parts[k][0].page.Some? {
        assert parts[k] == [Part(ranges[k], Some(parts[k][0].page.value))];
      }
    }
    forall k | 0 <= k < |ranges| && parts[k][0].page.Some?
      ensures Length(ranges[k]) > PREFIX_BYTES
    {
      assert Undivided(ranges[k], parts[k]) && Split(parts[k], candidates, ranges[k]);
      assert OwnPart(parts[k][0], candidates, ranges[k]);
    }
  }

  predicate IsPage(part: Part) { part.page.Some? }

  lemma {:induction false} PagesAreCounted(parts: seq<Part>)
    ensures PagesIn(parts) == Ranks.Count(parts, IsPage)
  {
    if parts != [] {
      PagesAreCounted(parts[..|parts| - 1]);
    }
  }

  /** The fallback pays for every part of every range, and the first prefixes for those that are pages. */
  lemma {:induction false} PartsAreCounted(parts: seq<seq<Part>>)
    ensures PartCount(parts) == |Flat(parts)|
    ensures PageCount(parts) == Ranks.Count(Flat(parts), IsPage)
  {
    if parts != [] {
      var before, last := parts[..|parts| - 1], parts[|parts| - 1];
      PartsAreCounted(before);
      FlatLast(before, last);
      assert before + [last] == parts;
      PagesAreCounted(last);
      Ranks.CountPlus(Flat(before), last, IsPage);
    }
  }

  predicate IsSplit(range: ExtraCosts.ReadRange) { range.split }

  /** A call is simulated with as many split reads as it has pages. */
  lemma {:induction false} SplitsAreCounted(ranges: seq<Span>, parts: seq<seq<Part>>)
    requires |ranges| == |parts| && ModeledRanges(ranges, parts).Some?
    ensures Ranks.Count(ModeledRanges(ranges, parts).value, IsSplit) == PageCount(parts)
  {
    if ranges != [] {
      var n := |ranges| - 1;
      assert forall k :: 0 <= k < n ==>
               Undivided(ranges[k], parts[k]) && ranges[..n][k] == ranges[k] && parts[..n][k] == parts[k];
      SplitsAreCounted(ranges[..n], parts[..n]);
      assert ModeledRanges(ranges, parts).value[..n] == ModeledRanges(ranges[..n], parts[..n]).value;
      assert Undivided(ranges[n], parts[n]);
      PagesAreCounted(parts[n]);
      assert parts[n] == [] + [parts[n][0]];
    }
  }

  lemma EveryMoment(terms: Terms, start: Account, log: seq<Reservation>)
    requires Affordable(terms, start)
    ensures AlwaysAffordable(terms, start, log)
  {
    hide Affordable, AfterAll, ReservedBytes;
    forall n | 0 <= n <= |log|
      ensures var account := AfterAll(terms, start, log[..n]);
              && Affordable(terms, account)
              && account.remaining + ReservedBytes(account.rounds) == start.remaining + ReservedBytes(start.rounds)
    {
      AnyOrderIsSafe(terms, start, log[..n]);
    }
  }

  method SplitRanges(ranges: seq<Span>, candidates: seq<Page>, ghost file: seq<Byte>) returns (parts: seq<seq<Part>>)
    requires Requested(ranges, file)
    ensures AllSplit(parts, candidates, ranges)
  {
    hide Split;
    parts := [];
    for k := 0 to |ranges|
      invariant |parts| == k && forall j :: 0 <= j < k ==> Split(parts[j], candidates, ranges[j])
    {
      var split := RangeParts(ranges[k], candidates);
      parts := parts + [split];
    }
  }

  /** One range, with the budget if there is one. */
  method AnswerRange(range: Span, parts: seq<Part>, header: HeaderSize, model: CostModel, store: Store,
                     budget: ProbeBudget?, others: nat -> Others, ghost candidates: seq<Page>, ghost file: seq<Byte>)
    returns (r: Result<seq<Byte>>, ghost log: seq<Reservation>)
    requires range.start <= range.end <= |file| && Split(parts, candidates, range) && LongEnough(candidates)
    requires model.Valid() && InPrefix(header) && (budget != null ==> budget.Valid())
    modifies budget, if budget == null then {} else {budget.rounds}
    ensures budget != null ==>
              budget.Valid() && budget.Contents() == AfterAll(budget.terms, old(budget.Contents()), log)
    ensures r.Ok? && budget != null ==> AllWeighed(r.value, parts, store, header, model, budget.terms)
    ensures r.Ok? && Stores(store, file) ==> Answered(r.value, range, parts, budget != null, header, file)
    ensures Reliable(store, file) && r.Err? ==> budget != null && SomeUnreadable(parts, header, file)
  {
    hide Stores, Reliable, InPrefix, InFile, Assembled, SomeUnreadable, ProbeBudget.Valid, Split, AfterAll, Read, LongEnough,
         AllWeighed;
    if budget == null {
      log := [];
      r := Read(store, range.start, range.end);
      if Reliable(store, file) {
        ReliableReads(store, file, range.start, range.end);
      }
      if Stores(store, file) {
        PlainPart(store, file, range.start, range.end);
      }
    } else {
      SplitInFile(parts, range, candidates, file);
      r, log := ReadRange(parts, header, model, store, budget, others, file);
    }
  }

  lemma SplitInFile(parts: seq<Part>, range: Span, candidates: seq<Page>, file: seq<Byte>)
    requires Split(parts, candidates, range) && LongEnough(candidates) && range.end <= |file|
    ensures forall k :: 0 <= k < |parts| ==> InFile(parts[k], file)
  {
    PartsInFile(parts, range, candidates, file);
  }

  /**
   * All ranges of a call. Whatever the estimator says and whatever else is asked of the budget meanwhile:
   * every answer is the stored bytes, or made of stored bytes and pages that read like the stored ones,
   * and the one budget of the call is affordable throughout. Behind a reliable store only an unreadable
   * page of a budgeted call fails it.
   */
  method ReadRanges(ranges: seq<Span>, candidates: seq<Page>, header: HeaderSize, model: CostModel,
                    estimator: Option<Estimator>, store: Store, others: nat -> nat -> Others, ghost file: seq<Byte>)
    returns (r: Result<seq<seq<Byte>>>, ghost parts: seq<seq<Part>>, ghost budget: ProbeBudget?, ghost start: Account,
             ghost log: seq<Reservation>)
    requires model.Valid() && InPrefix(header) && LongEnough(candidates) && Requested(ranges, file)
    ensures AllSplit(parts, candidates, ranges)
    ensures budget != null <==> model.BytesPerSecond() > 0 && Opens(model, estimator, ranges, parts)
    ensures budget != null ==>
              && PageCount(parts) > 0 && Opened(budget.terms, start, SpanBytes(ranges), |ranges|)
              && start.remaining + PREFIX_BYTES * PageCount(parts) == SpanBytes(ranges)
              && AlwaysAffordable(budget.terms, start, log) && budget.Contents() == AfterAll(budget.terms, start, log)
    ensures r.Ok? ==> |r.value| == |ranges|
    ensures r.Ok? && budget != null ==>
              forall k :: 0 <= k < |ranges| ==>
                AllWeighed(r.value[k], parts[k], store, header, model, budget.terms)
    ensures r.Ok? && Stores(store, file) ==>
              forall k :: 0 <= k < |ranges| ==>
                Answered(r.value[k], ranges[k], parts[k], budget != null, header, file)
    ensures Reliable(store, file) && r.Err? ==>
              budget != null && exists k :: 0 <= k < |ranges| && SomeUnreadable(parts[k], header, file)
  {
    hide Stores, Reliable, InPrefix, Answered, SomeUnreadable, ProbeBudget.Valid, Split, AfterAll, LongEnough, Opened,
         AlwaysAffordable, Affordable, PageCount, SpanBytes, AllWeighed, Opens;
    var split := SplitRanges(ranges, candidates, file);
    AcceptedBandwidth(model);
    var shared := OpenBudget(model, estimator, ranges, split);
    parts, budget, start, log := split, shared, Account(NoRounds(), 0), [];
    if shared != null {
      start := shared.Contents();
      NothingAsked(shared.terms, start);
      ValidIsAffordable(shared);
      EveryMoment(shared.terms, start, log);
    }
    var answers: seq<seq<Byte>> := [];
    for k := 0 to |ranges|
      modifies shared, if shared == null then {} else {shared.rounds}
      invariant |answers| == k
      invariant forall j :: 0 <= j < k && shared != null ==>
                  AllWeighed(answers[j], split[j], store, header, model, shared.terms)
      invariant shared != null ==>
                  && shared.Valid() && shared.Contents() == AfterAll(shared.terms, start, log)
                  && Affordable(shared.terms, start) && AlwaysAffordable(shared.terms, start, log)
      invariant Stores(store, file) ==> forall j :: 0 <= j < k ==>
                  Answered(answers[j], ranges[j], split[j], shared != null, header, file)
    {
      ghost var asked;
      var answer;
      answer, asked := AnswerRange(ranges[k], split[k], header, model, store, shared, others(k), candidates, file);
      if shared != null {
        AfterBoth(shared.terms, start, log, asked);
        log := log + asked;
        EveryMoment(shared.terms, start, log);
      }
      if answer.Err? {
        return Fail(answer), parts, budget, start, log;
      }
      answers := answers + [answer.value];
    }
    r := Ok(answers);
  }

  lemma ValidIsAffordable(budget: ProbeBudget)
    requires budget.Valid()
    ensures Affordable(budget.terms, budget.Contents())
  {
  }
}
