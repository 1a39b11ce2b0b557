/** The cost budget that concurrent page probes of one read share. */
module ProbeBudgets {
  import opened Costs
  import opened Limits
  import opened Numbers
  import opened Options
  import opened Spans

  const ROUNDS: nat := 9

  /** What has been reserved in one discovery round. */
  datatype Round = Round(bytes: nat, requests: nat)

  /** A request to reserve bytes in a round. */
  datatype Reservation = Reservation(round: nat, bytes: nat, requests: nat)

  /** What a budget is fixed to: without fallback requests, `base` already charges a complete fallback. */
  datatype Terms = Terms(model: CostModel, limit: nat, base: nat, fallback: Option<nat>)

  datatype Account = Account(rounds: seq<Round>, remaining: nat)

  // ---------------------------------------------------------------- what an account costs

  predicate Priced(model: CostModel, rounds: seq<Round>) {
    forall i :: 0 <= i < |rounds| ==> model.Cost(rounds[i].bytes, rounds[i].requests).Some?
  }

  /** The price, or nothing where the curve does not reach. */
  function PriceOf(model: CostModel, bytes: nat, requests: nat): nat {
    match model.Cost(bytes, requests)
    case Some(cost) => cost
    case None => 0
  }

  function RoundCost(model: CostModel, round: Round): nat { PriceOf(model, round.bytes, round.requests) }

  /** Every round pays its own cost. */
  function Charged(model: CostModel, rounds: seq<Round>): nat {
    if rounds == [] then 0 else Charged(model, rounds[..|rounds| - 1]) + RoundCost(model, rounds[|rounds| - 1])
  }

  function ReservedBytes(rounds: seq<Round>): nat {
    if rounds == [] then 0 else ReservedBytes(rounds[..|rounds| - 1]) + rounds[|rounds| - 1].bytes
  }

  /** The price of reading whatever remains, when it is still to be charged. */
  function FallbackCost(terms: Terms, remaining: nat): Option<nat> {
    match terms.fallback
    case Some(requests) => terms.model.Cost(remaining, requests)
    case None => Some(0)
  }

  /** All rounds, and giving up now, stay within the limit. */
  predicate Affordable(terms: Terms, account: Account) {
    && Priced(terms.model, account.rounds)
    && FallbackCost(terms, account.remaining).Some?
    && terms.base + Charged(terms.model, account.rounds) + FallbackCost(terms, account.remaining).value <= terms.limit
  }

  function Reserved(account: Account, r: Reservation): Account
    requires r.round < |account.rounds| && r.bytes <= account.remaining
  {
    var before := account.rounds[r.round];
    Account(account.rounds[r.round := Round(before.bytes + r.bytes, before.requests + r.requests)],
            account.remaining - r.bytes)
  }

  predicate Granted(terms: Terms, account: Account, r: Reservation) {
    && r.round < |account.rounds| && (r.round == 0 ==> terms.fallback.Some?) && r.bytes <= account.remaining
    && Affordable(terms, Reserved(account, r))
  }

  /** A refused reservation changes nothing. */
  function After(terms: Terms, account: Account, r: Reservation): Account {
    if Granted(terms, account, r) then Reserved(account, r) else account
  }

  function AfterAll(terms: Terms, account: Account, reservations: seq<Reservation>): Account {
    if reservations == [] then account
    else
      var n := |reservations| - 1;
      After(terms, AfterAll(terms, account, reservations[..n]), reservations[n])
  }

  /** What the granted reservations of a round add up to. */
  function GrantedIn(terms: Terms, account: Account, reservations: seq<Reservation>, round: nat): Round {
    if reservations == [] then Round(0, 0)
    else
      var n := |reservations| - 1;
      var before := GrantedIn(terms, account, reservations[..n], round);
      var r := reservations[n];
      if r.round == round && Granted(terms, AfterAll(terms, account, reservations[..n]), r)
      then Round(before.bytes + r.bytes, before.requests + r.requests)
      else before
  }

  // ---------------------------------------------------------------- any order of reservations

  lemma {:induction false} ChargedUpdate(model: CostModel, rounds: seq<Round>, i: nat, next: Round)
    requires i < |rounds|
    ensures Charged(model, rounds) >= RoundCost(model, rounds[i])
    ensures Charged(model, rounds[i := next])
         == Charged(model, rounds) - RoundCost(model, rounds[i]) + RoundCost(model, next)
  {
    var n := |rounds| - 1;
    if i == n {
      assert rounds[i := next][..n] == rounds[..n];
    } else {
      assert rounds[i := next][..n] == rounds[..n][i := next];
      ChargedUpdate(model, rounds[..n], i, next);
    }
  }

  lemma {:induction false} ReservedUpdate(rounds: seq<Round>, i: nat, next: Round)
    requires i < |rounds|
    ensures ReservedBytes(rounds[i := next]) == ReservedBytes(rounds) - rounds[i].bytes + next.bytes
  {
    var n := |rounds| - 1;
    if i == n {
      assert rounds[i := next][..n] == rounds[..n];
    } else {
      assert rounds[i := next][..n] == rounds[..n][i := next];
      ReservedUpdate(rounds[..n], i, next);
    }
  }

  /**
   * However callers interleave, the charge stays within the limit, bytes are neither created nor
   * lost, and each round holds exactly what was granted in it.
   */
  lemma {:induction false} AnyOrderIsSafe(terms: Terms, account: Account, reservations: seq<Reservation>)
    requires Affordable(terms, account)
    ensures var end := AfterAll(terms, account, reservations);
            && Affordable(terms, end) && |end.rounds| == |account.rounds|
            && end.remaining + ReservedBytes(end.rounds) == account.remaining + ReservedBytes(account.rounds)
            && end.remaining <= account.remaining
            && forall k :: 0 <= k < |end.rounds| ==>
                 && end.rounds[k].bytes == account.rounds[k].bytes + GrantedIn(terms, account, reservations, k).bytes
                 && end.rounds[k].requests
                    == account.rounds[k].requests + GrantedIn(terms, account, reservations, k).requests
  {
    hide Affordable, Charged, ReservedBytes;
    if reservations != [] {
      var n := |reservations| - 1;
      AnyOrderIsSafe(terms, account, reservations[..n]);
      var before, r := AfterAll(terms, account, reservations[..n]), reservations[n];
      if Granted(terms, before, r) {
        ReservedUpdate(before.rounds, r.round, Reserved(before, r).rounds[r.round]);
      }
    }
  }

  lemma {:induction false} AfterBoth(terms: Terms, account: Account, first: seq<Reservation>, second: seq<Reservation>)
    ensures AfterAll(terms, account, first + second) == AfterAll(terms, AfterAll(terms, account, first), second)
  {
    if second == [] {
      assert first + second == first;
    } else {
      var n := |second| - 1;
      AfterBoth(terms, account, first, second[..n]);
      assert (first + second)[..|first + second| - 1] == first + second[..n];
    }
  }

  /**
   * Whatever has been asked of a budget: all rounds, and reading everything that remains, cost at most five
   * percent more than the ordinary reads.
   */
  lemma WithinFivePercent(terms: Terms, start: Account, log: seq<Reservation>, bytes: nat, requests: nat)
    requires Affordable(terms, start) && Opened(terms, start, bytes, requests)
    ensures var account := AfterAll(terms, start, log);
            var ordinary := terms.model.Cost(bytes, requests).value;
            match terms.fallback
            case Some(pieces) =>
              && terms.model.Cost(account.remaining, pieces).Some?
              && 20 * (terms.base + Charged(terms.model, account.rounds)
                       + terms.model.Cost(account.remaining, pieces).value) <= 21 * ordinary
            case None => 20 * (terms.base + Charged(terms.model, account.rounds)) <= 21 * ordinary
  {
    hide CostModel.Cost, AfterAll, Charged;
    AnyOrderIsSafe(terms, start, log);
  }

  /** With the fallback already charged, the first round never changes. */
  lemma {:induction false} FirstRoundClosed(terms: Terms, account: Account, reservations: seq<Reservation>)
    requires terms.fallback.None? && account.rounds != []
    ensures var end := AfterAll(terms, account, reservations);
            |end.rounds| == |account.rounds| && end.rounds[0] == account.rounds[0]
  {
    if reservations != [] {
      FirstRoundClosed(terms, account, reservations[..|reservations| - 1]);
    }
  }

  /** Two reservations that are granted in both orders leave the same account. */
  lemma OrderDoesNotMatter(terms: Terms, account: Account, a: Reservation, b: Reservation)
    requires Granted(terms, account, a) && Granted(terms, Reserved(account, a), b)
    requires Granted(terms, account, b) && Granted(terms, Reserved(account, b), a)
    ensures Reserved(Reserved(account, a), b) == Reserved(Reserved(account, b), a)
  {
    hide Affordable;
    var x, y := Reserved(Reserved(account, a), b).rounds, Reserved(Reserved(account, b), a).rounds;
    assert forall k :: 0 <= k < |x| ==> x[k] == y[k];
  }

  lemma PricedUpdate(model: CostModel, rounds: seq<Round>, i: nat, next: Round)
    requires i < |rounds| && Priced(model, rounds)
    ensures Priced(model, rounds[i := next]) <==> model.Cost(next.bytes, next.requests).Some?
  {
    assert rounds[i := next][i] == next;
  }

  /** The round's old cost out of the charge, its new cost in: the decision from the whole account. */
  lemma IncrementalDecision(terms: Terms, account: Account, r: Reservation)
    requires Priced(terms.model, account.rounds)
    requires r.round < |account.rounds| && (r.round == 0 ==> terms.fallback.Some?) && r.bytes <= account.remaining
    ensures var next := Reserved(account, r).rounds[r.round];
            && terms.model.Cost(account.rounds[r.round].bytes, account.rounds[r.round].requests).Some?
            && Charged(terms.model, account.rounds) >= RoundCost(terms.model, account.rounds[r.round])
            && Charged(terms.model, Reserved(account, r).rounds)
               == Charged(terms.model, account.rounds) - RoundCost(terms.model, account.rounds[r.round])
                  + RoundCost(terms.model, next)
            && (Granted(terms, account, r) <==>
                  && terms.model.Cost(next.bytes, next.requests).Some?
                  && FallbackCost(terms, account.remaining - r.bytes).Some?
                  && terms.base + Charged(terms.model, Reserved(account, r).rounds)
                     + FallbackCost(terms, account.remaining - r.bytes).value <= terms.limit)
  {
    hide CostModel.Cost, Charged;
    var next := Reserved(account, r).rounds[r.round];
    ChargedUpdate(terms.model, account.rounds, r.round, next);
    PricedUpdate(terms.model, account.rounds, r.round, next);
  }

  /** A budget opened for a scan that would ordinarily read `bytes` in `requests`. */
  ghost predicate Opened(terms: Terms, start: Account, bytes: nat, requests: nat) {
    && terms.model.Cost(bytes, requests).Some?
    && terms.limit == Limit(terms.model.Cost(bytes, requests).value)
    && start.remaining + ReservedBytes(start.rounds) <= bytes
  }

  /**
   * In a scan of any practical size, whatever was reserved before, none of the sums behind a decision
   * overflows 128 bits, not even for a request that is then refused.
   */
  lemma DecisionFits(terms: Terms, start: Account, log: seq<Reservation>, r: Reservation, bytes: nat, requests: nat)
    requires terms.model.Valid() && Stored(terms.model) && Affordable(terms, start)
    requires Opened(terms, start, bytes, requests)
    requires bytes <= MANY_BYTES / 2 && requests <= MANY_REQUESTS && r.bytes <= MANY_BYTES / 2
    requires terms.fallback.Some? ==> terms.fallback.value <= MANY_REQUESTS
    requires var account := AfterAll(terms, start, log);
             r.round < |account.rounds| && account.rounds[r.round].requests + r.requests <= MANY_REQUESTS
    ensures var account := AfterAll(terms, start, log);
            var before := account.rounds[r.round];
            terms.base + Charged(terms.model, account.rounds)
            + PriceOf(terms.model, before.bytes + r.bytes, before.requests + r.requests)
            + (if terms.fallback.None? then 0
               else PriceOf(terms.model, Minus(account.remaining, r.bytes), terms.fallback.value))
            <= U128_MAX
  {
    hide CostModel.Cost, CostModel.Valid, Stored, Charged, Priced, Affordable, AfterAll, ReservedBytes;
    var account := AfterAll(terms, start, log);
    var before := account.rounds[r.round];
    AnyOrderIsSafe(terms, start, log);
    AffordableIsPriced(terms, account);
    RoundInReserved(account.rounds, r.round);
    CostFits(terms.model, bytes, requests);
    PriceFits(terms.model, before.bytes + r.bytes, before.requests + r.requests);
    if terms.fallback.Some? {
      PriceFits(terms.model, Minus(account.remaining, r.bytes), terms.fallback.value);
    }
  }

  lemma PriceFits(model: CostModel, bytes: nat, requests: nat)
    requires model.Valid() && Stored(model) && bytes <= MANY_BYTES && requests <= MANY_REQUESTS
    ensures PriceOf(model, bytes, requests) <= HIGH_COST
  {
    hide CostModel.Cost, CostModel.Valid, Stored;
    if model.Cost(bytes, requests).Some? {
      CostFits(model, bytes, requests);
    }
  }

  lemma {:induction false} RoundInReserved(rounds: seq<Round>, i: nat)
    requires i < |rounds|
    ensures rounds[i].bytes <= ReservedBytes(rounds)
  {
    if i < |rounds| - 1 {
      RoundInReserved(rounds[..|rounds| - 1], i);
    }
  }

  // ---------------------------------------------------------------- the program

  class ProbeBudget {
    const terms: Terms
    var spent: nat
    var remaining: nat
    const rounds: array<Round>

    ghost function Contents(): Account
      reads this, rounds
    {
      Account(rounds[..], remaining)
    }

    /** The running charge agrees with the rounds. */
    ghost predicate Consistent()
      reads this, rounds
    {
      && rounds.Length == ROUNDS
      && Priced(terms.model, rounds[..])
      && spent == terms.base + Charged(terms.model, rounds[..])
    }

    ghost predicate Valid()
      reads this, rounds
    {
      Consistent() && Affordable(terms, Contents()) && spent <= terms.limit
    }

    constructor (terms: Terms, remaining: nat)
      requires terms.model.Valid()
      ensures this.terms == terms && fresh(rounds) && Consistent()
      ensures Contents() == Account(NoRounds(), remaining)
    {
      this.terms := terms;
      this.spent := terms.base;
      this.remaining := remaining;
      this.rounds := new Round[ROUNDS](_ => Round(0, 0));
      new;
      assert rounds[..] == NoRounds();
      NothingCharged(terms.model, ROUNDS);
    }

    /** Takes the round's old cost out of the running charge and puts its new cost in. */
    method Reserve(round: nat, bytes: nat, requests: nat) returns (granted: bool)
      requires Consistent()
      modifies this, rounds
      ensures granted <==> Granted(terms, old(Contents()), Reservation(round, bytes, requests))
      ensures Contents() == After(terms, old(Contents()), Reservation(round, bytes, requests))
      ensures granted || old(Valid()) ==> Valid()
      ensures Consistent() && (!granted ==> spent == old(spent))
    {
      hide Charged, CostModel.Cost, Affordable, Priced, FallbackCost;
      ghost var account, r := Contents(), Reservation(round, bytes, requests);
      if terms.fallback.None? && round == 0 {
        return false;
      }
      if round >= rounds.Length {
        return false;
      }
      var previous := rounds[round];
      var next := Round(previous.bytes + bytes, previous.requests + requests);
      if bytes <= remaining {
        IncrementalDecision(terms, account, r);
        assert Reserved(account, r).rounds[round] == next;
      }
      var nextCost := terms.model.Cost(next.bytes, next.requests);
      if nextCost.None? {
        return false;
      }
      RoundPriced(terms.model, rounds[..], round);
      var previousCost := terms.model.Cost(previous.bytes, previous.requests);
      var charge := spent - previousCost.value + nextCost.value;
      if bytes > remaining {
        return false;
      }
      var fallbackCost := FallbackCost(terms, remaining - bytes);
      if fallbackCost.None? {
        return false;
      }
      if charge + fallbackCost.value > terms.limit {
        return false;
      }
      rounds[round] := next;
      spent := charge;
      remaining := remaining - bytes;
      assert Contents() == Reserved(account, r);
      AffordableIsPriced(terms, Contents());
      granted := true;
    }
  }

  function NoRounds(): (r: seq<Round>)
    ensures |r| == 9
  {
    seq(ROUNDS, _ => Round(0, 0))
  }

  // ---------------------------------------------------------------- the first two grants

  /** Two rounds pay for themselves; two requests of one round are paid as one read. */
  function ChargeOfTwo(model: CostModel, a: Reservation, b: Reservation): Option<nat> {
    if a.round == b.round then model.Cost(a.bytes + b.bytes, a.requests + b.requests)
    else
      match (model.Cost(a.bytes, a.requests), model.Cost(b.bytes, b.requests))
      case (Some(first), Some(second)) => Some(first + second)
      case (_, _) => None
  }

  lemma EmptyRounds(model: CostModel)
    requires model.Valid()
    ensures Priced(model, NoRounds()) && Charged(model, NoRounds()) == 0
  {
    NothingCharged(model, ROUNDS);
  }

  /** A new budget grants a first reservation exactly when it, and giving up after it, are within the limit. */
  lemma FirstGrant(terms: Terms, bytes: nat, a: Reservation)
    requires terms.model.Valid()
    ensures Granted(terms, Account(NoRounds(), bytes), a) <==>
              && a.round < 9 && (a.round == 0 ==> terms.fallback.Some?) && a.bytes <= bytes
              && terms.model.Cost(a.bytes, a.requests).Some? && FallbackCost(terms, bytes - a.bytes).Some?
              && terms.base + terms.model.Cost(a.bytes, a.requests).value
                 + FallbackCost(terms, bytes - a.bytes).value <= terms.limit
  {
    hide CostModel.Cost, CostModel.Valid, Charged, Priced, FallbackCost;
    EmptyRounds(terms.model);
    if a.round < 9 {
      PricedUpdate(terms.model, NoRounds(), a.round, Round(a.bytes, a.requests));
      ChargedUpdate(terms.model, NoRounds(), a.round, Round(a.bytes, a.requests));
      CostAtLeast(terms.model, 0, 0);
    }
  }

  /** After a first grant, a second one is decided by what both cost together. */
  lemma SecondGrant(terms: Terms, bytes: nat, a: Reservation, b: Reservation)
    requires terms.model.Valid() && Granted(terms, Account(NoRounds(), bytes), a)
    ensures Granted(terms, After(terms, Account(NoRounds(), bytes), a), b) <==>
              && b.round < 9 && (b.round == 0 ==> terms.fallback.Some?) && a.bytes + b.bytes <= bytes
              && ChargeOfTwo(terms.model, a, b).Some? && FallbackCost(terms, bytes - a.bytes - b.bytes).Some?
              && terms.base + ChargeOfTwo(terms.model, a, b).value
                 + FallbackCost(terms, bytes - a.bytes - b.bytes).value <= terms.limit
  {
    hide CostModel.Cost, CostModel.Valid, Charged, Priced, FallbackCost;
    EmptyRounds(terms.model);
    FirstGrant(terms, bytes, a);
    var first := Round(a.bytes, a.requests);
    PricedUpdate(terms.model, NoRounds(), a.round, first);
    ChargedUpdate(terms.model, NoRounds(), a.round, first);
    CostAtLeast(terms.model, 0, 0);
    if b.round < 9 {
      var rounds := NoRounds()[a.round := first];
      var next := if a.round == b.round then Round(a.bytes + b.bytes, a.requests + b.requests)
                  else Round(b.bytes, b.requests);
      PricedUpdate(terms.model, rounds, b.round, next);
      ChargedUpdate(terms.model, rounds, b.round, next);
    }
  }

  /** Five percent above the ordinary cost. */
  function Limit(ordinaryCost: nat): nat { ordinaryCost + ordinaryCost / 20 }

  /** The first prefix of every page, reserved as round 0. */
  function FirstPrefixes(pages: nat): Reservation { Reservation(0, PREFIX_BYTES * pages, pages) }

  /** A budget that still has to be able to pay for the whole fallback. */
  method New(model: CostModel, ordinary: seq<Span>, pages: nat, fallbackRequests: nat) returns (budget: ProbeBudget?)
    requires model.Valid()
    ensures model.Cost(SpanBytes(ordinary), |ordinary|).None? ==> budget == null
    ensures model.Cost(SpanBytes(ordinary), |ordinary|).Some? ==>
              var limit := Limit(model.Cost(SpanBytes(ordinary), |ordinary|).value);
              var terms := Terms(model, limit, 0, Some(fallbackRequests));
              var start := Account(NoRounds(), SpanBytes(ordinary));
              && 20 * limit <= 21 * model.Cost(SpanBytes(ordinary), |ordinary|).value < 20 * limit + 20
              && (budget != null <==> Granted(terms, start, Reservation(0, 8192 * pages, pages)))
              && (budget != null ==> fresh(budget) && fresh(budget.rounds) && budget.Valid() && budget.terms == terms
                                     && budget.Contents() == Reserved(start, Reservation(0, 8192 * pages, pages))
                                     && Opened(terms, budget.Contents(), SpanBytes(ordinary), |ordinary|))
  {
    hide CostModel.Cost, CostModel.Valid, Granted, Affordable, SpanBytes, ReservedBytes;
    var bytes := SpanBytes(ordinary);
    var ordinaryCost := model.Cost(bytes, |ordinary|);
    if ordinaryCost.None? {
      return null;
    }
    budget := new ProbeBudget(Terms(model, Limit(ordinaryCost.value), 0, Some(fallbackRequests)), bytes);
    var granted := budget.Reserve(0, PREFIX_BYTES * pages, pages);
    if !granted {
      budget := null;
    } else {
      ReservedFirst(bytes, FirstPrefixes(pages));
    }
  }

  lemma ReservedFirst(bytes: nat, r: Reservation)
    requires r.round < ROUNDS && r.bytes <= bytes
    ensures var account := Reserved(Account(NoRounds(), bytes), r);
            account.remaining + ReservedBytes(account.rounds) == bytes
  {
    hide ReservedBytes;
    NothingReserved(ROUNDS);
    ReservedUpdate(NoRounds(), r.round, Round(r.bytes, r.requests));
  }

  lemma {:induction false} NothingReserved(n: nat)
    ensures ReservedBytes(seq(n, _ => Round(0, 0))) == 0
  {
    if n > 0 {
      var all := seq(n, _ => Round(0, 0));
      assert all[..n - 1] == seq(n - 1, _ => Round(0, 0));
      NothingReserved(n - 1);
    }
  }

  /** What a time is worth in bytes, rounded up; None when it exceeds the 128-bit range. */
  function TimeCost(nanos: nat, bytesPerSecond: nat): Option<nat> {
    if nanos > U128_MAX || nanos * bytesPerSecond > U128_MAX then None
    else Some((nanos * bytesPerSecond + NANOS - 1) / NANOS)
  }

  /** The terms when `extra` nanoseconds are estimated, if that is a valid number, and `elapsed` have passed. */
  function EstimatedTerms(model: CostModel, ordinaryCost: Option<nat>, extra: Option<nat>, elapsed: nat): Option<Terms> {
    match (ordinaryCost, extra)
    case (Some(ordinary), Some(nanos)) =>
      (match TimeCost(nanos + elapsed, model.BytesPerSecond())
       case Some(cost) =>
         if cost > ordinary / 20 then None else Some(Terms(model, Limit(ordinary), ordinary + cost, None))
       case None => None)
    case _ => None
  }

  /** The estimate and the time spent on it, in bytes rounded up, are all that is charged beyond the ordinary cost. */
  lemma EstimateWithinLimit(model: CostModel, ordinaryCost: Option<nat>, extra: Option<nat>, elapsed: nat)
    requires EstimatedTerms(model, ordinaryCost, extra, elapsed).Some?
    ensures var terms := EstimatedTerms(model, ordinaryCost, extra, elapsed).value;
            && ordinaryCost.Some? && extra.Some? && terms.model == model && terms.fallback.None?
            && ordinaryCost.value <= terms.base <= terms.limit == Limit(ordinaryCost.value)
            && var charged, spent := (terms.base - ordinaryCost.value) * 1_000_000_000,
                                     (extra.value + elapsed) * (model.mbps * 125_000);
               spent <= charged < spent + 1_000_000_000
  {
  }

  /** An estimate is accepted exactly when it and the time spent on it are worth no more than a twentieth. */
  lemma EstimateAccepted(model: CostModel, ordinaryCost: nat, extra: nat, elapsed: nat)
    requires extra + elapsed <= U128_MAX && (extra + elapsed) * (model.mbps * 125_000) <= U128_MAX
    ensures EstimatedTerms(model, Some(ordinaryCost), Some(extra), elapsed).Some?
       <==> (extra + elapsed) * (model.mbps * 125_000) <= ordinaryCost / 20 * 1_000_000_000
  {
    CeilingAtMost((extra + elapsed) * (model.mbps * 125_000), ordinaryCost / 20);
  }

  lemma CeilingAtMost(x: nat, most: nat)
    ensures (x + 999_999_999) / 1_000_000_000 <= most <==> x <= most * 1_000_000_000
  {
  }

  /** A budget that has paid for a complete fallback up front. */
  method FromEstimate(model: CostModel, ordinary: seq<Span>, pages: nat, extra: Option<nat>, elapsed: nat)
    returns (budget: ProbeBudget?)
    requires model.Valid()
    ensures var terms := EstimatedTerms(model, model.Cost(SpanBytes(ordinary), |ordinary|), extra, elapsed);
            && (budget != null <==> terms.Some? && 8192 * pages <= SpanBytes(ordinary))
            && (budget != null ==> fresh(budget) && fresh(budget.rounds) && budget.Valid() && budget.terms == terms.value
                                   && budget.Contents() == Account(NoRounds(), SpanBytes(ordinary) - 8192 * pages))
    ensures budget != null ==>
              var ordinaryCost := model.Cost(SpanBytes(ordinary), |ordinary|);
              ordinaryCost.Some? && 20 * budget.terms.limit <= 21 * ordinaryCost.value < 20 * budget.terms.limit + 20
    ensures budget != null ==> Opened(budget.terms, budget.Contents(), SpanBytes(ordinary), |ordinary|)
  {
    hide CostModel.Cost, CostModel.Valid, SpanBytes, EstimatedTerms, ReservedBytes;
    var bytes := SpanBytes(ordinary);
    var terms := EstimatedTerms(model, model.Cost(bytes, |ordinary|), extra, elapsed);
    if terms.None? || PREFIX_BYTES * pages > bytes {
      return null;
    }
    NothingCharged(model, ROUNDS);
    NothingReserved(ROUNDS);
    EstimateWithinLimit(model, model.Cost(bytes, |ordinary|), extra, elapsed);
    budget := new ProbeBudget(terms.value, bytes - PREFIX_BYTES * pages);
  }

  lemma RoundPriced(model: CostModel, rounds: seq<Round>, i: nat)
    requires Priced(model, rounds) && i < |rounds|
    ensures model.Cost(rounds[i].bytes, rounds[i].requests).Some?
    ensures Charged(model, rounds) >= model.Cost(rounds[i].bytes, rounds[i].requests).value
  {
    hide CostModel.Cost;
    ChargedUpdate(model, rounds, i, rounds[i]);
  }

  lemma AffordableIsPriced(terms: Terms, account: Account)
    requires Affordable(terms, account)
    ensures Priced(terms.model, account.rounds)
    ensures terms.base + Charged(terms.model, account.rounds) <= terms.limit
  {
  }

  lemma {:induction false} NothingCharged(model: CostModel, n: nat)
    requires model.Valid()
    ensures Priced(model, seq(n, _ => Round(0, 0))) && Charged(model, seq(n, _ => Round(0, 0))) == 0
  {
    CostAtLeast(model, 0, 0);
    if n > 0 {
      var all := seq(n, _ => Round(0, 0));
      assert all[..n - 1] == seq(n - 1, _ => Round(0, 0));
      NothingCharged(model, n - 1);
    }
  }
}
