/** Calibrated request costs: greedy scheduling of drawn durations on 32 slots, and the median over many trials. */
module BatchCurve {
  import Costs
  import opened Draws
  import opened ExtraCosts
  import Limits
  import opened Ranks
  import Sorting

  const SLOTS: nat := Limits.CONCURRENCY
  const MAX_REQUESTS: nat := 64

  // ---------------------------------------------------------------- one schedule

  /** The first of the least loaded slots. */
  function LeastLoaded(slots: seq<nat>): (i: nat)
    requires slots != []
    ensures i < |slots| && forall j :: 0 <= j < |slots| ==> slots[i] <= slots[j]
  {
    if |slots| == 1 then 0
    else
      var i := LeastLoaded(slots[..|slots| - 1]);
      assert forall j :: 0 <= j < |slots| - 1 ==> slots[..|slots| - 1][j] == slots[j];
      if slots[|slots| - 1] < slots[i] then |slots| - 1 else i
  }

  function Highest(slots: seq<nat>): (r: nat)
    requires slots != []
    ensures r in slots && forall j :: 0 <= j < |slots| ==> slots[j] <= r
  {
    if |slots| == 1 then slots[0]
    else
      var r := Highest(slots[..|slots| - 1]);
      assert forall j :: 0 <= j < |slots| - 1 ==> slots[..|slots| - 1][j] == slots[j];
      if slots[|slots| - 1] > r then slots[|slots| - 1] else r
  }

  /** Every duration goes to the slot that is free first. */
  function Scheduled(durations: seq<nat>): (slots: seq<nat>)
    ensures |slots| == SLOTS
  {
    if durations == [] then seq(SLOTS, _ => 0)
    else
      var slots := Scheduled(durations[..|durations| - 1]);
      var i := LeastLoaded(slots);
      slots[i := slots[i] + durations[|durations| - 1]]
  }

  function Makespan(durations: seq<nat>): nat { Highest(Scheduled(durations)) }

  function Sum(s: seq<nat>): nat {
    if s == [] then 0 else Sum(s[..|s| - 1]) + s[|s| - 1]
  }

  /** One more request never ends the batch earlier. */
  lemma MakespanGrows(durations: seq<nat>)
    requires durations != []
    ensures Makespan(durations[..|durations| - 1]) <= Makespan(durations)
  {
    var before := Scheduled(durations[..|durations| - 1]);
    var i := LeastLoaded(before);
    var after := Scheduled(durations);
    var j :| 0 <= j < |before| && before[j] == Highest(before);
    assert before[j] <= after[j];
  }

  lemma {:induction false} SumUpdate(s: seq<nat>, i: nat, value: nat)
    requires i < |s|
    ensures Sum(s[i := value]) == Sum(s) - s[i] + value
  {
    var n := |s| - 1;
    if i == n {
      assert s[i := value][..n] == s[..n];
    } else {
      assert s[i := value][..n] == s[..n][i := value];
      SumUpdate(s[..n], i, value);
    }
  }

  lemma {:induction false} SumZero(n: nat)
    ensures Sum(seq(n, _ => 0)) == 0
  {
    if n > 0 {
      assert seq(n, _ => 0)[..n - 1] == seq(n - 1, _ => 0);
      SumZero(n - 1);
    }
  }

  lemma IdleSlots()
    ensures Sum(Scheduled([])) == 0 == Sum([]) && forall i :: 0 <= i < SLOTS ==> Scheduled([])[i] == 0
  {
    SumZero(SLOTS);
  }

  lemma SumLast(s: seq<nat>)
    requires s != []
    ensures Sum(s) == Sum(s[..|s| - 1]) + s[|s| - 1]
  {
  }

  /** No two slots are further apart than the longest duration. */
  ghost predicate Balanced(slots: seq<nat>, longest: nat) {
    forall i, j :: 0 <= i < |slots| && 0 <= j < |slots| ==> slots[i] <= slots[j] + longest
  }

  /** Adding to the least loaded slot. */
  lemma StaysBalanced(before: seq<nat>, least: nat, more: nat, longest: nat)
    requires least < |before| && more <= longest && forall j :: 0 <= j < |before| ==> before[least] <= before[j]
    requires Balanced(before, longest)
    ensures var after := before[least := before[least] + more];
            Sum(after) == Sum(before) + more && Balanced(after, longest)
  {
    SumUpdate(before, least, before[least] + more);
  }

  /** All work is on the slots, and no two slots are further apart than the longest duration. */
  lemma {:induction false} SlotsBalanced(durations: seq<nat>, longest: nat)
    requires forall i :: 0 <= i < |durations| ==> durations[i] <= longest
    ensures Sum(Scheduled(durations)) == Sum(durations)
    ensures Balanced(Scheduled(durations), longest)
  {
    hide LeastLoaded, Sum;
    if durations == [] {
      IdleSlots();
    } else {
      var n := |durations| - 1;
      SlotsBalanced(durations[..n], longest);
      var before := Scheduled(durations[..n]);
      var least := LeastLoaded(before);
      assert Scheduled(durations) == before[least := before[least] + durations[n]];
      StaysBalanced(before, least, durations[n], longest);
      SumLast(durations);
    }
  }

  lemma ProductStep(x: nat, n: nat)
    requires n > 0
    ensures x * n == x * (n - 1) + x
  {
  }

  lemma {:induction false} SumWithin(s: seq<nat>, low: nat, high: nat)
    requires forall i :: 0 <= i < |s| ==> low <= s[i] <= high
    ensures low * |s| <= Sum(s) <= high * |s|
  {
    if s != [] {
      SumWithin(s[..|s| - 1], low, high);
      ProductStep(low, |s|);
      ProductStep(high, |s|);
    } else {
      assert low * 0 == 0 == high * 0;
    }
  }

  lemma {:induction false} SumWithTop(s: seq<nat>, low: nat, high: nat, top: nat)
    requires forall i :: 0 <= i < |s| ==> low <= s[i] <= high
    requires top < |s| && s[top] == high
    ensures low * (|s| - 1) + high <= Sum(s)
  {
    var n := |s| - 1;
    if top == n {
      SumWithin(s[..n], low, high);
    } else {
      SumWithTop(s[..n], low, high, top);
      ProductStep(low, n);
    }
  }

  /** Greedy scheduling is within one duration of an even share. */
  lemma MakespanBounds(durations: seq<nat>, longest: nat)
    requires forall i :: 0 <= i < |durations| ==> durations[i] <= longest
    ensures Sum(durations) <= SLOTS * Makespan(durations) <= Sum(durations) + (SLOTS - 1) * longest
  {
    hide Balanced, Highest, Sum;
    SlotsBalanced(durations, longest);
    HighestBounds(Scheduled(durations), SLOTS, longest);
  }

  lemma HighestBounds(slots: seq<nat>, n: nat, longest: nat)
    requires |slots| == n > 0 && Balanced(slots, longest)
    ensures Sum(slots) <= n * Highest(slots) <= Sum(slots) + (n - 1) * longest
  {
    hide Sum, Highest;
    var high := Highest(slots);
    var top :| 0 <= top < |slots| && slots[top] == high;
    var low := if high >= longest then high - longest else 0;
    SumWithin(slots, low, high);
    SumWithTop(slots, low, high, top);
    EvenShare(n, low, high, longest, Sum(slots));
  }

  lemma EvenShare(slots: nat, low: nat, high: nat, longest: nat, sum: nat)
    requires slots > 0 && high <= low + longest && low * (slots - 1) + high <= sum <= high * slots
    ensures sum <= slots * high <= sum + (slots - 1) * longest
  {
    ProductStep(high, slots);
    ScaledSum(slots - 1, low, high, longest);
    Commuted(high, slots);
    Commuted(high, slots - 1);
    Commuted(low, slots - 1);
  }

  lemma Commuted(x: nat, y: nat)
    ensures x * y == y * x
  {
  }

  lemma ScaledSum(n: nat, low: nat, high: nat, more: nat)
    requires high <= low + more
    ensures n * high <= n * low + n * more
  {
    assert n * high <= n * (low + more);
    assert n * (low + more) == n * low + n * more;
  }

  ghost predicate Multiple(x: nat, d: nat) {
    exists k: nat :: x == k * d
  }

  lemma OneMore(x: nat, d: nat)
    requires Multiple(x, d)
    ensures Multiple(x + d, d) && Multiple(0, d)
  {
    var k: nat :| x == k * d;
    assert x + d == (k + 1) * d;
    assert 0 == 0 * d;
  }

  lemma {:induction false} SlotsAreMultiples(durations: seq<nat>, d: nat)
    requires forall i :: 0 <= i < |durations| ==> durations[i] == d
    ensures forall i :: 0 <= i < SLOTS ==> Multiple(Scheduled(durations)[i], d)
    ensures Sum(durations) == |durations| * d
  {
    hide Multiple;
    if durations == [] {
      ZeroIsMultiple(d);
    } else {
      var n := |durations| - 1;
      SlotsAreMultiples(durations[..n], d);
      var before := Scheduled(durations[..n]);
      OneMore(before[LeastLoaded(before)], d);
      ProductStep(d, n + 1);
    }
  }

  lemma ZeroIsMultiple(d: nat)
    ensures Multiple(0, d)
  {
    assert 0 == 0 * d;
  }

  /** Equal durations run in full waves. */
  lemma EqualDurationsRunInWaves(durations: seq<nat>, d: nat)
    requires d > 0 && forall i :: 0 <= i < |durations| ==> durations[i] == d
    ensures Makespan(durations) == (|durations| + SLOTS - 1) / SLOTS * d
  {
    hide Scheduled, Sum, Multiple;
    SlotsAreMultiples(durations, d);
    MakespanBounds(durations, d);
    assert Multiple(Makespan(durations), d);
    MultipleInWaves(Makespan(durations), |durations|, d);
  }

  lemma MultipleInWaves(m: nat, n: nat, d: nat)
    requires d > 0 && Multiple(m, d) && n * d <= SLOTS * m <= n * d + (SLOTS - 1) * d
    ensures m == (n + SLOTS - 1) / SLOTS * d
  {
    var k: nat :| m == k * d;
    WholeWaves(m, k, n, d);
  }

  lemma WholeWaves(m: nat, k: nat, n: nat, d: nat)
    requires d > 0 && m == k * d && n * d <= SLOTS * m <= n * d + (SLOTS - 1) * d
    ensures m == (n + SLOTS - 1) / SLOTS * d
  {
    assert SLOTS * m == (SLOTS * k) * d;
    CancelLess(n, SLOTS * k + 1, d);
    assert (SLOTS * k) * d < (n + SLOTS) * d;
    CancelLess(SLOTS * k, n + SLOTS, d);
  }

  // ---------------------------------------------------------------- order statistics

  predicate NatAtMost(a: nat, b: nat) { a <= b }

  lemma NatOrder()
    ensures Sorting.TotalOrder(NatAtMost)
  {
  }

  function Ordered(s: seq<nat>): (r: seq<nat>)
    ensures |r| == |s|
  {
    NatOrder();
    Sorting.Sort(s, NatAtMost)
  }

  /** Larger values have larger order statistics. */
  lemma OrderStatistics(a: seq<nat>, b: seq<nat>, k: nat)
    requires |a| == |b| && k < |a| && forall i :: 0 <= i < |a| ==> a[i] <= b[i]
    ensures Ordered(a)[k] <= Ordered(b)[k]
  {
    NatOrder();
    var x, v := Ordered(a)[k], Ordered(b)[k];
    SortedRank(a, Ordered(a), k, NatAtMost);
    SortedRank(b, Ordered(b), k, NatAtMost);
    if x > v {
      CountPointwise(b, a, UpTo(v, NatAtMost), Before(x, NatAtMost));
    }
  }

  // ---------------------------------------------------------------- the curve

  function DurationAt(mix: Mix, durations: seq<nat>, k: nat): nat
    requires durations != []
    ensures DurationAt(mix, durations, k) in durations
  {
    durations[mix(SeedAfter(k + 1)) % |durations|]
  }

  /** The first `n` durations drawn in a trial; every trial draws as many as the largest batch needs. */
  function Drawn(mix: Mix, durations: seq<nat>, trial: nat, n: nat): (r: seq<nat>)
    requires durations != []
    ensures |r| == n
  {
    seq<nat>(n, i requires 0 <= i < n => DurationAt(mix, durations, MAX_REQUESTS * trial + i))
  }

  /** How long batches of `n` take in the first `trials` trials. */
  function Outcomes(mix: Mix, durations: seq<nat>, n: nat, trials: nat): (r: seq<nat>)
    requires durations != []
    ensures |r| == trials
  {
    seq(trials, t requires 0 <= t < trials => Makespan(Drawn(mix, durations, t, n)))
  }

  function Middle(outcomes: seq<nat>): nat
    requires |outcomes| == TRIALS
  {
    var sorted := Ordered(outcomes);
    (sorted[TRIALS / 2 - 1] + sorted[TRIALS / 2]) / 2
  }

  /**
   * Of 1024 outcomes, at most 511 are less than `a` and at least 512 are not more; at most 512 are less than
   * `b` and at least 513 are not more. The middle is halfway between, rounded down.
   */
  lemma MiddleIsMedian(outcomes: seq<nat>) returns (a: nat, b: nat)
    requires |outcomes| == 1024
    ensures Ranked(outcomes, a, 511, NatAtMost) && Ranked(outcomes, b, 512, NatAtMost) && a <= b
    ensures Middle(outcomes) == (a + b) / 2
  {
    NatOrder();
    a, b := Ordered(outcomes)[511], Ordered(outcomes)[512];
    assert NatAtMost(a, b);
    SortedRank(outcomes, Ordered(outcomes), 511, NatAtMost);
    SortedRank(outcomes, Ordered(outcomes), 512, NatAtMost);
  }

  /** The durations of a trial are the next ones of one sequence; a trial always uses up 64 of them. */
  lemma DrawsOfTrial(mix: Mix, durations: seq<nat>, trial: nat, n: nat, i: nat)
    requires durations != [] && i < n
    ensures Drawn(mix, durations, trial, n)[i]
         == durations[mix((452 + 0x9e37_79b9_7f4a_7c15 * (64 * trial + i + 1)) % 0x1_0000_0000_0000_0000) % |durations|]
  {
    hide SeedAfter;
    var k := 64 * trial + i;
    assert Drawn(mix, durations, trial, n)[i] == DurationAt(mix, durations, k);
    SeedAt(k + 1);
  }

  lemma SeedAt(k: nat)
    ensures SeedAfter(k) == (452 + 0x9e37_79b9_7f4a_7c15 * k) % 0x1_0000_0000_0000_0000
  {
  }

  /** A batch of one request takes what that request takes. */
  lemma BatchOfOne(mix: Mix, durations: seq<nat>, trial: nat)
    requires durations != [] && trial < 1024
    ensures Outcomes(mix, durations, 1, 1024)[trial]
         == durations[mix((452 + 0x9e37_79b9_7f4a_7c15 * (64 * trial + 1)) % 0x1_0000_0000_0000_0000) % |durations|]
  {
    hide Makespan;
    DrawsOfTrial(mix, durations, trial, 1, 0);
    var drawn := Drawn(mix, durations, trial, 1);
    assert drawn == [drawn[0]];
    FirstRequestTakes(drawn[0]);
  }

  lemma FirstRequestTakes(duration: nat)
    ensures Makespan([duration]) == duration
  {
    var before := Scheduled([]);
    var i := LeastLoaded(before);
    assert [duration][..0] == [];
    assert Scheduled([duration]) == before[i := duration];
    assert before[i := duration][i] == duration;
  }

  method SampleDuration(mix: Mix, durations: seq<nat>, seed: nat, ghost k: nat) returns (next: nat, duration: nat)
    requires durations != [] && seed == SeedAfter(k)
    ensures next == SeedAfter(k + 1) && duration == DurationAt(mix, durations, k)
  {
    NextSeed(k);
    next := (seed + DRAW_STEP) % WORD;
    duration := durations[mix(next) % |durations|];
  }

  /** Puts the next duration on the slot that is free first. */
  method Assign(slots: array<nat>, duration: nat, ghost before: seq<nat>)
    requires slots[..] == Scheduled(before)
    modifies slots
    ensures slots[..] == Scheduled(before + [duration])
  {
    var i := LeastLoaded(slots[..]);
    assert (before + [duration])[..|before|] == before;
    slots[i] := slots[i] + duration;
  }

  lemma OneMoreDrawn(mix: Mix, durations: seq<nat>, trial: nat, n: nat)
    requires durations != []
    ensures Drawn(mix, durations, trial, n) + [DurationAt(mix, durations, MAX_REQUESTS * trial + n)]
         == Drawn(mix, durations, trial, n + 1)
  {
  }

  /** One trial: the makespans of batches of every size, from the same draws. */
  method RunTrial(mix: Mix, durations: seq<nat>, seed: nat, ghost trial: nat) returns (next: nat, makespans: seq<nat>)
    requires durations != [] && seed == SeedAfter(MAX_REQUESTS * trial)
    ensures next == SeedAfter(MAX_REQUESTS * (trial + 1)) && |makespans| == MAX_REQUESTS
    ensures forall n :: 1 <= n <= MAX_REQUESTS ==> makespans[n - 1] == Makespan(Drawn(mix, durations, trial, n))
  {
    hide SeedAfter, Highest, Scheduled, Drawn, DurationAt;
    next, makespans := seed, [];
    var slots := new nat[SLOTS](_ => 0);
    NothingScheduled(slots[..]);
    assert Drawn(mix, durations, trial, 0) == [];
    for n: nat := 0 to MAX_REQUESTS
      invariant next == SeedAfter(MAX_REQUESTS * trial + n) && |makespans| == n
      invariant slots[..] == Scheduled(Drawn(mix, durations, trial, n))
      invariant forall m :: 1 <= m <= n ==> makespans[m - 1] == Makespan(Drawn(mix, durations, trial, m))
    {
      var duration;
      next, duration := SampleDuration(mix, durations, next, MAX_REQUESTS * trial + n);
      OneMoreDrawn(mix, durations, trial, n);
      Assign(slots, duration, Drawn(mix, durations, trial, n));
      makespans := makespans + [Highest(slots[..])];
    }
  }

  lemma NothingScheduled(slots: seq<nat>)
    requires |slots| == SLOTS && forall i :: 0 <= i < SLOTS ==> slots[i] == 0
    ensures slots == Scheduled([])
  {
  }

  lemma OneMoreOutcome(mix: Mix, durations: seq<nat>, n: nat, trials: nat)
    requires durations != []
    ensures Outcomes(mix, durations, n, trials + 1)
         == Outcomes(mix, durations, n, trials) + [Makespan(Drawn(mix, durations, trials, n))]
  {
    hide Makespan, Drawn;
  }

  /** The cost of a batch, by its number of requests. */
  method RequestBatchCosts(mix: Mix, durations: seq<nat>) returns (costs: seq<nat>)
    requires durations != []
    ensures |costs| == MAX_REQUESTS + 1 && costs[0] == 0
    ensures forall n :: 1 <= n <= MAX_REQUESTS ==> costs[n] == Middle(Outcomes(mix, durations, n, TRIALS))
  {
    hide SeedAfter, Makespan, Drawn, Outcomes, Middle;
    var seed := FIRST_SEED;
    FirstSeed();
    var outcomes: seq<seq<nat>> := seq(MAX_REQUESTS, _ => []);
    assert forall i :: 0 <= i < MAX_REQUESTS ==> outcomes[i] == Outcomes(mix, durations, i + 1, 0);
    for trial: nat := 0 to TRIALS
      invariant seed == SeedAfter(MAX_REQUESTS * trial) && |outcomes| == MAX_REQUESTS
      invariant forall i :: 0 <= i < MAX_REQUESTS ==> outcomes[i] == Outcomes(mix, durations, i + 1, trial)
    {
      var makespans;
      seed, makespans := RunTrial(mix, durations, seed, trial);
      ghost var before := outcomes;
      for i: nat := 0 to MAX_REQUESTS
        invariant |outcomes| == MAX_REQUESTS
        invariant forall j :: 0 <= j < i ==> outcomes[j] == before[j] + [makespans[j]]
        invariant forall j :: i <= j < MAX_REQUESTS ==> outcomes[j] == before[j]
      {
        outcomes := outcomes[i := outcomes[i] + [makespans[i]]];
      }
      forall i | 0 <= i < MAX_REQUESTS
        ensures outcomes[i] == Outcomes(mix, durations, i + 1, trial + 1)
      {
        assert before[i] == Outcomes(mix, durations, i + 1, trial);
        assert outcomes[i] == before[i] + [makespans[i]];
        OneMoreOutcome(mix, durations, i + 1, trial);
      }
    }
    costs := [0];
    for n: nat := 1 to MAX_REQUESTS + 1
      invariant |costs| == n && costs[0] == 0
      invariant forall m :: 1 <= m < n ==> costs[m] == Middle(Outcomes(mix, durations, m, TRIALS))
    {
      assert outcomes[n - 1] == Outcomes(mix, durations, n, TRIALS);
      costs := costs + [Middle(outcomes[n - 1])];
    }
  }

  lemma FirstSeed()
    ensures SeedAfter(0) == FIRST_SEED
  {
  }

  // ---------------------------------------------------------------- every curve is accepted

  lemma DrawnFrom(mix: Mix, durations: seq<nat>, trial: nat, n: nat)
    requires durations != []
    ensures forall i :: 0 <= i < n ==> Drawn(mix, durations, trial, n)[i] in durations
  {
    forall i | 0 <= i < n
      ensures Drawn(mix, durations, trial, n)[i] in durations
    {
      assert DurationAt(mix, durations, MAX_REQUESTS * trial + i) in durations;
    }
  }

  /** A larger batch never takes less time, in any trial. */
  lemma OutcomesGrow(mix: Mix, durations: seq<nat>, n: nat, t: nat)
    requires durations != [] && t < TRIALS
    ensures Outcomes(mix, durations, n, TRIALS)[t] <= Outcomes(mix, durations, n + 1, TRIALS)[t]
  {
    hide Makespan, Scheduled;
    var drawn := Drawn(mix, durations, t, n + 1);
    assert drawn[..n] == Drawn(mix, durations, t, n);
    MakespanGrows(drawn);
  }

  lemma MiddlesGrow(a: seq<nat>, b: seq<nat>)
    requires |a| == |b| == TRIALS && forall i :: 0 <= i < TRIALS ==> a[i] <= b[i]
    ensures Middle(a) <= Middle(b)
  {
    hide Ordered;
    OrderStatistics(a, b, TRIALS / 2 - 1);
    OrderStatistics(a, b, TRIALS / 2);
  }

  lemma {:induction false} MiddleOfEqual(a: seq<nat>, value: nat)
    requires |a| == TRIALS && forall i :: 0 <= i < TRIALS ==> a[i] == value
    ensures Middle(a) == value
  {
    NatOrder();
    var sorted := Ordered(a);
    Sorting.SameElements(a, sorted);
    assert sorted[TRIALS / 2 - 1] in a && sorted[TRIALS / 2] in a;
  }

  /** Positive durations give a curve that a cost model accepts. */
  lemma EveryCurveIsAccepted(mix: Mix, durations: seq<nat>, costs: seq<nat>)
    requires durations != [] && forall i :: 0 <= i < |durations| ==> durations[i] > 0
    requires |costs| == MAX_REQUESTS + 1 && costs[0] == 0
    requires forall n :: 1 <= n <= MAX_REQUESTS ==> costs[n] == Middle(Outcomes(mix, durations, n, TRIALS))
    ensures Costs.Curve(costs)
  {
    hide Makespan, Middle, Drawn, Outcomes;
    forall n | 2 <= n <= MAX_REQUESTS
      ensures costs[n - 1] <= costs[n]
    {
      forall t | 0 <= t < TRIALS
        ensures Outcomes(mix, durations, n - 1, TRIALS)[t] <= Outcomes(mix, durations, n, TRIALS)[t]
      {
        OutcomesGrow(mix, durations, n - 1, t);
      }
      MiddlesGrow(Outcomes(mix, durations, n - 1, TRIALS), Outcomes(mix, durations, n, TRIALS));
    }
    FirstCostPositive(mix, durations);
  }

  lemma FirstCostPositive(mix: Mix, durations: seq<nat>)
    requires durations != [] && forall i :: 0 <= i < |durations| ==> durations[i] > 0
    ensures Middle(Outcomes(mix, durations, 1, TRIALS)) > 0
  {
    hide Makespan, Middle, Drawn;
    var ones := seq(TRIALS, _ => 1);
    forall t | 0 <= t < TRIALS
      ensures ones[t] <= Outcomes(mix, durations, 1, TRIALS)[t]
    {
      DrawnFrom(mix, durations, t, 1);
      var drawn := Drawn(mix, durations, t, 1);
      assert drawn == [drawn[0]];
      FirstRequestTakes(drawn[0]);
    }
    MiddlesGrow(ones, Outcomes(mix, durations, 1, TRIALS));
    MiddleOfEqual(ones, 1);
  }

  /** With every duration the same, a batch costs one duration per wave of 32. */
  lemma EqualDurationsCost(mix: Mix, durations: seq<nat>, d: nat, n: nat)
    requires durations != [] && d > 0 && forall i :: 0 <= i < |durations| ==> durations[i] == d
    ensures Middle(Outcomes(mix, durations, n, 1024)) == (n + 31) / 32 * d
  {
    hide Makespan, Middle;
    forall t | 0 <= t < TRIALS
      ensures Outcomes(mix, durations, n, TRIALS)[t] == (n + SLOTS - 1) / SLOTS * d
    {
      DrawnFrom(mix, durations, t, n);
      EqualDurationsRunInWaves(Drawn(mix, durations, t, n), d);
    }
    MiddleOfEqual(Outcomes(mix, durations, n, TRIALS), (n + SLOTS - 1) / SLOTS * d);
  }
}
