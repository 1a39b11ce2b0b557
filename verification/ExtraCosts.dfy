/** Paired trials: the extra time of splitting requests, over reproducible draws of delays. */
module ExtraCosts {
  import opened Draws
  import opened EqualShare
  import Limits
  import opened Remainders
  import Simulation

  const FIRST_SEED: nat := 452
  const TRIALS: nat := 1024

  datatype ReadRange = ReadRange(bytes: nat, split: bool)

  predicate ValidRequests(input: seq<ReadRange>) {
    |input| <= MAX_RANGES && forall i :: 0 <= i < |input| && input[i].split ==> input[i].bytes > Limits.PREFIX_BYTES
  }

  // ---------------------------------------------------------------- draws

  /** The seed after `k` draws. */
  function SeedAfter(k: nat): nat {
    (FIRST_SEED + DRAW_STEP * k) % WORD
  }

  /** The delay drawn `k` draws into the sequence. */
  function DrawnAt(mix: Mix, durations: seq<nat>, k: nat): real
    requires durations != []
  {
    durations[mix(SeedAfter(k + 1)) % |durations|] as real
  }

  lemma NextSeed(k: nat)
    ensures (SeedAfter(k) + DRAW_STEP) % WORD == SeedAfter(k + 1)
  {
    RemainderFirst(WORD, FIRST_SEED + DRAW_STEP * k, DRAW_STEP);
  }

  /** Skipping `k` draws with wrapping arithmetic. */
  lemma SkippedSeed(k: nat)
    ensures (FIRST_SEED + DRAW_STEP * (k % WORD) % WORD) % WORD == SeedAfter(k)
  {
    var wraps, rest := k / WORD, k % WORD;
    RemainderFirst(WORD, DRAW_STEP * rest, FIRST_SEED);
    SkippedWraps(wraps, rest);
  }

  lemma SkippedWraps(wraps: nat, rest: nat)
    ensures (DRAW_STEP * rest + FIRST_SEED) % WORD == SeedAfter(wraps * WORD + rest)
  {
    AddMultiple(WORD, DRAW_STEP * rest + FIRST_SEED, DRAW_STEP * wraps);
  }

  method Draw(mix: Mix, durations: seq<nat>, seed: nat, ghost k: nat) returns (next: nat, delay: real)
    requires durations != [] && seed == SeedAfter(k)
    ensures next == SeedAfter(k + 1) && delay == DrawnAt(mix, durations, k)
  {
    NextSeed(k);
    next := (seed + DRAW_STEP) % WORD;
    delay := durations[mix(next) % |durations|] as real;
  }

  // ---------------------------------------------------------------- one trial

  /** The simulated ranges of a trial that starts `k` draws into the sequence. */
  function Drawn(mix: Mix, durations: seq<nat>, input: seq<ReadRange>, split: bool, k: nat): (r: seq<Range>)
    requires durations != []
    ensures |r| == |input|
    ensures ValidRequests(input) ==> forall i :: 0 <= i < |r| ==> r[i].Valid()
  {
    seq(|input|, i requires 0 <= i < |input| =>
      Range(input[i].bytes as real, split && input[i].split,
            DrawnAt(mix, durations, k + 2 * i), DrawnAt(mix, durations, k + 2 * i + 1)))
  }

  /** Draws used by the trials before `trial`: two per range and trial. */
  function DrawsBefore(input: seq<ReadRange>, trial: nat): nat {
    2 * |input| * trial
  }

  ghost function TrialCost(mix: Mix, durations: seq<nat>, input: seq<ReadRange>, bandwidth: real, trial: nat): real
    requires durations != [] && ValidRequests(input) && bandwidth > 0.0
  {
    var k := DrawsBefore(input, trial);
    Elapsed(Drawn(mix, durations, input, true, k), bandwidth)
    - Elapsed(Drawn(mix, durations, input, false, k), bandwidth)
  }

  method Simulate(ranges: seq<Range>, bandwidth: real) returns (finish: real)
    requires ValidInput(ranges, bandwidth) && |ranges| <= MAX_RANGES
    ensures finish == Elapsed(ranges, bandwidth)
  {
    var simulator := new Simulation.Simulator(ranges, bandwidth);
    var early;
    finish, early := simulator.Run();
  }

  /** Bytes per nanosecond. */
  function Bandwidth(bytesPerSecond: nat): (r: real)
    requires bytesPerSecond > 0
    ensures r > 0.0
  {
    bytesPerSecond as real / 1000000000.0
  }

  lemma NextTrial(input: seq<ReadRange>, trial: nat)
    ensures DrawsBefore(input, trial) + 2 * |input| == DrawsBefore(input, trial + 1)
  {
  }

  lemma OneMoreDrawn(mix: Mix, durations: seq<nat>, input: seq<ReadRange>, split: bool, k: nat, i: nat)
    requires durations != [] && i < |input|
    ensures Drawn(mix, durations, input, split, k)[..i + 1]
         == Drawn(mix, durations, input, split, k)[..i]
            + [Range(input[i].bytes as real, split && input[i].split,
                     DrawnAt(mix, durations, k + 2 * i), DrawnAt(mix, durations, k + 2 * i + 1))]
  {
  }

  /** Draws the delays of one trial, for the split and for the ordinary requests. */
  method DrawTrial(mix: Mix, durations: seq<nat>, input: seq<ReadRange>, seed: nat, ghost k: nat)
    returns (next: nat, ranges: seq<Range>, ordinary: seq<Range>)
    requires durations != [] && seed == SeedAfter(k)
    ensures next == SeedAfter(k + 2 * |input|)
    ensures ranges == Drawn(mix, durations, input, true, k)
    ensures ordinary == Drawn(mix, durations, input, false, k)
  {
    hide SeedAfter, Drawn, DrawnAt;
    next, ranges, ordinary := seed, [], [];
    for i := 0 to |input|
      invariant next == SeedAfter(k + 2 * i)
      invariant ranges == Drawn(mix, durations, input, true, k)[..i]
      invariant ordinary == Drawn(mix, durations, input, false, k)[..i]
    {
      var firstDelay, tailDelay;
      next, firstDelay := Draw(mix, durations, next, k + 2 * i);
      next, tailDelay := Draw(mix, durations, next, k + 2 * i + 1);
      OneMoreDrawn(mix, durations, input, true, k, i);
      OneMoreDrawn(mix, durations, input, false, k, i);
      ranges := ranges + [Range(input[i].bytes as real, input[i].split, firstDelay, tailDelay)];
      ordinary := ordinary + [Range(input[i].bytes as real, false, firstDelay, tailDelay)];
    }
  }

  /** Trials `first..first + count`, whichever worker runs them. */
  method ExtraCosts(mix: Mix, durations: seq<nat>, input: seq<ReadRange>, bytesPerSecond: nat, first: nat, count: nat)
    returns (costs: seq<real>)
    requires durations != [] && ValidRequests(input) && bytesPerSecond > 0
    requires first + count <= TRIALS
    ensures |costs| == count
    ensures forall t :: 0 <= t < count ==>
              costs[t] == TrialCost(mix, durations, input, Bandwidth(bytesPerSecond), first + t)
  {
    hide DrawsBefore, Elapsed, SeedAfter;
    var bandwidth := Bandwidth(bytesPerSecond);
    var seed := (FIRST_SEED + DRAW_STEP * (DrawsBefore(input, first) % WORD) % WORD) % WORD;
    SkippedSeed(DrawsBefore(input, first));
    costs := [];
    for t := 0 to count
      invariant |costs| == t
      invariant seed == SeedAfter(DrawsBefore(input, first + t))
      invariant forall j :: 0 <= j < t ==> costs[j] == TrialCost(mix, durations, input, bandwidth, first + j)
    {
      ghost var k := DrawsBefore(input, first + t);
      var ranges, ordinary;
      seed, ranges, ordinary := DrawTrial(mix, durations, input, seed, k);
      NextTrial(input, first + t);
      var splitTime := Simulate(ranges, bandwidth);
      var ordinaryTime := Simulate(ordinary, bandwidth);
      costs := costs + [splitTime - ordinaryTime];
    }
  }

  // ---------------------------------------------------------------- slices of the trials

  /** First trial of a worker's slice. */
  function SliceStart(worker: nat, workers: nat): nat
    requires workers > 0
  {
    worker * TRIALS / workers
  }

  lemma SlicesInOrder(worker: nat, workers: nat)
    requires worker < workers
    ensures SliceStart(worker, workers) <= SliceStart(worker + 1, workers) <= TRIALS
    ensures SliceStart(0, workers) == 0 && SliceStart(workers, workers) == TRIALS
  {
    WholeShare(workers);
    DivideOrdered(worker * TRIALS, (worker + 1) * TRIALS, workers);
    DivideOrdered((worker + 1) * TRIALS, workers * TRIALS, workers);
  }

  lemma WholeShare(workers: nat)
    requires workers > 0
    ensures workers * TRIALS / workers == TRIALS
  {
    QuotientIs(workers * TRIALS, workers, TRIALS);
  }

  lemma CancelLess(a: int, b: int, d: int)
    requires d > 0 && a * d < b * d
    ensures a < b
  {
    assert a >= b ==> (a - b) * d >= 0;
    assert (a - b) * d == a * d - b * d;
  }

  lemma QuotientIs(x: int, d: int, q: int)
    requires d > 0 && q * d <= x < (q + 1) * d
    ensures x / d == q
  {
    CancelLess(x / d, q + 1, d);
    CancelLess(q, x / d + 1, d);
  }

  lemma DivideOrdered(x: nat, y: nat, d: nat)
    requires x <= y && d > 0
    ensures x / d <= y / d
  {
    CancelLess(x / d, y / d + 1, d);
  }

  /** What the collector assembles from the workers' replies, in worker order. */
  method PooledCosts(mix: Mix, durations: seq<nat>, input: seq<ReadRange>, bytesPerSecond: nat, workers: nat)
    returns (costs: seq<real>)
    requires durations != [] && ValidRequests(input) && bytesPerSecond > 0 && workers > 0
    ensures |costs| == TRIALS
    ensures forall t :: 0 <= t < TRIALS ==>
              costs[t] == TrialCost(mix, durations, input, Bandwidth(bytesPerSecond), t)
  {
    hide TrialCost, SliceStart;
    SlicesInOrder(0, workers);
    costs := [];
    for worker := 0 to workers
      invariant |costs| == SliceStart(worker, workers) <= TRIALS
      invariant forall t :: 0 <= t < |costs| ==>
                  costs[t] == TrialCost(mix, durations, input, Bandwidth(bytesPerSecond), t)
    {
      SlicesInOrder(worker, workers);
      var first := SliceStart(worker, workers);
      var part := ExtraCosts(mix, durations, input, bytesPerSecond, first, SliceStart(worker + 1, workers) - first);
      costs := costs + part;
    }
    SlicesInOrder(workers - 1, workers);
  }
}
