/** What the cost of a trial is, in the cases where it can be told without simulating. */
module TrialLaws {
  import opened Draws
  import opened EqualShare
  import EqualShareLaws
  import EqualShareTheorems
  import opened ExtraCosts

  /** Requests of which none is split cost nothing extra. */
  lemma NothingSplit(mix: Mix, durations: seq<nat>, input: seq<ReadRange>, bandwidth: real, trial: nat)
    requires durations != [] && ValidRequests(input) && bandwidth > 0.0
    requires forall i :: 0 <= i < |input| ==> !input[i].split
    ensures TrialCost(mix, durations, input, bandwidth, trial) == 0.0
  {
    var k := DrawsBefore(input, trial);
    assert Drawn(mix, durations, input, true, k) == Drawn(mix, durations, input, false, k);
  }

  /** A lone split request costs exactly the second of its two draws, the one for the tail. */
  lemma LoneSplitCost(mix: Mix, durations: seq<nat>, bytes: nat, bandwidth: real, trial: nat)
    requires durations != [] && bytes > 8192 && bandwidth > 0.0
    ensures TrialCost(mix, durations, [ReadRange(bytes, true)], bandwidth, trial)
         == durations[mix((452 + 0x9e37_79b9_7f4a_7c15 * (2 * trial + 2)) % 0x1_0000_0000_0000_0000) % |durations|] as real
  {
    hide Elapsed;
    var input := [ReadRange(bytes, true)];
    var k := DrawsBefore(input, trial);
    assert k + 1 == 2 * trial + 1;
    var split, whole := Drawn(mix, durations, input, true, k), Drawn(mix, durations, input, false, k);
    assert whole[0] == split[0].(split := false);
    assert split == [split[0]] && whole == [whole[0]];
    assert split[0].Valid();
    EqualShareTheorems.LoneSplitAddsOneWait(split[0], bandwidth);
  }

  /** With one duration for all requests, splitting up to 32 of them costs exactly that duration. */
  lemma AllSplitCost(mix: Mix, durations: seq<nat>, input: seq<ReadRange>, bandwidth: real, trial: nat, duration: nat)
    requires durations != [] && ValidRequests(input) && bandwidth > 0.0 && 0 < |input| <= 32
    requires forall i :: 0 <= i < |durations| ==> durations[i] == duration
    requires forall i :: 0 <= i < |input| ==> input[i].split
    ensures TrialCost(mix, durations, input, bandwidth, trial) == duration as real
  {
    hide Elapsed, EqualShareTheorems.TotalBytes, DrawsBefore;
    var k := DrawsBefore(input, trial);
    var split, whole := Drawn(mix, durations, input, true, k), Drawn(mix, durations, input, false, k);
    EqualShareLaws.SplitsPayTwice(split, bandwidth, duration as real, duration as real);
    EqualShareLaws.EqualDelaysPayOnce(whole, bandwidth, duration as real);
    SameBytes(split, whole);
  }

  lemma {:induction false} SameBytes(a: seq<Range>, b: seq<Range>)
    requires |a| == |b| && forall i :: 0 <= i < |a| ==> a[i].bytes == b[i].bytes
    ensures EqualShareTheorems.TotalBytes(a) == EqualShareTheorems.TotalBytes(b)
  {
    if a != [] {
      SameBytes(a[..|a| - 1], b[..|b| - 1]);
    }
  }

  /** Times are nanoseconds: as many bytes as pass in a second take 10^9 of them, after the delay. */
  lemma BytesOfOneSecond(bytesPerSecond: nat, delay: nat)
    requires bytesPerSecond > 0
    ensures var range := Range(bytesPerSecond as real, false, delay as real, 0.0);
            && ValidInput([range], Bandwidth(bytesPerSecond))
            && Elapsed([range], Bandwidth(bytesPerSecond)) == delay as real + 1_000_000_000.0
  {
    var range := Range(bytesPerSecond as real, false, delay as real, 0.0);
    assert [range][0] == range;
    EqualShareTheorems.LoneWhole(range, Bandwidth(bytesPerSecond));
    OverItself(bytesPerSecond as real);
  }

  lemma OverItself(x: real)
    requires x > 0.0
    ensures x / (x / 1_000_000_000.0) == 1_000_000_000.0
  {
    assert x / 1_000_000_000.0 * 1_000_000_000.0 == x;
  }

  /** No worker runs more than one trial more than any other. */
  lemma SlicesAreBalanced(worker: nat, workers: nat)
    requires worker < workers
    ensures var size := SliceStart(worker + 1, workers) - SliceStart(worker, workers);
            size == 1024 / workers || size == 1024 / workers + 1
  {
    var share, rest := 1024 / workers, 1024 % workers;
    var x, y := worker * 1024, (worker + 1) * 1024;
    var a, b := x / workers, y / workers;
    assert 1024 == share * workers + rest && x == a * workers + x % workers && y == b * workers + y % workers;
    Between(a, b, share, workers, x % workers, y % workers, rest);
  }

  lemma Between(a: int, b: int, share: int, workers: int, low: int, high: int, rest: int)
    requires 0 <= low < workers && 0 <= high < workers && 0 <= rest < workers
    requires b * workers + high == a * workers + low + share * workers + rest
    ensures b - a == share || b - a == share + 1
  {
    var more := b - a - share;
    assert more * workers == b * workers - a * workers - share * workers;
    assert more * workers == low + rest - high;
    assert more < 0 ==> more * workers <= -workers;
    assert more > 1 ==> more * workers >= 2 * workers;
  }
}
