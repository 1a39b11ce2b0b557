/** Event times by range index. `Never` is the source's infinite time: no event of this kind. */
module Times {
  datatype Time = Never | At(t: real)

  predicate Leq(a: Time, b: Time) {
    b.Never? || (a.At? && a.t <= b.t)
  }

  /** `i` is the lexicographic minimum of (time, index). */
  ghost predicate IsEarliest(times: seq<Time>, i: nat) {
    && i < |times| && times[i].At?
    && forall j :: 0 <= j < |times| && times[j].At? ==>
         times[i].t < times[j].t || (times[i].t == times[j].t && i <= j)
  }

  predicate Empty(times: seq<Time>) {
    forall i :: 0 <= i < |times| ==> times[i].Never?
  }

  ghost function EarliestBelow(times: seq<Time>, k: nat): (r: int)
    requires k <= |times|
    ensures r == -1 || 0 <= r < k
    ensures r == -1 ==> forall j :: 0 <= j < k ==> times[j].Never?
    ensures r != -1 ==> IsEarliest(times[..k], r)
  {
    if k == 0 then -1
    else
      var best := EarliestBelow(times, k - 1);
      assert times[..k][..k - 1] == times[..k - 1];
      if times[k - 1].At? && (best == -1 || times[k - 1].t < times[best].t) then k - 1 else best
  }

  ghost function Earliest(times: seq<Time>): (i: nat)
    requires !Empty(times)
    ensures IsEarliest(times, i)
  {
    assert times[..|times|] == times;
    EarliestBelow(times, |times|)
  }

  lemma EarliestUnique(times: seq<Time>, i: nat, j: nat)
    requires IsEarliest(times, i) && IsEarliest(times, j)
    ensures i == j
  {
  }

  // ---------------------------------------------------------------- totals

  ghost function Value(time: Time): real {
    if time.At? then time.t else 0.0
  }

  /** The values of the first `k` entries, added up. */
  ghost function Sum(times: seq<Time>, k: nat): real
    requires k <= |times|
  {
    if k == 0 then 0.0 else Sum(times, k - 1) + Value(times[k - 1])
  }

  /** How many of the first `k` entries hold a time. */
  ghost function Count(times: seq<Time>, k: nat): nat
    requires k <= |times|
  {
    if k == 0 then 0 else Count(times, k - 1) + (if times[k - 1].At? then 1 else 0)
  }

  ghost function Total(times: seq<Time>): real { Sum(times, |times|) }

  ghost function Size(times: seq<Time>): nat { Count(times, |times|) }

  lemma {:induction false} SumSame(a: seq<Time>, b: seq<Time>, k: nat)
    requires k <= |a| == |b|
    requires forall i :: 0 <= i < k ==> a[i] == b[i]
    ensures Sum(a, k) == Sum(b, k) && Count(a, k) == Count(b, k)
  {
    if k > 0 { SumSame(a, b, k - 1); }
  }

  lemma {:induction false} SumSet(times: seq<Time>, i: nat, value: Time, k: nat)
    requires i < k <= |times|
    ensures Sum(times[i := value], k) == Sum(times, k) - Value(times[i]) + Value(value)
    ensures Count(times[i := value], k)
         == Count(times, k) - (if times[i].At? then 1 else 0) + (if value.At? then 1 else 0)
  {
    if i == k - 1 {
      SumSame(times, times[i := value], i);
    } else {
      SumSet(times, i, value, k - 1);
    }
  }

  lemma {:induction false} CountEmpty(times: seq<Time>, k: nat)
    requires k <= |times|
    ensures Count(times, k) == 0 <==> forall i :: 0 <= i < k ==> times[i].Never?
    ensures Count(times, k) == 0 ==> Sum(times, k) == 0.0
  {
    if k > 0 { CountEmpty(times, k - 1); }
  }

  lemma SizeEmpty(times: seq<Time>)
    ensures Size(times) == 0 <==> Empty(times)
    ensures Empty(times) ==> Total(times) == 0.0
  {
    CountEmpty(times, |times|);
  }

  ghost function Moved(time: Time, delta: real): Time {
    if time.At? then At(time.t + delta) else Never
  }

  /** Every held time moved by `delta`. */
  ghost function Shifted(times: seq<Time>, delta: real): (r: seq<Time>)
    ensures |r| == |times|
    ensures forall i :: 0 <= i < |times| ==> r[i] == Moved(times[i], delta)
  {
    seq(|times|, i requires 0 <= i < |times| => Moved(times[i], delta))
  }

  /** `x` added up `count` times. */
  ghost function Multiple(x: real, count: nat): real {
    if count == 0 then 0.0 else Multiple(x, count - 1) + x
  }

  lemma {:induction false} MultipleIsProduct(x: real, count: nat)
    ensures Multiple(x, count) == x * (count as real)
  {
    if count > 0 {
      MultipleIsProduct(x, count - 1);
      var before := (count - 1) as real;
      assert count as real == before + 1.0;
      assert x * (before + 1.0) == x * before + x;
    }
  }

  lemma {:induction false} SumShifted(times: seq<Time>, delta: real, k: nat)
    requires k <= |times|
    ensures Sum(Shifted(times, delta), k) == Sum(times, k) + Multiple(delta, Count(times, k))
    ensures Count(Shifted(times, delta), k) == Count(times, k)
  {
    if k > 0 {
      SumShifted(times, delta, k - 1);
    }
  }

  lemma TotalShifted(times: seq<Time>, delta: real)
    ensures Total(Shifted(times, delta)) == Total(times) + delta * (Size(times) as real)
    ensures Size(Shifted(times, delta)) == Size(times)
  {
    SumShifted(times, delta, |times|);
    MultipleIsProduct(delta, Size(times));
  }

  lemma EarliestShifted(times: seq<Time>, delta: real)
    requires !Empty(times)
    ensures !Empty(Shifted(times, delta))
    ensures Earliest(Shifted(times, delta)) == Earliest(times)
  {
    var i := Earliest(times);
    var shifted := Shifted(times, delta);
    assert shifted[i].At?;
    EarliestUnique(shifted, i, Earliest(shifted));
  }
}
