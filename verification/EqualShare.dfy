/**
 * The reference model of the request simulation: what each range is doing, without slots,
 * bit masks, a service clock or cached minima. Times are exact reals.
 */
module EqualShare {
  import Limits
  import opened Numbers
  import opened Times

  const WINDOW: nat := Limits.CONCURRENCY
  const PREFIX_BYTES: real := Limits.PREFIX_BYTES as real
  const MAX_RANGES: nat := Limits.MAX_READS

  datatype Range = Range(bytes: real, split: bool, firstDelay: real, tailDelay: real) {
    predicate Valid() {
      bytes >= 0.0 && (split ==> bytes > PREFIX_BYTES) && firstDelay >= 0.0 && tailDelay >= 0.0
    }

    /** Bytes carried by the response that is (`tail`) or is not the request for the tail. */
    function Body(tail: bool): real {
      if tail then bytes - PREFIX_BYTES else if split then PREFIX_BYTES else bytes
    }
  }

  predicate ValidInput(ranges: seq<Range>, bandwidth: real) {
    bandwidth > 0.0 && forall i :: 0 <= i < |ranges| ==> ranges[i].Valid()
  }

  /**
   * `waiting` holds the time each outstanding response arrives, `receiving` the bytes each body
   * still lacks. `tails` marks the split ranges whose prefix has been delivered.
   */
  datatype State = State(
    now: real, busy: real, front: nat, next: nat,
    waiting: seq<Time>, receiving: seq<Time>, tails: seq<bool>, done: seq<bool>)

  function Init(n: nat): State {
    State(0.0, 0.0, 0, 0, seq(n, _ => Never), seq(n, _ => Never), seq(n, _ => false), seq(n, _ => false))
  }

  ghost predicate Sized(n: nat, s: State) {
    |s.waiting| == |s.receiving| == |s.tails| == |s.done| == n
  }

  /** What holds in every reachable state: each sent range is waiting, receiving or done. */
  ghost predicate Inv(ranges: seq<Range>, s: State) {
    && Sized(|ranges|, s)
    && s.front <= s.next <= |ranges|
    && s.next <= s.front + WINDOW
    && 0.0 <= s.busy <= s.now
    && (forall i :: 0 <= i < s.front ==> s.done[i])
    && (forall i :: 0 <= i < |ranges| ==> RangeInv(ranges, s, i))
  }

  ghost predicate RangeInv(ranges: seq<Range>, s: State, i: nat)
    requires Sized(|ranges|, s) && i < |ranges|
  {
    && (i < s.next <==> s.done[i] || s.waiting[i].At? || s.receiving[i].At?)
    && !(s.done[i] && s.waiting[i].At?)
    && !(s.done[i] && s.receiving[i].At?)
    && !(s.waiting[i].At? && s.receiving[i].At?)
    && (s.tails[i] ==> i < s.next && ranges[i].split)
    && (s.done[i] && ranges[i].split ==> s.tails[i])
    && (s.waiting[i].At? ==> s.waiting[i].t >= s.now)
    && (s.receiving[i].At? ==> s.receiving[i].t >= 0.0)
  }

  ghost predicate InFlight(s: State) {
    !Empty(s.waiting) || !Empty(s.receiving)
  }

  predicate Finished(s: State) {
    forall i :: 0 <= i < |s.done| ==> s.done[i]
  }

  // ---------------------------------------------------------------- one loop iteration

  function AdvanceFront(front: nat, next: nat, done: seq<bool>): (f: nat)
    requires front <= next <= |done|
    ensures front <= f <= next
    ensures forall i :: front <= i < f ==> done[i]
    ensures f == next || !done[f]
    decreases next - front
  {
    if front < next && done[front] then AdvanceFront(front + 1, next, done) else front
  }

  /** Requests `first..end` are sent at time `now`. */
  ghost function Sent(ranges: seq<Range>, waiting: seq<Time>, now: real, first: nat, end: nat): (r: seq<Time>)
    requires first <= end <= |ranges| == |waiting|
    ensures |r| == |waiting|
    ensures forall i :: 0 <= i < |r| ==>
              r[i] == if first <= i < end then At(now + ranges[i].firstDelay) else waiting[i]
    decreases end - first
  {
    if first == end then waiting
    else Sent(ranges, waiting, now, first, end - 1)[end - 1 := At(now + ranges[end - 1].firstDelay)]
  }

  /** Sends every request the ordered window admits. */
  ghost function Issue(ranges: seq<Range>, s: State): State
    requires Inv(ranges, s)
  {
    var front := AdvanceFront(s.front, s.next, s.done);
    var next := Min(|ranges|, front + WINDOW);
    s.(front := front, next := next, waiting := Sent(ranges, s.waiting, s.now, s.next, next))
  }

  /** When the earliest body would finish if all bodies kept sharing the bandwidth equally. */
  ghost function BodyAt(bandwidth: real, s: State): real
    requires bandwidth > 0.0 && !Empty(s.receiving)
  {
    s.now + s.receiving[Earliest(s.receiving)].t * (Size(s.receiving) as real) / bandwidth
  }

  ghost predicate ResponseIsNext(bandwidth: real, s: State)
    requires bandwidth > 0.0
  {
    !Empty(s.waiting)
    && (Empty(s.receiving) || s.waiting[Earliest(s.waiting)].t <= BodyAt(bandwidth, s))
  }

  /** The bytes each of `count` bodies receives while the clock advances by `elapsed`. */
  ghost function Share(bandwidth: real, count: nat, elapsed: real): real {
    if count == 0 then 0.0 else elapsed * bandwidth / (count as real)
  }

  /** The earliest response arrives and its body starts. */
  ghost function Respond(ranges: seq<Range>, bandwidth: real, s: State): State
    requires Inv(ranges, s) && !Empty(s.waiting)
  {
    var i := Earliest(s.waiting);
    var elapsed := s.waiting[i].t - s.now;
    var served := Shifted(s.receiving, -Share(bandwidth, Size(s.receiving), elapsed));
    s.(now := s.waiting[i].t,
       busy := if Empty(s.receiving) then s.busy else s.busy + elapsed,
       waiting := s.waiting[i := Never],
       receiving := served[i := At(ranges[i].Body(s.tails[i]))])
  }

  /** The earliest body finishes: its range is complete or asks for its tail. */
  ghost function Deliver(ranges: seq<Range>, bandwidth: real, s: State): State
    requires Inv(ranges, s) && !Empty(s.receiving) && bandwidth > 0.0
  {
    var i := Earliest(s.receiving);
    var at := BodyAt(bandwidth, s);
    var moved := s.(now := at, busy := s.busy + (at - s.now),
                    receiving := Shifted(s.receiving, -s.receiving[i].t)[i := Never]);
    if ranges[i].split && !s.tails[i]
    then moved.(waiting := s.waiting[i := At(at + ranges[i].tailDelay)], tails := s.tails[i := true])
    else moved.(done := s.done[i := true])
  }

  ghost function Event(ranges: seq<Range>, bandwidth: real, s: State): State
    requires Inv(ranges, s) && bandwidth > 0.0 && InFlight(s)
  {
    if ResponseIsNext(bandwidth, s) then Respond(ranges, bandwidth, s)
    else Deliver(ranges, bandwidth, s)
  }

  // ---------------------------------------------------------------- the invariant is kept

  lemma InitInv(ranges: seq<Range>)
    ensures Inv(ranges, Init(|ranges|))
  {
  }

  lemma IssueKeepsInv(ranges: seq<Range>, bandwidth: real, s: State)
    requires ValidInput(ranges, bandwidth) && Inv(ranges, s)
    ensures Inv(ranges, Issue(ranges, s))
    ensures s.next <= Issue(ranges, s).next
  {
    var r := Issue(ranges, s);
    forall i | 0 <= i < |ranges|
      ensures RangeInv(ranges, r, i)
    {
      assert RangeInv(ranges, s, i);
    }
  }

  /** After sending, either all ranges are sent or exactly the 32 from the first unfinished one on have been. */
  lemma WindowIsFull(ranges: seq<Range>, s: State)
    requires Inv(ranges, s)
    ensures var r := Issue(ranges, s);
            && (forall i :: 0 <= i < r.front ==> r.done[i])
            && (r.next == |ranges| || (r.next == r.front + 32 && !r.done[r.front]))
            && (forall i :: s.next <= i < r.next ==> r.waiting[i] == At(s.now + ranges[i].firstDelay))
  {
    var front := AdvanceFront(s.front, s.next, s.done);
    forall i | 0 <= i < |ranges|
      ensures (i < s.front ==> s.done[i]) && (i >= s.next ==> !s.done[i])
    {
      assert RangeInv(ranges, s, i);
    }
    if front < |ranges| {
      assert !s.done[front];
    }
  }

  lemma DivideMonotone(x: real, y: real, z: real)
    requires x <= y && z > 0.0
    ensures x / z <= y / z
  {
  }

  lemma ShareWithinLeast(elapsed: real, bandwidth: real, count: real, least: real)
    requires bandwidth > 0.0 && count >= 1.0
    requires elapsed <= least * count / bandwidth
    ensures elapsed * bandwidth / count <= least
  {
    var bound := least * count / bandwidth;
    assert bound * bandwidth == least * count;
    assert elapsed * bandwidth <= bound * bandwidth;
    assert least * count / count == least;
    DivideMonotone(elapsed * bandwidth, least * count, count);
  }

  /** Until the earliest response nothing that is being received can finish. */
  lemma ShareWithinBodies(ranges: seq<Range>, bandwidth: real, s: State)
    requires Inv(ranges, s) && bandwidth > 0.0 && ResponseIsNext(bandwidth, s)
    ensures var share := Share(bandwidth, Size(s.receiving), s.waiting[Earliest(s.waiting)].t - s.now);
            forall i :: 0 <= i < |s.receiving| && s.receiving[i].At? ==> share <= s.receiving[i].t
  {
    if !Empty(s.receiving) {
      var elapsed := s.waiting[Earliest(s.waiting)].t - s.now;
      var least := s.receiving[Earliest(s.receiving)].t;
      assert Share(bandwidth, Size(s.receiving), elapsed) <= least by {
        SizeEmpty(s.receiving);
        ShareWithinLeast(elapsed, bandwidth, Size(s.receiving) as real, least);
      }
      assert IsEarliest(s.receiving, Earliest(s.receiving));
    }
  }

  lemma RespondKeepsInv(ranges: seq<Range>, bandwidth: real, s: State)
    requires ValidInput(ranges, bandwidth) && Inv(ranges, s)
    requires ResponseIsNext(bandwidth, s)
    ensures Inv(ranges, Respond(ranges, bandwidth, s))
  {
    var i := Earliest(s.waiting);
    ShareWithinBodies(ranges, bandwidth, s);
    assert RangeInv(ranges, s, i);
    var r := Respond(ranges, bandwidth, s);
    forall j | 0 <= j < |ranges|
      ensures RangeInv(ranges, r, j)
    {
      assert RangeInv(ranges, s, j);
    }
  }

  lemma BodyAtNotBefore(ranges: seq<Range>, bandwidth: real, s: State)
    requires bandwidth > 0.0 && Inv(ranges, s) && !Empty(s.receiving)
    ensures BodyAt(bandwidth, s) >= s.now
  {
    assert RangeInv(ranges, s, Earliest(s.receiving));
    var work := s.receiving[Earliest(s.receiving)].t * (Size(s.receiving) as real);
    assert work >= 0.0;
    DivideMonotone(0.0, work, bandwidth);
  }

  lemma DeliverKeepsInv(ranges: seq<Range>, bandwidth: real, s: State)
    requires ValidInput(ranges, bandwidth) && Inv(ranges, s)
    requires !Empty(s.receiving) && !ResponseIsNext(bandwidth, s)
    ensures Inv(ranges, Deliver(ranges, bandwidth, s))
  {
    BodyAtNotBefore(ranges, bandwidth, s);
    var i := Earliest(s.receiving);
    assert RangeInv(ranges, s, i);
    var r := Deliver(ranges, bandwidth, s);
    forall j | 0 <= j < |ranges|
      ensures RangeInv(ranges, r, j)
    {
      assert RangeInv(ranges, s, j);
    }
  }

  lemma EventKeepsInv(ranges: seq<Range>, bandwidth: real, s: State)
    requires ValidInput(ranges, bandwidth) && Inv(ranges, s) && InFlight(s)
    ensures Inv(ranges, Event(ranges, bandwidth, s))
  {
    if ResponseIsNext(bandwidth, s) {
      RespondKeepsInv(ranges, bandwidth, s);
    } else {
      DeliverKeepsInv(ranges, bandwidth, s);
    }
  }

  /** An unfinished simulation never starves: after issuing, something is in flight. */
  lemma SomethingInFlight(ranges: seq<Range>, bandwidth: real, s: State)
    requires ValidInput(ranges, bandwidth) && Inv(ranges, s) && !Finished(s)
    ensures InFlight(Issue(ranges, s))
  {
    IssueKeepsInv(ranges, bandwidth, s);
    var r := Issue(ranges, s);
    assert r.front == r.next ==> r.next == |ranges|;
    assert RangeInv(ranges, r, r.front);
  }

  ghost function Step(ranges: seq<Range>, bandwidth: real, s: State): (r: State)
    requires ValidInput(ranges, bandwidth) && Inv(ranges, s) && !Finished(s)
    ensures Inv(ranges, r)
  {
    IssueKeepsInv(ranges, bandwidth, s);
    SomethingInFlight(ranges, bandwidth, s);
    EventKeepsInv(ranges, bandwidth, Issue(ranges, s));
    Event(ranges, bandwidth, Issue(ranges, s))
  }

  // ---------------------------------------------------------------- running to completion

  /** Responses and bodies range `i` goes through. */
  function Events(range: Range): nat {
    if range.split then 4 else 2
  }

  /** Responses and bodies range `i` still has to go through. */
  ghost function EventsLeft(ranges: seq<Range>, s: State, i: nat): nat
    requires Sized(|ranges|, s) && i < |ranges|
  {
    if s.done[i] then 0
    else
      var before := if s.tails[i] then 2 else Events(ranges[i]);
      if s.receiving[i].At? then before - 1 else before
  }

  /** Events left for the first `k` ranges. */
  ghost function Pending(ranges: seq<Range>, s: State, k: nat): nat
    requires Sized(|ranges|, s) && k <= |ranges|
  {
    if k == 0 then 0 else Pending(ranges, s, k - 1) + EventsLeft(ranges, s, k - 1)
  }

  lemma {:induction false} PendingDrops(ranges: seq<Range>, s: State, r: State, w: int, k: nat)
    requires Sized(|ranges|, s) && Sized(|ranges|, r) && k <= |ranges|
    requires forall i :: 0 <= i < |ranges| ==>
               EventsLeft(ranges, r, i) + (if i == w then 1 else 0) == EventsLeft(ranges, s, i)
    ensures Pending(ranges, r, k) + (if 0 <= w < k then 1 else 0) == Pending(ranges, s, k)
  {
    if k > 0 {
      PendingDrops(ranges, s, r, w, k - 1);
    }
  }

  lemma IssueKeepsPending(ranges: seq<Range>, s: State)
    requires Inv(ranges, s)
    ensures Sized(|ranges|, Issue(ranges, s))
    ensures Pending(ranges, Issue(ranges, s), |ranges|) == Pending(ranges, s, |ranges|)
  {
    PendingDrops(ranges, s, Issue(ranges, s), -1, |ranges|);
  }

  lemma EventUsesOne(ranges: seq<Range>, bandwidth: real, s: State)
    requires ValidInput(ranges, bandwidth) && Inv(ranges, s) && InFlight(s)
    ensures Sized(|ranges|, Event(ranges, bandwidth, s))
    ensures Pending(ranges, Event(ranges, bandwidth, s), |ranges|) + 1 == Pending(ranges, s, |ranges|)
  {
    var i := if ResponseIsNext(bandwidth, s) then Earliest(s.waiting) else Earliest(s.receiving);
    assert RangeInv(ranges, s, i);
    PendingDrops(ranges, s, Event(ranges, bandwidth, s), i, |ranges|);
  }

  lemma StepUsesOne(ranges: seq<Range>, bandwidth: real, s: State)
    requires ValidInput(ranges, bandwidth) && Inv(ranges, s) && !Finished(s)
    ensures Pending(ranges, Step(ranges, bandwidth, s), |ranges|) + 1 == Pending(ranges, s, |ranges|)
  {
    IssueKeepsInv(ranges, bandwidth, s);
    SomethingInFlight(ranges, bandwidth, s);
    IssueKeepsPending(ranges, s);
    EventUsesOne(ranges, bandwidth, Issue(ranges, s));
  }

  /** The simulated time at which the last range completes. */
  ghost function Run(ranges: seq<Range>, bandwidth: real, s: State): real
    requires ValidInput(ranges, bandwidth) && Inv(ranges, s)
    decreases Pending(ranges, s, |ranges|)
  {
    if Finished(s) then s.now
    else
      StepUsesOne(ranges, bandwidth, s);
      Run(ranges, bandwidth, Step(ranges, bandwidth, s))
  }

  ghost function Elapsed(ranges: seq<Range>, bandwidth: real): real
    requires ValidInput(ranges, bandwidth)
  {
    InitInv(ranges);
    Run(ranges, bandwidth, Init(|ranges|))
  }

  /** The state after `k` loop iterations; a finished simulation stays as it is. */
  ghost function After(ranges: seq<Range>, bandwidth: real, k: nat): (s: State)
    requires ValidInput(ranges, bandwidth)
    ensures Inv(ranges, s)
  {
    InitInv(ranges);
    if k == 0 then Init(|ranges|)
    else
      var s := After(ranges, bandwidth, k - 1);
      if Finished(s) then s else Step(ranges, bandwidth, s)
  }
}
