/** Laws of the request simulation: conservation of bytes, event counts and the closed form. */
module EqualShareTheorems {
  import opened EqualShare
  import opened Times

  // ---------------------------------------------------------------- bytes in flight

  lemma DivideSum(x: real, y: real, z: real)
    requires z > 0.0
    ensures (x + y) / z == x / z + y / z
  {
  }

  lemma TotalServed(receiving: seq<Time>, share: real)
    ensures Total(Shifted(receiving, -share)) == Total(receiving) - share * (Size(receiving) as real)
  {
    TotalShifted(receiving, -share);
    assert -share * (Size(receiving) as real) == -(share * (Size(receiving) as real));
  }

  lemma ShareTimesCount(elapsed: real, bandwidth: real, count: real)
    requires count > 0.0
    ensures elapsed * bandwidth / count * count == elapsed * bandwidth
  {
  }

  /** Serving bodies for `elapsed` takes exactly `elapsed * bandwidth` bytes off their total. */
  lemma ShareTotal(receiving: seq<Time>, bandwidth: real, elapsed: real)
    requires bandwidth > 0.0 && !Empty(receiving)
    ensures Total(Shifted(receiving, -Share(bandwidth, Size(receiving), elapsed)))
         == Total(receiving) - elapsed * bandwidth
  {
    SizeEmpty(receiving);
    TotalServed(receiving, Share(bandwidth, Size(receiving), elapsed));
    ShareTimesCount(elapsed, bandwidth, Size(receiving) as real);
  }

  /** A response adds its body and serves the others while the clock advances. */
  lemma RespondTotal(ranges: seq<Range>, bandwidth: real, s: State)
    requires ValidInput(ranges, bandwidth) && Inv(ranges, s) && !Empty(s.waiting)
    ensures var i := Earliest(s.waiting);
            var r := Respond(ranges, bandwidth, s);
            Total(r.receiving) == Total(s.receiving) - (r.busy - s.busy) * bandwidth + ranges[i].Body(s.tails[i])
  {
    var i := Earliest(s.waiting);
    assert RangeInv(ranges, s, i);
    var elapsed := s.waiting[i].t - s.now;
    var served := Shifted(s.receiving, -Share(bandwidth, Size(s.receiving), elapsed));
    SumSet(served, i, At(ranges[i].Body(s.tails[i])), |served|);
    if Empty(s.receiving) {
      SumSame(served, s.receiving, |served|);
    } else {
      ShareTotal(s.receiving, bandwidth, elapsed);
    }
  }

  lemma WorkOver(now: real, work: real, bandwidth: real)
    requires bandwidth > 0.0
    ensures (now + work / bandwidth - now) * bandwidth == work
  {
  }

  /** A delivery takes `(at - now) * bandwidth` bytes off the total being received. */
  lemma DeliverTotal(ranges: seq<Range>, bandwidth: real, s: State)
    requires ValidInput(ranges, bandwidth) && Inv(ranges, s) && !Empty(s.receiving)
    ensures Total(Deliver(ranges, bandwidth, s).receiving)
         == Total(s.receiving) - (BodyAt(bandwidth, s) - s.now) * bandwidth
  {
    hide Total, BodyAt, Shifted, Size, Deliver, Inv, Empty;
    DeliveryWork(bandwidth, s);
    DeliveredBodies(ranges, bandwidth, s);
    var i := Earliest(s.receiving);
    TotalServed(s.receiving, s.receiving[i].t);
    LastServed(s.receiving, i);
  }

  lemma DeliveryWork(bandwidth: real, s: State)
    requires bandwidth > 0.0 && !Empty(s.receiving)
    ensures (BodyAt(bandwidth, s) - s.now) * bandwidth == s.receiving[Earliest(s.receiving)].t * (Size(s.receiving) as real)
  {
    hide Earliest, Size;
    WorkOver(s.now, s.receiving[Earliest(s.receiving)].t * (Size(s.receiving) as real), bandwidth);
  }

  lemma DeliveredBodies(ranges: seq<Range>, bandwidth: real, s: State)
    requires ValidInput(ranges, bandwidth) && Inv(ranges, s) && !Empty(s.receiving)
    ensures var i := Earliest(s.receiving);
            Deliver(ranges, bandwidth, s).receiving == Shifted(s.receiving, -s.receiving[i].t)[i := Never]
  {
    hide BodyAt, Shifted, Earliest, Inv;
  }

  /** The body that ends has nothing left once all are served what it needed. */
  lemma LastServed(receiving: seq<Time>, i: nat)
    requires i < |receiving| && receiving[i].At?
    ensures var served := Shifted(receiving, -receiving[i].t);
            Total(served[i := Never]) == Total(served)
  {
    var served := Shifted(receiving, -receiving[i].t);
    SumSet(served, i, Never, |served|);
  }

  // ---------------------------------------------------------------- conservation

  /** Bytes of range `i` that no response has started to deliver. */
  ghost function Unstarted(ranges: seq<Range>, s: State, i: nat): real
    requires Sized(|ranges|, s) && i < |ranges|
  {
    var tail := if ranges[i].split then ranges[i].Body(true) else 0.0;
    if s.done[i] then 0.0
    else if s.receiving[i].At? then (if s.tails[i] then 0.0 else tail)
    else if s.tails[i] then tail
    else ranges[i].bytes
  }

  ghost function UnstartedBytes(ranges: seq<Range>, s: State, k: nat): real
    requires Sized(|ranges|, s) && k <= |ranges|
  {
    if k == 0 then 0.0 else UnstartedBytes(ranges, s, k - 1) + Unstarted(ranges, s, k - 1)
  }

  ghost function TotalBytes(ranges: seq<Range>): real {
    if ranges == [] then 0.0 else TotalBytes(ranges[..|ranges| - 1]) + ranges[|ranges| - 1].bytes
  }

  lemma {:induction false} UnstartedChange(ranges: seq<Range>, s: State, r: State, w: int, taken: real, k: nat)
    requires Sized(|ranges|, s) && Sized(|ranges|, r) && k <= |ranges|
    requires forall i :: 0 <= i < |ranges| ==>
               Unstarted(ranges, r, i) + (if i == w then taken else 0.0) == Unstarted(ranges, s, i)
    ensures UnstartedBytes(ranges, r, k) + (if 0 <= w < k then taken else 0.0) == UnstartedBytes(ranges, s, k)
  {
    if k > 0 {
      UnstartedChange(ranges, s, r, w, taken, k - 1);
    }
  }

  /** Delivered bytes (busy time at full bandwidth), bytes in flight and unstarted bytes. */
  ghost function AllBytes(ranges: seq<Range>, bandwidth: real, s: State): real
    requires Sized(|ranges|, s)
  {
    s.busy * bandwidth + Total(s.receiving) + UnstartedBytes(ranges, s, |ranges|)
  }

  lemma SplitProduct(x: real, y: real, z: real)
    ensures (x - y) * z == x * z - y * z
  {
  }

  lemma RespondConserves(ranges: seq<Range>, bandwidth: real, s: State)
    requires ValidInput(ranges, bandwidth) && Inv(ranges, s) && !Empty(s.waiting)
    ensures Sized(|ranges|, Respond(ranges, bandwidth, s))
    ensures AllBytes(ranges, bandwidth, Respond(ranges, bandwidth, s)) == AllBytes(ranges, bandwidth, s)
  {
    var r := Respond(ranges, bandwidth, s);
    var i := Earliest(s.waiting);
    assert RangeInv(ranges, s, i);
    UnstartedChange(ranges, s, r, i, ranges[i].Body(s.tails[i]), |ranges|);
    RespondTotal(ranges, bandwidth, s);
    SplitProduct(r.busy, s.busy, bandwidth);
  }

  lemma DeliverUnstarted(ranges: seq<Range>, bandwidth: real, s: State)
    requires ValidInput(ranges, bandwidth) && Inv(ranges, s) && !Empty(s.receiving)
    ensures var r := Deliver(ranges, bandwidth, s);
            Sized(|ranges|, r) && UnstartedBytes(ranges, r, |ranges|) == UnstartedBytes(ranges, s, |ranges|)
  {
    hide BodyAt;
    var r := Deliver(ranges, bandwidth, s);
    assert RangeInv(ranges, s, Earliest(s.receiving));
    UnstartedChange(ranges, s, r, -1, 0.0, |ranges|);
  }

  lemma DeliverConserves(ranges: seq<Range>, bandwidth: real, s: State)
    requires ValidInput(ranges, bandwidth) && Inv(ranges, s) && !Empty(s.receiving)
    ensures Sized(|ranges|, Deliver(ranges, bandwidth, s))
    ensures AllBytes(ranges, bandwidth, Deliver(ranges, bandwidth, s)) == AllBytes(ranges, bandwidth, s)
  {
    hide BodyAt, Inv, Total, UnstartedBytes, Shifted;
    DeliverUnstarted(ranges, bandwidth, s);
    DeliverTotal(ranges, bandwidth, s);
    SplitProduct(Deliver(ranges, bandwidth, s).busy, s.busy, bandwidth);
  }

  lemma EventConserves(ranges: seq<Range>, bandwidth: real, s: State)
    requires ValidInput(ranges, bandwidth) && Inv(ranges, s) && InFlight(s)
    ensures Sized(|ranges|, Event(ranges, bandwidth, s))
    ensures AllBytes(ranges, bandwidth, Event(ranges, bandwidth, s)) == AllBytes(ranges, bandwidth, s)
  {
    if ResponseIsNext(bandwidth, s) {
      RespondConserves(ranges, bandwidth, s);
    } else {
      DeliverConserves(ranges, bandwidth, s);
    }
  }

  lemma IssueConserves(ranges: seq<Range>, bandwidth: real, s: State)
    requires Inv(ranges, s)
    ensures Sized(|ranges|, Issue(ranges, s))
    ensures AllBytes(ranges, bandwidth, Issue(ranges, s)) == AllBytes(ranges, bandwidth, s)
  {
    UnstartedChange(ranges, s, Issue(ranges, s), -1, 0.0, |ranges|);
  }

  lemma StepConserves(ranges: seq<Range>, bandwidth: real, s: State)
    requires ValidInput(ranges, bandwidth) && Inv(ranges, s) && !Finished(s)
    ensures AllBytes(ranges, bandwidth, Step(ranges, bandwidth, s)) == AllBytes(ranges, bandwidth, s)
  {
    IssueKeepsInv(ranges, bandwidth, s);
    SomethingInFlight(ranges, bandwidth, s);
    IssueConserves(ranges, bandwidth, s);
    EventConserves(ranges, bandwidth, Issue(ranges, s));
  }

  lemma {:induction false} InitBytes(ranges: seq<Range>, k: nat)
    requires k <= |ranges|
    ensures Sum(Init(|ranges|).receiving, k) == 0.0
    ensures UnstartedBytes(ranges, Init(|ranges|), k) == TotalBytes(ranges[..k])
  {
    if k > 0 {
      InitBytes(ranges, k - 1);
      assert ranges[..k][..k - 1] == ranges[..k - 1];
    }
  }

  /** In every reachable state no byte has been lost or delivered twice. */
  lemma {:induction false} BytesConserved(ranges: seq<Range>, bandwidth: real, k: nat)
    requires ValidInput(ranges, bandwidth)
    ensures AllBytes(ranges, bandwidth, After(ranges, bandwidth, k)) == TotalBytes(ranges)
  {
    if k == 0 {
      InitBytes(ranges, |ranges|);
      assert ranges[..|ranges|] == ranges;
    } else {
      BytesConserved(ranges, bandwidth, k - 1);
      var s := After(ranges, bandwidth, k - 1);
      if !Finished(s) {
        StepConserves(ranges, bandwidth, s);
      }
    }
  }

  // ---------------------------------------------------------------- termination

  /** The number of events a whole run takes: two per response, four for a split range. */
  function AllEvents(ranges: seq<Range>): nat {
    if ranges == [] then 0 else AllEvents(ranges[..|ranges| - 1]) + Events(ranges[|ranges| - 1])
  }

  lemma {:induction false} InitPending(ranges: seq<Range>, k: nat)
    requires k <= |ranges|
    ensures Pending(ranges, Init(|ranges|), k) == AllEvents(ranges[..k]) <= 4 * k
  {
    if k > 0 {
      InitPending(ranges, k - 1);
      assert ranges[..k][..k - 1] == ranges[..k - 1];
    }
  }

  lemma {:induction false} PendingZeroUpTo(ranges: seq<Range>, s: State, k: nat)
    requires Inv(ranges, s) && k <= |ranges|
    ensures Pending(ranges, s, k) == 0 <==> forall i :: 0 <= i < k ==> s.done[i]
  {
    if k > 0 {
      PendingZeroUpTo(ranges, s, k - 1);
      assert RangeInv(ranges, s, k - 1);
    }
  }

  lemma PendingZero(ranges: seq<Range>, s: State)
    requires Inv(ranges, s)
    ensures Pending(ranges, s, |ranges|) == 0 <==> Finished(s)
  {
    PendingZeroUpTo(ranges, s, |ranges|);
  }

  /** After `k` iterations exactly `k` events have been used, until none is left. */
  lemma {:induction false} EventsUsed(ranges: seq<Range>, bandwidth: real, k: nat)
    requires ValidInput(ranges, bandwidth)
    ensures AllEvents(ranges) <= 4 * |ranges|
    ensures Finished(After(ranges, bandwidth, k)) <==> k >= AllEvents(ranges)
    ensures k <= AllEvents(ranges) ==>
              Pending(ranges, After(ranges, bandwidth, k), |ranges|) == AllEvents(ranges) - k
  {
    hide Step, Inv, Pending, Finished, AllEvents;
    InitPending(ranges, |ranges|);
    assert ranges[..|ranges|] == ranges;
    PendingZero(ranges, After(ranges, bandwidth, k));
    if k > 0 {
      EventsUsed(ranges, bandwidth, k - 1);
      var s := After(ranges, bandwidth, k - 1);
      PendingZero(ranges, s);
      if !Finished(s) {
        StepUsesOne(ranges, bandwidth, s);
      }
    }
  }

  lemma ElapsedIsRun(ranges: seq<Range>, bandwidth: real)
    requires ValidInput(ranges, bandwidth)
    ensures Inv(ranges, Init(|ranges|)) && Elapsed(ranges, bandwidth) == Run(ranges, bandwidth, Init(|ranges|))
  {
    InitInv(ranges);
  }

  lemma {:induction false} RunIsAfter(ranges: seq<Range>, bandwidth: real, k: nat)
    requires ValidInput(ranges, bandwidth)
    ensures Run(ranges, bandwidth, After(ranges, bandwidth, k)) == Elapsed(ranges, bandwidth)
  {
    hide Step, Inv, Finished, Elapsed;
    if k == 0 {
      ElapsedIsRun(ranges, bandwidth);
    } else {
      RunIsAfter(ranges, bandwidth, k - 1);
    }
  }

  lemma {:induction false} FinishedHoldsNothing(ranges: seq<Range>, s: State, k: nat)
    requires Inv(ranges, s) && Finished(s) && k <= |ranges|
    ensures Sum(s.receiving, k) == 0.0 && UnstartedBytes(ranges, s, k) == 0.0
  {
    if k > 0 {
      FinishedHoldsNothing(ranges, s, k - 1);
      assert RangeInv(ranges, s, k - 1);
    }
  }

  /** The link cannot beat its bandwidth: a run lasts at least total bytes over bandwidth. */
  lemma ElapsedAtLeastTransfer(ranges: seq<Range>, bandwidth: real)
    requires ValidInput(ranges, bandwidth)
    ensures Elapsed(ranges, bandwidth) >= TotalBytes(ranges) / bandwidth
  {
    var k := AllEvents(ranges);
    var s := After(ranges, bandwidth, k);
    EventsUsed(ranges, bandwidth, k);
    RunIsAfter(ranges, bandwidth, k);
    BytesConserved(ranges, bandwidth, k);
    TransferTime(ranges, bandwidth, s);
  }

  lemma TransferTime(ranges: seq<Range>, bandwidth: real, s: State)
    requires ValidInput(ranges, bandwidth) && Inv(ranges, s) && Finished(s)
    requires AllBytes(ranges, bandwidth, s) == TotalBytes(ranges)
    ensures s.now >= TotalBytes(ranges) / bandwidth
  {
    FinishedHoldsNothing(ranges, s, |ranges|);
    OverBandwidth(s.busy, bandwidth, TotalBytes(ranges));
  }

  lemma OverBandwidth(busy: real, bandwidth: real, bytes: real)
    requires bandwidth > 0.0 && busy * bandwidth == bytes
    ensures busy == bytes / bandwidth
  {
  }

  // ---------------------------------------------------------------- the closed form

  /** Every request has been sent and every prefix delivered. */
  ghost predicate Settled(ranges: seq<Range>, s: State)
    requires Sized(|ranges|, s)
  {
    s.next == |ranges| && forall i :: 0 <= i < |ranges| && ranges[i].split ==> s.tails[i]
  }

  function Later(a: real, b: real): real { if a >= b then a else b }

  /** The recurrence over arrivals in order: a body starts once it has arrived and the link is free. */
  ghost function Drain(ranges: seq<Range>, bandwidth: real, finish: real, waiting: seq<Time>): real
    requires bandwidth > 0.0 && |waiting| == |ranges|
    decreases Size(waiting)
  {
    if Empty(waiting) then finish
    else
      var i := Earliest(waiting);
      SumSet(waiting, i, Never, |waiting|);
      Drain(ranges, bandwidth,
            Later(finish, waiting[i].t) + ranges[i].Body(ranges[i].split) / bandwidth, waiting[i := Never])
  }

  ghost function ClosedForm(ranges: seq<Range>, bandwidth: real, s: State): real
    requires bandwidth > 0.0 && Sized(|ranges|, s)
  {
    Drain(ranges, bandwidth, s.now + Total(s.receiving) / bandwidth, s.waiting)
  }

  lemma {:induction false} SumAtLeast(times: seq<Time>, low: real, k: nat)
    requires k <= |times|
    requires forall i :: 0 <= i < |times| && times[i].At? ==> times[i].t >= low
    ensures Sum(times, k) >= Multiple(low, Count(times, k))
  {
    if k > 0 {
      SumAtLeast(times, low, k - 1);
    }
  }

  lemma TotalAtLeast(times: seq<Time>, low: real)
    requires forall i :: 0 <= i < |times| && times[i].At? ==> times[i].t >= low
    ensures Total(times) >= low * (Size(times) as real)
  {
    SumAtLeast(times, low, |times|);
    MultipleIsProduct(low, Size(times));
  }

  /** The backlog cannot finish before its earliest body. */
  lemma BacklogAfterBody(ranges: seq<Range>, bandwidth: real, s: State)
    requires ValidInput(ranges, bandwidth) && Inv(ranges, s) && !Empty(s.receiving)
    ensures s.now + Total(s.receiving) / bandwidth >= BodyAt(bandwidth, s)
  {
    var least := s.receiving[Earliest(s.receiving)].t;
    TotalAtLeast(s.receiving, least);
    DivideMonotone(least * (Size(s.receiving) as real), Total(s.receiving), bandwidth);
  }

  lemma SettledResponse(ranges: seq<Range>, s: State)
    requires Inv(ranges, s) && Settled(ranges, s) && !Empty(s.waiting)
    ensures var i := Earliest(s.waiting);
            i < |ranges| && s.tails[i] == ranges[i].split && s.waiting[i].t >= s.now
  {
    assert RangeInv(ranges, s, Earliest(s.waiting));
  }

  lemma FinishWhenIdle(now: real, at: real, body: real, bandwidth: real)
    requires bandwidth > 0.0 && at >= now
    ensures at + body / bandwidth == Later(now + 0.0 / bandwidth, at) + body / bandwidth
  {
  }

  lemma FinishWhenBusy(now: real, at: real, backlog: real, body: real, bandwidth: real)
    requires bandwidth > 0.0 && now + backlog / bandwidth >= at
    ensures at + (backlog - (at - now) * bandwidth + body) / bandwidth
         == Later(now + backlog / bandwidth, at) + body / bandwidth
  {
    BacklogAfterResponse(backlog, at - now, body, bandwidth);
  }

  /** A response adds its body to the backlog. */
  lemma RespondFinish(ranges: seq<Range>, bandwidth: real, s: State)
    requires ValidInput(ranges, bandwidth) && Inv(ranges, s) && Settled(ranges, s)
    requires ResponseIsNext(bandwidth, s)
    ensures var r := Respond(ranges, bandwidth, s);
            var i := Earliest(s.waiting);
            && i < |ranges|
            && r.now + Total(r.receiving) / bandwidth
               == Later(s.now + Total(s.receiving) / bandwidth, s.waiting[i].t) + ranges[i].Body(ranges[i].split) / bandwidth
  {
    hide Total, Shifted, BodyAt, RangeInv, Settled, Share, Range.Body;
    SettledResponse(ranges, s);
    RespondTotal(ranges, bandwidth, s);
    var at := s.waiting[Earliest(s.waiting)].t;
    var body := ranges[Earliest(s.waiting)].Body(ranges[Earliest(s.waiting)].split);
    if Empty(s.receiving) {
      SizeEmpty(s.receiving);
      FinishWhenIdle(s.now, at, body, bandwidth);
    } else {
      BacklogAfterBody(ranges, bandwidth, s);
      FinishWhenBusy(s.now, at, Total(s.receiving), body, bandwidth);
    }
  }

  /** After a response the backlog finishes when the recurrence says. */
  lemma RespondClosedForm(ranges: seq<Range>, bandwidth: real, s: State)
    requires ValidInput(ranges, bandwidth) && Inv(ranges, s) && Settled(ranges, s)
    requires ResponseIsNext(bandwidth, s)
    ensures var r := Respond(ranges, bandwidth, s);
            Sized(|ranges|, r) && ClosedForm(ranges, bandwidth, r) == ClosedForm(ranges, bandwidth, s)
  {
    hide Total, Shifted, BodyAt, RangeInv, Settled, Share, ValidInput, Range.Body, Later;
    RespondFinish(ranges, bandwidth, s);
  }

  lemma BacklogAfterResponse(backlog: real, elapsed: real, body: real, bandwidth: real)
    requires bandwidth > 0.0
    ensures (backlog - elapsed * bandwidth + body) / bandwidth == backlog / bandwidth - elapsed + body / bandwidth
  {
    var served := elapsed * bandwidth;
    DivideSum(backlog - served, body, bandwidth);
    DivideSum(backlog - served, served, bandwidth);
    OverBandwidth(elapsed, bandwidth, served);
  }

  lemma FinishAfterBody(now: real, at: real, backlog: real, bandwidth: real)
    requires bandwidth > 0.0
    ensures at + (backlog - (at - now) * bandwidth) / bandwidth == now + backlog / bandwidth
  {
    BacklogAfterResponse(backlog, at - now, 0.0, bandwidth);
  }

  lemma DeliverClosedForm(ranges: seq<Range>, bandwidth: real, s: State)
    requires ValidInput(ranges, bandwidth) && Inv(ranges, s) && Settled(ranges, s) && !Empty(s.receiving)
    ensures var r := Deliver(ranges, bandwidth, s);
            Sized(|ranges|, r) && ClosedForm(ranges, bandwidth, r) == ClosedForm(ranges, bandwidth, s)
  {
    DeliverSettled(ranges, bandwidth, s);
    hide Total, Shifted, BodyAt, RangeInv, Settled, Inv, Drain;
    DeliverTotal(ranges, bandwidth, s);
    FinishAfterBody(s.now, BodyAt(bandwidth, s), Total(s.receiving), bandwidth);
  }

  lemma DeliverSettled(ranges: seq<Range>, bandwidth: real, s: State)
    requires ValidInput(ranges, bandwidth) && Inv(ranges, s) && Settled(ranges, s) && !Empty(s.receiving)
    ensures var r := Deliver(ranges, bandwidth, s); Sized(|ranges|, r) && r.waiting == s.waiting
  {
    assert RangeInv(ranges, s, Earliest(s.receiving));
  }

  lemma StepClosedForm(ranges: seq<Range>, bandwidth: real, s: State)
    requires ValidInput(ranges, bandwidth) && Inv(ranges, s) && Settled(ranges, s) && !Finished(s)
    ensures var r := Step(ranges, bandwidth, s);
            Settled(ranges, r) && ClosedForm(ranges, bandwidth, r) == ClosedForm(ranges, bandwidth, s)
  {
    IssueKeepsInv(ranges, bandwidth, s);
    SomethingInFlight(ranges, bandwidth, s);
    var t := Issue(ranges, s);
    assert t.waiting == s.waiting;
    if ResponseIsNext(bandwidth, t) {
      RespondClosedForm(ranges, bandwidth, t);
    } else {
      DeliverClosedForm(ranges, bandwidth, t);
    }
  }

  /**
   * Once all requests are out and all prefixes delivered, the recurrence gives exactly the
   * time the event loop would reach by simulating every remaining event.
   */
  lemma {:induction false} ClosedFormIsRun(ranges: seq<Range>, bandwidth: real, s: State)
    requires ValidInput(ranges, bandwidth) && Inv(ranges, s) && Settled(ranges, s)
    ensures ClosedForm(ranges, bandwidth, s) == Run(ranges, bandwidth, s)
    decreases Pending(ranges, s, |ranges|)
  {
    if Finished(s) {
      assert Empty(s.waiting) && Empty(s.receiving) by {
        forall i | 0 <= i < |ranges|
          ensures s.waiting[i].Never? && s.receiving[i].Never?
        {
          assert RangeInv(ranges, s, i);
        }
      }
      SizeEmpty(s.receiving);
    } else {
      StepUsesOne(ranges, bandwidth, s);
      StepClosedForm(ranges, bandwidth, s);
      ClosedFormIsRun(ranges, bandwidth, Step(ranges, bandwidth, s));
    }
  }

  /** A run of at least one range settles before its last event: the closed form is always reached. */
  lemma UnsettledDoesNotFinish(ranges: seq<Range>, bandwidth: real, s: State)
    requires ValidInput(ranges, bandwidth) && Inv(ranges, s) && InFlight(s)
    requires !Settled(ranges, s)
    ensures !Finished(Event(ranges, bandwidth, s))
  {
    if s.next < |ranges| {
      assert RangeInv(ranges, s, s.next);
      assert !Event(ranges, bandwidth, s).done[s.next];
    } else {
      var j :| 0 <= j < |ranges| && ranges[j].split && !s.tails[j];
      assert RangeInv(ranges, s, j);
      assert !Event(ranges, bandwidth, s).done[j];
    }
  }

  /** Splitting a lone request costs exactly one extra wait, whatever its size and delays. */
  lemma LoneSplitAddsOneWait(range: Range, bandwidth: real)
    requires range.split && ValidInput([range], bandwidth)
    ensures ValidInput([range.(split := false)], bandwidth)
    ensures Elapsed([range], bandwidth) == Elapsed([range.(split := false)], bandwidth) + range.tailDelay
  {
    LoneSplit(range, bandwidth);
    var whole := range.(split := false);
    assert [range][0].Valid() && [whole][0] == whole;
    LoneWhole(whole, bandwidth);
    DivideSum(PREFIX_BYTES, range.bytes - PREFIX_BYTES, bandwidth);
  }

  /** A lone range, its first response just arrived. */
  function LoneStarted(range: Range): State {
    State(range.firstDelay, 0.0, 0, 1, [Never], [At(range.Body(false))], [false], [false])
  }

  lemma LoneFirstStep(range: Range, bandwidth: real)
    requires ValidInput([range], bandwidth)
    ensures Inv([range], LoneStarted(range))
    ensures Elapsed([range], bandwidth) == Run([range], bandwidth, LoneStarted(range))
  {
    var s := Init(1);
    assert !s.done[0];
    var t := Issue([range], s);
    assert t.waiting == [At(range.firstDelay)];
    assert t.receiving[0].Never?;
    assert Step([range], bandwidth, s) == LoneStarted(range);
  }

  lemma LoneWhole(range: Range, bandwidth: real)
    requires !range.split && ValidInput([range], bandwidth)
    ensures Elapsed([range], bandwidth) == range.firstDelay + range.bytes / bandwidth
  {
    LoneFirstStep(range, bandwidth);
    var s := LoneStarted(range);
    ClosedFormIsRun([range], bandwidth, s);
    assert Total(s.receiving) == Sum(s.receiving, 0) + range.bytes;
  }

  lemma LoneSplit(range: Range, bandwidth: real)
    requires range.split && ValidInput([range], bandwidth)
    ensures Elapsed([range], bandwidth)
         == range.firstDelay + PREFIX_BYTES / bandwidth + range.tailDelay + (range.bytes - PREFIX_BYTES) / bandwidth
  {
    var read := range.firstDelay + PREFIX_BYTES / bandwidth;
    LoneFirstStep(range, bandwidth);
    LoneSecondStep(range, bandwidth, read);
    LoneTail(range, bandwidth, read);
  }

  lemma LoneTail(range: Range, bandwidth: real, now: real)
    requires range.split && ValidInput([range], bandwidth) && Inv([range], LonePrefixRead(range, now))
    ensures Run([range], bandwidth, LonePrefixRead(range, now))
         == now + range.tailDelay + (range.bytes - PREFIX_BYTES) / bandwidth
  {
    var t := LonePrefixRead(range, now);
    assert [range][0].Valid();
    ClosedFormIsRun([range], bandwidth, t);
    assert Total(t.receiving) == Sum(t.receiving, 0);
    LoneDrain(range, bandwidth, now, now + range.tailDelay);
  }

  /** A lone split range at the moment its prefix has been read. */
  function LonePrefixRead(range: Range, now: real): State {
    State(now, now - range.firstDelay, 0, 1, [At(now + range.tailDelay)], [Never], [true], [false])
  }

  lemma LoneSecondStep(range: Range, bandwidth: real, read: real)
    requires range.split && ValidInput([range], bandwidth)
    requires read == range.firstDelay + PREFIX_BYTES / bandwidth
    ensures Inv([range], LoneStarted(range)) && Inv([range], LonePrefixRead(range, read))
    ensures Run([range], bandwidth, LoneStarted(range)) == Run([range], bandwidth, LonePrefixRead(range, read))
  {
    LoneFirstStep(range, bandwidth);
    var s := LoneStarted(range);
    assert s.receiving[0].At? && !s.done[0];
    assert Size(s.receiving) == Count(s.receiving, 0) + 1;
    assert BodyAt(bandwidth, s) == read;
    var t := Step([range], bandwidth, s);
    assert t.waiting == [At(t.now + range.tailDelay)];
    assert t.receiving == [Never];
    assert t == LonePrefixRead(range, read);
  }

  lemma LoneDrain(range: Range, bandwidth: real, finish: real, at: real)
    requires bandwidth > 0.0
    ensures Drain([range], bandwidth, finish, [At(at)]) == Later(finish, at) + range.Body(range.split) / bandwidth
  {
    var waiting := [At(at)];
    assert waiting[0].At?;
    assert waiting[0 := Never] == [Never];
  }
}
