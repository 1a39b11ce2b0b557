/** What runs of the request simulation take in closed terms: full windows, waves of requests, shared prefixes. */
module EqualShareLaws {
  import opened EqualShare
  import opened EqualShareTheorems
  import opened Numbers
  import opened Times

  // ---------------------------------------------------------------- one window

  /** All first responses, when all requests are sent at once. */
  function FirstArrivals(ranges: seq<Range>): (r: seq<Time>)
    ensures |r| == |ranges|
  {
    seq(|ranges|, i requires 0 <= i < |ranges| => At(ranges[i].firstDelay))
  }

  ghost predicate Unsplit(ranges: seq<Range>) {
    forall i :: 0 <= i < |ranges| ==> !ranges[i].split
  }

  /** Up to 32 requests are all sent at the start. */
  lemma AllSentAtOnce(ranges: seq<Range>, bandwidth: real)
    requires ValidInput(ranges, bandwidth) && |ranges| <= 32
    ensures Inv(ranges, Init(|ranges|))
    ensures Issue(ranges, Init(|ranges|)) == AllSent(ranges)
  {
    InitInv(ranges);
    assert Issue(ranges, Init(|ranges|)).waiting == FirstArrivals(ranges);
  }

  /** The state when all requests have been sent at the start. */
  function AllSent(ranges: seq<Range>): State {
    Init(|ranges|).(next := |ranges|, waiting := FirstArrivals(ranges))
  }

  lemma FirstStep(ranges: seq<Range>, bandwidth: real)
    requires ValidInput(ranges, bandwidth) && 0 < |ranges| <= 32
    ensures Inv(ranges, AllSent(ranges)) && ResponseIsNext(bandwidth, AllSent(ranges))
    ensures Inv(ranges, Respond(ranges, bandwidth, AllSent(ranges)))
    ensures Elapsed(ranges, bandwidth) == Run(ranges, bandwidth, Respond(ranges, bandwidth, AllSent(ranges)))
  {
    hide Respond, Issue;
    var s, t := Init(|ranges|), AllSent(ranges);
    AllSentAtOnce(ranges, bandwidth);
    IssueKeepsInv(ranges, bandwidth, s);
    ElapsedIsRun(ranges, bandwidth);
    assert t.waiting[0].At? && Empty(t.receiving);
    RespondKeepsInv(ranges, bandwidth, t);
    assert !s.done[0];
    assert Event(ranges, bandwidth, t) == Respond(ranges, bandwidth, t);
    assert Step(ranges, bandwidth, s) == Respond(ranges, bandwidth, t);
  }

  lemma RespondSettled(ranges: seq<Range>, bandwidth: real, s: State)
    requires Inv(ranges, s) && !Empty(s.waiting) && Settled(ranges, s)
    ensures Sized(|ranges|, Respond(ranges, bandwidth, s)) && Settled(ranges, Respond(ranges, bandwidth, s))
  {
  }

  lemma NothingReceived(bandwidth: real, receiving: seq<Time>)
    requires Empty(receiving) && bandwidth > 0.0
    ensures 0.0 + Total(receiving) / bandwidth == 0.0
  {
    SizeEmpty(receiving);
  }

  /**
   * Up to 32 whole requests start together and then only share the link: each body in order of arrival,
   * once the link is free.
   */
  lemma OneWindow(ranges: seq<Range>, bandwidth: real)
    requires ValidInput(ranges, bandwidth) && 0 < |ranges| <= 32 && Unsplit(ranges)
    ensures Elapsed(ranges, bandwidth) == Drain(ranges, bandwidth, 0.0, FirstArrivals(ranges))
  {
    hide Drain, Respond, Inv, Run, Elapsed, Total;
    var t := AllSent(ranges);
    FirstStep(ranges, bandwidth);
    RespondSettled(ranges, bandwidth, t);
    RespondClosedForm(ranges, bandwidth, t);
    ClosedFormIsRun(ranges, bandwidth, Respond(ranges, bandwidth, t));
    NothingReceived(bandwidth, t.receiving);
  }

  /** The bodies of the responses in `waiting`. */
  ghost function Bodies(ranges: seq<Range>, waiting: seq<Time>, k: nat): real
    requires k <= |ranges| == |waiting|
  {
    if k == 0 then 0.0
    else Bodies(ranges, waiting, k - 1) + (if waiting[k - 1].At? then ranges[k - 1].Body(ranges[k - 1].split) else 0.0)
  }

  lemma {:induction false} BodiesWithout(ranges: seq<Range>, waiting: seq<Time>, i: nat, k: nat)
    requires k <= |ranges| == |waiting| && i < |waiting| && waiting[i].At?
    ensures Bodies(ranges, waiting, k)
         == Bodies(ranges, waiting[i := Never], k) + (if i < k then ranges[i].Body(ranges[i].split) else 0.0)
  {
    if k > 0 { BodiesWithout(ranges, waiting, i, k - 1); }
  }

  lemma {:induction false} NoBodies(ranges: seq<Range>, waiting: seq<Time>, k: nat)
    requires k <= |ranges| == |waiting| && Empty(waiting)
    ensures Bodies(ranges, waiting, k) == 0.0
  {
    if k > 0 { NoBodies(ranges, waiting, k - 1); }
  }

  lemma DrainOne(ranges: seq<Range>, bandwidth: real, finish: real, waiting: seq<Time>)
    requires ValidInput(ranges, bandwidth) && |waiting| == |ranges| && !Empty(waiting)
    ensures var i := Earliest(waiting);
            var body := ranges[i].Body(ranges[i].split) / bandwidth;
            && waiting[i].At? && body >= 0.0 && Size(waiting[i := Never]) < Size(waiting)
            && Drain(ranges, bandwidth, finish, waiting)
               == Drain(ranges, bandwidth, Later(finish, waiting[i].t) + body, waiting[i := Never])
            && Bodies(ranges, waiting, |ranges|) / bandwidth
               == body + Bodies(ranges, waiting[i := Never], |ranges|) / bandwidth
  {
    var i := Earliest(waiting);
    var body := ranges[i].Body(ranges[i].split);
    SumSet(waiting, i, Never, |waiting|);
    assert ranges[i].Valid();
    BodiesWithout(ranges, waiting, i, |ranges|);
    DivideMonotone(0.0, body, bandwidth);
    DivideSum(body, Bodies(ranges, waiting[i := Never], |ranges|), bandwidth);
  }

  ghost predicate AllAt(waiting: seq<Time>, at: real) {
    forall i :: 0 <= i < |waiting| && waiting[i].At? ==> waiting[i].t == at
  }

  /** Responses that have all arrived when the link gets free follow one another without a pause. */
  lemma {:induction false} DrainTogether(ranges: seq<Range>, bandwidth: real, finish: real, at: real, waiting: seq<Time>)
    requires ValidInput(ranges, bandwidth) && |waiting| == |ranges| && at <= finish && AllAt(waiting, at)
    ensures Drain(ranges, bandwidth, finish, waiting) == finish + Bodies(ranges, waiting, |ranges|) / bandwidth
    decreases Size(waiting)
  {
    hide Bodies, Range.Body, Size;
    if Empty(waiting) {
      NoBodies(ranges, waiting, |ranges|);
    } else {
      var i := Earliest(waiting);
      DrainOne(ranges, bandwidth, finish, waiting);
      DrainTogether(ranges, bandwidth, finish + ranges[i].Body(ranges[i].split) / bandwidth, at, waiting[i := Never]);
    }
  }

  /** Before the link is free, they wait for the first of them. */
  lemma DrainAllAt(ranges: seq<Range>, bandwidth: real, finish: real, at: real, waiting: seq<Time>)
    requires ValidInput(ranges, bandwidth) && |waiting| == |ranges| && !Empty(waiting) && AllAt(waiting, at)
    ensures Drain(ranges, bandwidth, finish, waiting)
         == Later(finish, at) + Bodies(ranges, waiting, |ranges|) / bandwidth
  {
    hide Bodies, Range.Body, Drain, Size;
    var i := Earliest(waiting);
    DrainOne(ranges, bandwidth, finish, waiting);
    DrainTogether(ranges, bandwidth, Later(finish, at) + ranges[i].Body(ranges[i].split) / bandwidth, at,
                  waiting[i := Never]);
  }

  lemma {:induction false} WholeBodies(ranges: seq<Range>, k: nat)
    requires k <= |ranges| && Unsplit(ranges)
    ensures Bodies(ranges, FirstArrivals(ranges), k) == TotalBytes(ranges[..k])
  {
    if k > 0 {
      WholeBodies(ranges, k - 1);
      assert ranges[..k][..k - 1] == ranges[..k - 1];
    }
  }

  /** Up to 32 whole requests with the same delay pay it once, and then the transfer of all their bytes. */
  lemma EqualDelaysPayOnce(ranges: seq<Range>, bandwidth: real, delay: real)
    requires ValidInput(ranges, bandwidth) && 0 < |ranges| <= 32 && Unsplit(ranges)
    requires forall i :: 0 <= i < |ranges| ==> ranges[i].firstDelay == delay
    ensures Elapsed(ranges, bandwidth) == delay + TotalBytes(ranges) / bandwidth
  {
    hide Drain, TotalBytes;
    OneWindow(ranges, bandwidth);
    var waiting := FirstArrivals(ranges);
    assert ranges[0].Valid() && waiting[0].At?;
    DrainAllAt(ranges, bandwidth, 0.0, delay, waiting);
    WholeBodies(ranges, |ranges|);
    assert ranges[..|ranges|] == ranges;
  }

  // ---------------------------------------------------------------- waves of empty requests

  /** Requests for no bytes, all with the same delay. */
  ghost predicate Pings(ranges: seq<Range>, delay: real) {
    delay > 0.0 && forall i :: 0 <= i < |ranges| ==> ranges[i] == Range(0.0, false, delay, ranges[i].tailDelay)
  }

  /** In the wave of the 32 ranges from `low` on, whose responses arrive at `at`; `before` is when it was sent. */
  ghost predicate WaveRange(s: State, before: real, at: real, low: nat, i: nat)
    requires i < |s.waiting| == |s.receiving| == |s.done|
  {
    if i < low then s.done[i]
    else if i < low + 32 then
      && (s.waiting[i].At? ==> s.waiting[i].t == at)
      && (s.receiving[i].At? ==> s.receiving[i].t == 0.0 && s.now == at)
      && (s.done[i] ==> s.now == at)
    else
      && !s.done[i] && s.receiving[i].Never?
      && (s.waiting[i].At? ==> s.waiting[i].t == at + (at - before) && s.now == at)
  }

  /** A wave is answered as a whole before any of its ranges is done. */
  ghost predicate Wave(ranges: seq<Range>, s: State, before: real, at: real, low: nat) {
    && Inv(ranges, s) && before < at && (s.now == before || s.now == at)
    && (s.now == at ==> s.next >= Min(|ranges|, low + 32))
    && (forall i :: 0 <= i < |ranges| ==> WaveRange(s, before, at, low, i))
    && (Unanswered(s, low) ==> !SomeDone(s, low))
  }

  ghost predicate Unanswered(s: State, low: nat) {
    exists i :: low <= i < low + 32 && i < |s.waiting| && s.waiting[i].At?
  }

  ghost predicate SomeDone(s: State, low: nat) {
    exists i :: low <= i < low + 32 && i < |s.done| && s.done[i]
  }

  ghost predicate WaveDone(s: State, low: nat) {
    forall i :: low <= i < low + 32 && i < |s.done| ==> s.done[i]
  }

  lemma FrontOfWave(ranges: seq<Range>, s: State, before: real, at: real, low: nat)
    requires Wave(ranges, s, before, at, low) && low < |ranges|
    ensures var front := AdvanceFront(s.front, s.next, s.done);
            low <= s.next && low <= front && (s.now == before ==> front == low)
  {
    forall i | 0 <= i < low
      ensures s.done[i] && i < s.next
    {
      assert WaveRange(s, before, at, low, i) && RangeInv(ranges, s, i);
    }
    if low > 0 {
      assert s.done[low - 1];
    }
    assert WaveRange(s, before, at, low, low);
  }

  lemma IssueInWave(ranges: seq<Range>, bandwidth: real, s: State, delay: real, before: real, at: real, low: nat)
    requires ValidInput(ranges, bandwidth) && Pings(ranges, delay) && at == before + delay
    requires Wave(ranges, s, before, at, low) && low < |ranges|
    ensures var t := Issue(ranges, s);
            Wave(ranges, t, before, at, low) && t.next >= Min(|ranges|, low + 32) && t.done == s.done
  {
    FrontOfWave(ranges, s, before, at, low);
    IssueKeepsInv(ranges, bandwidth, s);
    var t := Issue(ranges, s);
    forall i | 0 <= i < |ranges|
      ensures WaveRange(t, before, at, low, i)
    {
      assert WaveRange(s, before, at, low, i) && RangeInv(ranges, s, i);
    }
    if SomeDone(s, low) {
      var j :| low <= j < low + 32 && j < |s.done| && s.done[j];
      assert WaveRange(s, before, at, low, j);
      forall i | low <= i < low + 32 && i < |t.waiting|
        ensures t.waiting[i].Never?
      {
        assert !Unanswered(s, low);
      }
    }
  }

  lemma NothingMoves(times: seq<Time>)
    ensures Shifted(times, -0.0) == times
  {
    assert forall i :: 0 <= i < |times| ==> Moved(times[i], -0.0) == times[i];
  }

  lemma EmptyBodyAt(bandwidth: real, s: State)
    requires bandwidth > 0.0 && !Empty(s.receiving) && s.receiving[Earliest(s.receiving)].t == 0.0
    ensures BodyAt(bandwidth, s) == s.now
  {
    assert 0.0 * (Size(s.receiving) as real) == 0.0;
  }

  lemma NoShare(bandwidth: real, count: nat)
    requires bandwidth > 0.0
    ensures Share(bandwidth, count, 0.0) == 0.0
  {
  }

  lemma FirstInWave(ranges: seq<Range>, s: State, before: real, at: real, low: nat)
    requires Wave(ranges, s, before, at, low)
    ensures !Empty(s.receiving) ==>
              var i := Earliest(s.receiving);
              s.now == at && low <= i < low + 32 && i < |s.receiving| && s.receiving[i] == At(0.0)
    ensures Unanswered(s, low) ==>
              !Empty(s.waiting) &&
              var i := Earliest(s.waiting);
              && low <= i < low + 32 && i < |s.waiting| && s.waiting[i] == At(at)
              && (s.tails[i] ==> ranges[i].split)
    ensures !Unanswered(s, low) && !Empty(s.waiting) ==> s.waiting[Earliest(s.waiting)].t > at
  {
    if !Empty(s.receiving) {
      var i := Earliest(s.receiving);
      assert WaveRange(s, before, at, low, i) && RangeInv(ranges, s, i);
    }
    if Unanswered(s, low) {
      var k :| low <= k < low + 32 && k < |s.waiting| && s.waiting[k].At?;
      assert WaveRange(s, before, at, low, k);
      var i := Earliest(s.waiting);
      assert WaveRange(s, before, at, low, i) && RangeInv(ranges, s, i);
    } else if !Empty(s.waiting) {
      var i := Earliest(s.waiting);
      assert WaveRange(s, before, at, low, i) && RangeInv(ranges, s, i);
    }
  }

  /** An empty body starts; nothing else changes but the clock. */
  lemma EmptyAnswer(ranges: seq<Range>, bandwidth: real, s: State, delay: real, before: real, at: real, low: nat)
    requires ValidInput(ranges, bandwidth) && Pings(ranges, delay)
    requires Wave(ranges, s, before, at, low) && Unanswered(s, low)
    ensures InFlight(s) && Event(ranges, bandwidth, s) == Respond(ranges, bandwidth, s)
    ensures var i, r := Earliest(s.waiting), Event(ranges, bandwidth, s);
            i < |s.waiting| && r == s.(now := at, busy := r.busy, waiting := s.waiting[i := Never],
                                       receiving := s.receiving[i := At(0.0)])
  {
    hide RangeInv, WaveRange;
    FirstInWave(ranges, s, before, at, low);
    if Empty(s.receiving) {
      SizeEmpty(s.receiving);
    } else {
      EmptyBodyAt(bandwidth, s);
      NoShare(bandwidth, Size(s.receiving));
    }
    NothingMoves(s.receiving);
  }

  lemma AnswerInWave(ranges: seq<Range>, bandwidth: real, s: State, delay: real, before: real, at: real, low: nat)
    requires ValidInput(ranges, bandwidth) && Pings(ranges, delay) && at == before + delay
    requires Wave(ranges, s, before, at, low) && s.next >= Min(|ranges|, low + 32) && Unanswered(s, low)
    ensures InFlight(s) && Wave(ranges, Event(ranges, bandwidth, s), before, at, low)
  {
    hide Event, RangeInv;
    FirstInWave(ranges, s, before, at, low);
    EmptyAnswer(ranges, bandwidth, s, delay, before, at, low);
    EventKeepsInv(ranges, bandwidth, s);
    var r := Event(ranges, bandwidth, s);
    forall j | 0 <= j < |ranges|
      ensures WaveRange(r, before, at, low, j)
    {
      assert WaveRange(s, before, at, low, j);
    }
  }

  /** An empty body ends; nothing else changes. */
  lemma EmptyFinish(ranges: seq<Range>, bandwidth: real, s: State, delay: real, before: real, at: real, low: nat)
    requires ValidInput(ranges, bandwidth) && Pings(ranges, delay)
    requires Wave(ranges, s, before, at, low) && !Unanswered(s, low) && !Empty(s.receiving)
    ensures InFlight(s) && s.now == at
    ensures var i, r := Earliest(s.receiving), Event(ranges, bandwidth, s);
            i < |s.receiving| && r == s.(busy := r.busy, receiving := s.receiving[i := Never], done := s.done[i := true])
  {
    hide RangeInv, WaveRange;
    FirstInWave(ranges, s, before, at, low);
    EmptyBodyAt(bandwidth, s);
    NothingMoves(s.receiving);
  }

  lemma FinishInWave(ranges: seq<Range>, bandwidth: real, s: State, delay: real, before: real, at: real, low: nat)
    requires ValidInput(ranges, bandwidth) && Pings(ranges, delay) && at == before + delay
    requires Wave(ranges, s, before, at, low) && s.next >= Min(|ranges|, low + 32)
    requires !Unanswered(s, low) && !WaveDone(s, low)
    ensures InFlight(s) && Wave(ranges, Event(ranges, bandwidth, s), before, at, low)
  {
    hide Event;
    var k :| low <= k < low + 32 && k < |s.done| && !s.done[k];
    assert RangeInv(ranges, s, k) && s.receiving[k].At?;
    FirstInWave(ranges, s, before, at, low);
    EmptyFinish(ranges, bandwidth, s, delay, before, at, low);
    EventKeepsInv(ranges, bandwidth, s);
    var r := Event(ranges, bandwidth, s);
    forall j | 0 <= j < |ranges|
      ensures WaveRange(r, before, at, low, j)
    {
      assert WaveRange(s, before, at, low, j);
    }
  }

  /** When a wave is done, the next one has been sent at that time, or nothing is left. */
  lemma NextWave(ranges: seq<Range>, s: State, before: real, at: real, low: nat)
    requires Wave(ranges, s, before, at, low) && low < |ranges| && WaveDone(s, low)
    ensures s.now == at
    ensures low + 32 < |ranges| ==> !Finished(s) && Wave(ranges, s, at, at + (at - before), low + 32)
    ensures low + 32 >= |ranges| ==> Finished(s)
  {
    assert WaveRange(s, before, at, low, low);
    if low + 32 < |ranges| {
      var next, top := at + (at - before), low + 32;
      assert WaveRange(s, before, at, low, low + 32);
      assert s.front <= low + 32;
      forall i | 0 <= i < |ranges|
        ensures WaveRange(s, at, next, top, i)
      {
        assert WaveRange(s, before, at, low, i) && RangeInv(ranges, s, i);
      }
      forall i | low + 32 <= i < low + 64 && i < |ranges|
        ensures !s.done[i]
      {
        assert WaveRange(s, before, at, low, i);
      }
    } else {
      forall i | 0 <= i < |ranges|
        ensures s.done[i]
      {
        assert WaveRange(s, before, at, low, i);
      }
    }
  }

  lemma MultipleNext(delay: real, count: nat)
    requires count > 0
    ensures Multiple(delay, count) == Multiple(delay, count - 1) + delay
  {
  }

  /** From the start of a wave on, every 32 ranges take one delay. */
  lemma {:induction false} WavesRun(ranges: seq<Range>, bandwidth: real, s: State, delay: real, before: real, at: real,
                                    low: nat)
    requires ValidInput(ranges, bandwidth) && Pings(ranges, delay) && at == before + delay
    requires Wave(ranges, s, before, at, low) && low < |ranges|
    ensures Run(ranges, bandwidth, s) == before + Multiple(delay, (|ranges| - low + 31) / 32)
    decreases Pending(ranges, s, |ranges|), |ranges| - low
  {
    hide Inv, Event, Issue, Pending, RangeInv, Multiple, WaveRange, Pings;
    if WaveDone(s, low) {
      NextWave(ranges, s, before, at, low);
      MultipleNext(delay, (|ranges| - low + 31) / 32);
      if low + 32 < |ranges| {
        WavesRun(ranges, bandwidth, s, delay, at, at + delay, low + 32);
      } else {
        MultipleNext(delay, 1);
        assert Multiple(delay, 0) == 0.0 by { NoMultiple(delay); }
      }
    } else {
      StepInWave(ranges, bandwidth, s, delay, before, at, low);
      WavesRun(ranges, bandwidth, Step(ranges, bandwidth, s), delay, before, at, low);
    }
  }

  lemma NoMultiple(delay: real)
    ensures Multiple(delay, 0) == 0.0
  {
  }

  lemma StepInWave(ranges: seq<Range>, bandwidth: real, s: State, delay: real, before: real, at: real, low: nat)
    requires ValidInput(ranges, bandwidth) && Pings(ranges, delay) && at == before + delay
    requires Wave(ranges, s, before, at, low) && low < |ranges| && !WaveDone(s, low)
    ensures !Finished(s) && Wave(ranges, Step(ranges, bandwidth, s), before, at, low)
    ensures Pending(ranges, Step(ranges, bandwidth, s), |ranges|) < Pending(ranges, s, |ranges|)
    ensures Run(ranges, bandwidth, s) == Run(ranges, bandwidth, Step(ranges, bandwidth, s))
  {
    hide Event, Issue, Pending, RangeInv, WaveRange, Pings;
    var k :| low <= k < low + 32 && k < |s.done| && !s.done[k];
    StepUsesOne(ranges, bandwidth, s);
    IssueInWave(ranges, bandwidth, s, delay, before, at, low);
    var t := Issue(ranges, s);
    if Unanswered(t, low) {
      AnswerInWave(ranges, bandwidth, t, delay, before, at, low);
    } else {
      assert !t.done[k];
      FinishInWave(ranges, bandwidth, t, delay, before, at, low);
    }
  }

  /** Requests for no bytes go in waves of 32, each of which takes one delay. */
  lemma PingsInWaves(ranges: seq<Range>, bandwidth: real, delay: real)
    requires ValidInput(ranges, bandwidth) && Pings(ranges, delay)
    ensures Elapsed(ranges, bandwidth) == ((|ranges| + 31) / 32) as real * delay
  {
    hide Run, RangeInv;
    ElapsedIsRun(ranges, bandwidth);
    var s := Init(|ranges|);
    if ranges == [] {
      assert Elapsed(ranges, bandwidth) == 0.0 by { NoRanges(bandwidth); }
    } else {
      assert Wave(ranges, s, 0.0, delay, 0);
      WavesRun(ranges, bandwidth, s, delay, 0.0, delay, 0);
      MultipleIsProduct(delay, (|ranges| + 31) / 32);
    }
  }

  lemma NoRanges(bandwidth: real)
    requires ValidInput([], bandwidth)
    ensures Elapsed([], bandwidth) == 0.0
  {
  }

  // ---------------------------------------------------------------- prefixes that share the link

  /** Split requests with the same delays, all of them sent at once. */
  ghost predicate Twins(ranges: seq<Range>, first: real, tail: real) {
    && 0 < |ranges| <= 32
    && forall i :: 0 <= i < |ranges| ==> ranges[i].split && ranges[i].firstDelay == first && ranges[i].tailDelay == tail
  }

  /** Every prefix is still to arrive at `first`, or has started to. */
  ghost predicate Prefixes(ranges: seq<Range>, s: State, first: real) {
    && Inv(ranges, s) && s.front == 0 && s.next == |ranges| && s.now <= first
    && (!Empty(s.receiving) ==> s.now == first)
    && forall i :: 0 <= i < |ranges| ==>
         !s.tails[i] && !s.done[i] && (s.waiting[i] == At(first) || s.receiving[i] == At(8192.0))
  }

  /** At `read` every prefix has been delivered in full, though some of them have not been taken yet. */
  ghost predicate PrefixesRead(ranges: seq<Range>, s: State, read: real, tail: real) {
    && Inv(ranges, s) && s.front == 0 && s.next == |ranges| && s.now == read
    && forall i :: 0 <= i < |ranges| ==> !s.done[i] && PrefixRead(ranges[i], s, read, tail, i)
  }

  ghost predicate PrefixRead(range: Range, s: State, read: real, tail: real, i: nat)
    requires i < |s.tails| == |s.waiting| == |s.receiving|
  {
    if !s.tails[i] then s.receiving[i] == At(0.0) && s.waiting[i].Never?
    else s.waiting[i] == At(read + tail) || (tail == 0.0 && s.receiving[i] == At(range.bytes - 8192.0))
  }

  lemma NothingToIssue(ranges: seq<Range>, s: State)
    requires Inv(ranges, s) && 0 < |ranges| <= 32 && s.front == 0 && s.next == |ranges| && !s.done[0]
    ensures Issue(ranges, s) == s && !Finished(s)
  {
    assert Sent(ranges, s.waiting, s.now, s.next, s.next) == s.waiting;
  }

  lemma {:induction false} SizeOfAll(times: seq<Time>, k: nat)
    requires k <= |times| && forall i :: 0 <= i < k ==> times[i].At?
    ensures Count(times, k) == k
  {
    if k > 0 { SizeOfAll(times, k - 1); }
  }

  lemma PrefixArrives(ranges: seq<Range>, bandwidth: real, s: State, first: real, tail: real)
    requires ValidInput(ranges, bandwidth) && Twins(ranges, first, tail)
    requires Prefixes(ranges, s, first) && !Empty(s.waiting)
    ensures InFlight(s) && Prefixes(ranges, Event(ranges, bandwidth, s), first)
  {
    var i := Earliest(s.waiting);
    assert RangeInv(ranges, s, i) && s.waiting[i] == At(first);
    if Empty(s.receiving) {
      SizeEmpty(s.receiving);
    } else {
      BodyAtNotBefore(ranges, bandwidth, s);
      NoShare(bandwidth, Size(s.receiving));
    }
    assert Share(bandwidth, Size(s.receiving), first - s.now) == 0.0;
    NothingMoves(s.receiving);
    EventKeepsInv(ranges, bandwidth, s);
    assert Event(ranges, bandwidth, s) == Respond(ranges, bandwidth, s);
  }

  /** With all prefixes on the link, they end together. */
  lemma PrefixesEnd(ranges: seq<Range>, bandwidth: real, s: State, first: real, tail: real, read: real)
    requires ValidInput(ranges, bandwidth) && Twins(ranges, first, tail)
    requires read == first + 8192.0 * (|ranges| as real) / bandwidth
    requires Prefixes(ranges, s, first) && Empty(s.waiting)
    ensures InFlight(s) && PrefixesRead(ranges, Event(ranges, bandwidth, s), read, tail)
  {
    assert ranges[0].Valid() && s.receiving[0] == At(8192.0);
    SizeOfAll(s.receiving, |ranges|);
    var i := Earliest(s.receiving);
    assert s.receiving[i] == At(8192.0) && BodyAt(bandwidth, s) == read;
    EventKeepsInv(ranges, bandwidth, s);
    var r := Event(ranges, bandwidth, s);
    assert r == Deliver(ranges, bandwidth, s);
    forall j | 0 <= j < |ranges|
      ensures !r.done[j] && PrefixRead(ranges[j], r, read, tail, j)
    {
      assert RangeInv(ranges, s, j);
    }
  }

  lemma TailStarts(ranges: seq<Range>, bandwidth: real, s: State, first: real, tail: real, read: real)
    requires ValidInput(ranges, bandwidth) && Twins(ranges, first, tail) && PrefixesRead(ranges, s, read, tail)
    requires tail == 0.0 && !Empty(s.waiting)
    ensures InFlight(s) && PrefixesRead(ranges, Event(ranges, bandwidth, s), read, tail)
  {
    var i := Earliest(s.waiting);
    assert PrefixRead(ranges[i], s, read, tail, i) && RangeInv(ranges, s, i);
    if Empty(s.receiving) {
      SizeEmpty(s.receiving);
    } else {
      BodyAtNotBefore(ranges, bandwidth, s);
      NoShare(bandwidth, Size(s.receiving));
    }
    assert Share(bandwidth, Size(s.receiving), read - s.now) == 0.0;
    NothingMoves(s.receiving);
    EventKeepsInv(ranges, bandwidth, s);
    var r := Event(ranges, bandwidth, s);
    assert r == Respond(ranges, bandwidth, s);
    forall j | 0 <= j < |ranges|
      ensures !r.done[j] && PrefixRead(ranges[j], r, read, tail, j)
    {
      assert PrefixRead(ranges[j], s, read, tail, j);
    }
  }

  lemma PrefixTaken(ranges: seq<Range>, bandwidth: real, s: State, first: real, tail: real, read: real, k: nat)
    requires ValidInput(ranges, bandwidth) && Twins(ranges, first, tail) && PrefixesRead(ranges, s, read, tail)
    requires k < |ranges| && !s.tails[k] && (tail == 0.0 ==> Empty(s.waiting))
    ensures InFlight(s) && PrefixesRead(ranges, Event(ranges, bandwidth, s), read, tail)
  {
    assert PrefixRead(ranges[k], s, read, tail, k);
    var i := Earliest(s.receiving);
    assert PrefixRead(ranges[i], s, read, tail, i) && RangeInv(ranges, s, i) && ranges[i].Valid();
    assert ranges[k].Valid();
    EmptyBodyAt(bandwidth, s);
    if !Empty(s.waiting) {
      assert PrefixRead(ranges[Earliest(s.waiting)], s, read, tail, Earliest(s.waiting));
    }
    NothingMoves(s.receiving);
    EventKeepsInv(ranges, bandwidth, s);
    var r := Event(ranges, bandwidth, s);
    assert r == Deliver(ranges, bandwidth, s);
    forall j | 0 <= j < |ranges|
      ensures !r.done[j] && PrefixRead(ranges[j], r, read, tail, j)
    {
      assert PrefixRead(ranges[j], s, read, tail, j);
    }
  }

  /** All tails together, arrived or not. */
  lemma {:induction false} TailBytes(ranges: seq<Range>, s: State, read: real, tail: real, k: nat)
    requires PrefixesRead(ranges, s, read, tail) && k <= |ranges|
    requires forall i :: 0 <= i < |ranges| ==> s.tails[i] && ranges[i].split
    ensures Sum(s.receiving, k) + Bodies(ranges, s.waiting, k) == TotalBytes(ranges[..k]) - 8192.0 * (k as real)
  {
    if k > 0 {
      TailBytes(ranges, s, read, tail, k - 1);
      assert ranges[..k][..k - 1] == ranges[..k - 1];
      assert PrefixRead(ranges[k - 1], s, read, tail, k - 1) && RangeInv(ranges, s, k - 1);
      assert k as real == (k - 1) as real + 1.0;
    }
  }

  lemma TailsRun(ranges: seq<Range>, bandwidth: real, s: State, first: real, tail: real, read: real)
    requires ValidInput(ranges, bandwidth) && Twins(ranges, first, tail) && PrefixesRead(ranges, s, read, tail)
    requires forall i :: 0 <= i < |ranges| ==> s.tails[i]
    ensures Run(ranges, bandwidth, s)
         == read + tail + (TotalBytes(ranges) - 8192.0 * (|ranges| as real)) / bandwidth
  {
    hide Run, Drain;
    ClosedFormIsRun(ranges, bandwidth, s);
    TailBytes(ranges, s, read, tail, |ranges|);
    assert ranges[..|ranges|] == ranges;
    assert ranges[0].Valid() && PrefixRead(ranges[0], s, read, tail, 0);
    assert AllAt(s.waiting, read + tail) by {
      forall i | 0 <= i < |ranges| && s.waiting[i].At?
        ensures s.waiting[i].t == read + tail
      {
        assert PrefixRead(ranges[i], s, read, tail, i) && RangeInv(ranges, s, i);
      }
    }
    TailsDrain(ranges, bandwidth, s, tail, read);
  }

  lemma TailsDrain(ranges: seq<Range>, bandwidth: real, s: State, tail: real, read: real)
    requires ValidInput(ranges, bandwidth) && PrefixesRead(ranges, s, read, tail) && tail >= 0.0 && 0 < |ranges|
    requires AllAt(s.waiting, read + tail) && forall i :: 0 <= i < |ranges| ==> s.tails[i]
    ensures Drain(ranges, bandwidth, read + Total(s.receiving) / bandwidth, s.waiting)
         == read + tail + (Total(s.receiving) + Bodies(ranges, s.waiting, |ranges|)) / bandwidth
  {
    hide Drain, Bodies;
    DivideSum(Total(s.receiving), Bodies(ranges, s.waiting, |ranges|), bandwidth);
    assert PrefixRead(ranges[0], s, read, tail, 0);
    if Empty(s.waiting) {
      NoBodies(ranges, s.waiting, |ranges|);
      assert Drain(ranges, bandwidth, read + Total(s.receiving) / bandwidth, s.waiting)
          == read + Total(s.receiving) / bandwidth by {
        DrainNone(ranges, bandwidth, read + Total(s.receiving) / bandwidth, s.waiting);
      }
    } else {
      DrainAllAt(ranges, bandwidth, read + Total(s.receiving) / bandwidth, read + tail, s.waiting);
      if tail == 0.0 {
        NotNegative(ranges, s, |ranges|);
        DivideMonotone(0.0, Total(s.receiving), bandwidth);
      } else {
        forall i | 0 <= i < |ranges|
          ensures s.receiving[i].Never?
        {
          assert PrefixRead(ranges[i], s, read, tail, i) && RangeInv(ranges, s, i);
        }
        SizeEmpty(s.receiving);
      }
    }
  }

  lemma {:induction false} NotNegative(ranges: seq<Range>, s: State, k: nat)
    requires Inv(ranges, s) && k <= |ranges|
    ensures Sum(s.receiving, k) >= 0.0
  {
    if k > 0 {
      NotNegative(ranges, s, k - 1);
      assert RangeInv(ranges, s, k - 1);
    }
  }

  lemma DrainNone(ranges: seq<Range>, bandwidth: real, finish: real, waiting: seq<Time>)
    requires bandwidth > 0.0 && |waiting| == |ranges| && Empty(waiting)
    ensures Drain(ranges, bandwidth, finish, waiting) == finish
  {
  }

  lemma StepIsEvent(ranges: seq<Range>, bandwidth: real, s: State)
    requires ValidInput(ranges, bandwidth) && Inv(ranges, s) && InFlight(s) && !Finished(s) && Issue(ranges, s) == s
    ensures Step(ranges, bandwidth, s) == Event(ranges, bandwidth, s) && Inv(ranges, Event(ranges, bandwidth, s))
    ensures Run(ranges, bandwidth, s) == Run(ranges, bandwidth, Event(ranges, bandwidth, s))
    ensures Pending(ranges, Event(ranges, bandwidth, s), |ranges|) < Pending(ranges, s, |ranges|)
  {
    hide Event, Issue, RangeInv, Pending;
    StepUsesOne(ranges, bandwidth, s);
  }

  lemma {:induction false} PrefixesReadRun(ranges: seq<Range>, bandwidth: real, s: State, first: real, tail: real, read: real)
    requires ValidInput(ranges, bandwidth) && Twins(ranges, first, tail) && PrefixesRead(ranges, s, read, tail)
    ensures Run(ranges, bandwidth, s)
         == read + tail + (TotalBytes(ranges) - 8192.0 * (|ranges| as real)) / bandwidth
    decreases Pending(ranges, s, |ranges|)
  {
    hide Run, Event, Issue, RangeInv, Pending, TotalBytes, PrefixRead;
    if forall i :: 0 <= i < |ranges| ==> s.tails[i] {
      TailsRun(ranges, bandwidth, s, first, tail, read);
    } else {
      var k :| 0 <= k < |ranges| && !s.tails[k];
      NothingToIssue(ranges, s);
      if tail == 0.0 && !Empty(s.waiting) {
        TailStarts(ranges, bandwidth, s, first, tail, read);
      } else {
        PrefixTaken(ranges, bandwidth, s, first, tail, read, k);
      }
      StepIsEvent(ranges, bandwidth, s);
      PrefixesReadRun(ranges, bandwidth, Event(ranges, bandwidth, s), first, tail, read);
    }
  }

  lemma {:induction false} PrefixesRun(ranges: seq<Range>, bandwidth: real, s: State, first: real, tail: real, read: real)
    requires ValidInput(ranges, bandwidth) && Twins(ranges, first, tail) && Prefixes(ranges, s, first)
    requires read == first + 8192.0 * (|ranges| as real) / bandwidth
    ensures Run(ranges, bandwidth, s)
         == read + tail + (TotalBytes(ranges) - 8192.0 * (|ranges| as real)) / bandwidth
    decreases Pending(ranges, s, |ranges|)
  {
    hide Run, Event, Issue, RangeInv, Pending, TotalBytes;
    NothingToIssue(ranges, s);
    if Empty(s.waiting) {
      PrefixesEnd(ranges, bandwidth, s, first, tail, read);
      StepIsEvent(ranges, bandwidth, s);
      PrefixesReadRun(ranges, bandwidth, Event(ranges, bandwidth, s), first, tail, read);
    } else {
      PrefixArrives(ranges, bandwidth, s, first, tail);
      StepIsEvent(ranges, bandwidth, s);
      PrefixesRun(ranges, bandwidth, Event(ranges, bandwidth, s), first, tail, read);
    }
  }

  /**
   * Up to 32 split requests with the same delays read their prefixes side by side and then their tails:
   * splitting all of them costs exactly one more delay, whatever their sizes.
   */
  lemma SplitsPayTwice(ranges: seq<Range>, bandwidth: real, first: real, tail: real)
    requires ValidInput(ranges, bandwidth) && Twins(ranges, first, tail)
    ensures Elapsed(ranges, bandwidth) == first + tail + TotalBytes(ranges) / bandwidth
  {
    hide Run, Respond, TotalBytes, Elapsed;
    var t := AllSent(ranges);
    FirstStep(ranges, bandwidth);
    assert Prefixes(ranges, t, first) by { AllSentArePrefixes(ranges, bandwidth, first, tail); }
    PrefixArrives(ranges, bandwidth, t, first, tail);
    assert Event(ranges, bandwidth, t) == Respond(ranges, bandwidth, t);
    var prefixes := 8192.0 * (|ranges| as real);
    PrefixesRun(ranges, bandwidth, Respond(ranges, bandwidth, t), first, tail, first + prefixes / bandwidth);
    DivideSum(prefixes, TotalBytes(ranges) - prefixes, bandwidth);
  }

  lemma AllSentArePrefixes(ranges: seq<Range>, bandwidth: real, first: real, tail: real)
    requires ValidInput(ranges, bandwidth) && Twins(ranges, first, tail) && Inv(ranges, AllSent(ranges))
    ensures Prefixes(ranges, AllSent(ranges), first)
  {
    assert ranges[0].Valid();
  }
}
