/**
 * The request simulator itself: one pass over events held in two 32-slot rings, a cumulative
 * service clock, and a closed form in place of the remaining events.
 */
module Simulation {
  import opened EqualShare
  import opened EqualShareTheorems
  import opened Numbers
  import opened Sets
  import opened Slots
  import Sorting
  import opened Times

  // ---------------------------------------------------------------- counters

  ghost function Trues(flags: seq<bool>, k: nat): nat
    requires k <= |flags|
  {
    if k == 0 then 0 else Trues(flags, k - 1) + (if flags[k - 1] then 1 else 0)
  }

  lemma {:induction false} TruesSet(flags: seq<bool>, i: nat, k: nat)
    requires k <= |flags| && i < |flags| && !flags[i]
    ensures Trues(flags[i := true], k) == Trues(flags, k) + (if i < k then 1 else 0)
  {
    if k > 0 { TruesSet(flags, i, k - 1); }
  }

  lemma {:induction false} TruesAll(flags: seq<bool>, k: nat)
    requires k <= |flags|
    ensures Trues(flags, k) <= k
    ensures Trues(flags, k) == k <==> forall i :: 0 <= i < k ==> flags[i]
  {
    if k > 0 { TruesAll(flags, k - 1); }
  }

  /** Split ranges among the first `k` whose prefix has not been delivered. */
  ghost function PrefixesLeft(ranges: seq<Range>, tails: seq<bool>, k: nat): nat
    requires k <= |ranges| == |tails|
  {
    if k == 0 then 0
    else PrefixesLeft(ranges, tails, k - 1) + (if ranges[k - 1].split && !tails[k - 1] then 1 else 0)
  }

  lemma {:induction false} PrefixDelivered(ranges: seq<Range>, tails: seq<bool>, i: nat, k: nat)
    requires k <= |ranges| == |tails| && i < |ranges| && ranges[i].split && !tails[i]
    ensures PrefixesLeft(ranges, tails[i := true], k) + (if i < k then 1 else 0) == PrefixesLeft(ranges, tails, k)
  {
    if k > 0 { PrefixDelivered(ranges, tails, i, k - 1); }
  }

  lemma {:induction false} NoPrefixLeft(ranges: seq<Range>, tails: seq<bool>, k: nat)
    requires k <= |ranges| == |tails|
    ensures PrefixesLeft(ranges, tails, k) == 0
       <==> forall i :: 0 <= i < k && ranges[i].split ==> tails[i]
  {
    if k > 0 { NoPrefixLeft(ranges, tails, k - 1); }
  }

  lemma {:induction false} InitCounters(ranges: seq<Range>, k: nat)
    requires k <= |ranges|
    ensures Trues(seq(|ranges|, _ => false), k) == 0
    ensures PrefixesLeft(ranges, seq(|ranges|, _ => false), k) == |SplitRanges(ranges[..k])|
  {
    if k > 0 {
      InitCounters(ranges, k - 1);
      assert ranges[..k][..k - 1] == ranges[..k - 1];
    }
  }

  function SplitRanges(ranges: seq<Range>): seq<Range> {
    if ranges == [] then []
    else
      var last := |ranges| - 1;
      SplitRanges(ranges[..last]) + (if ranges[last].split then [ranges[last]] else [])
  }

  /** The mask has one bit per held event. */
  lemma {:induction false} MaskSize(mask: set<int>, owner: seq<nat>, contents: seq<Time>)
    requires forall s :: s in mask ==>
               0 <= s < |owner| && owner[s] < |contents| && owner[s] % SLOTS == s && contents[owner[s]].At?
    requires forall i :: 0 <= i < |contents| && contents[i].At? ==>
               i % SLOTS < |owner| && i % SLOTS in mask && owner[i % SLOTS] == i
    ensures |mask| == Size(contents)
    decreases mask
  {
    if mask == {} {
      SizeEmpty(contents);
    } else {
      SomeMember(mask);
      var s :| s in mask;
      var without := contents[owner[s] := Never];
      SumSet(contents, owner[s], Never, |contents|);
      MaskSize(mask - {s}, owner, without);
    }
  }

  lemma {:induction false} CountMoved(a: seq<Time>, b: seq<Time>, k: nat)
    requires k <= |a| == |b|
    requires forall i :: 0 <= i < k ==> (a[i].At? <==> b[i].At?)
    ensures Count(a, k) == Count(b, k)
  {
    if k > 0 { CountMoved(a, b, k - 1); }
  }

  lemma SlotIsFree(slots: EventSlots, front: nat, index: nat)
    requires slots.Valid() && slots.Within(front)
    requires front <= index < front + SLOTS && index < |slots.Contents| && slots.Contents[index].Never?
    ensures index % SLOTS !in slots.mask
  {
    if index % SLOTS in slots.mask {
      assert slots.SlotValid(index % SLOTS);
      IndexAtSlot(index, front);
      IndexAtSlot(slots.owner[index % SLOTS], front);
    }
  }

  // ---------------------------------------------------------------- arrivals

  datatype Arrival = Arrival(at: real, index: nat, tail: bool)

  /** Arrivals by time, then range, then kind. */
  predicate ArrivesBefore(a: Arrival, b: Arrival) {
    a.at < b.at || (a.at == b.at && (a.index < b.index || (a.index == b.index && (!a.tail || b.tail))))
  }

  /** `arrivals` holds exactly the times of `waiting`, each once. */
  ghost predicate Lists(arrivals: seq<Arrival>, waiting: seq<Time>) {
    && (forall k :: 0 <= k < |arrivals| ==>
          arrivals[k].index < |waiting| && waiting[arrivals[k].index] == At(arrivals[k].at))
    && (forall i :: 0 <= i < |waiting| && waiting[i].At? ==> exists k :: 0 <= k < |arrivals| && arrivals[k].index == i)
    && (forall j, k :: 0 <= j < k < |arrivals| ==> arrivals[j].index != arrivals[k].index)
  }

  lemma ListsOneMore(arrivals: seq<Arrival>, waiting: seq<Time>, a: Arrival)
    requires Lists(arrivals, waiting) && a.index < |waiting| && waiting[a.index].Never?
    ensures Lists(arrivals + [a], waiting[a.index := At(a.at)])
  {
    var more := arrivals + [a];
    var after := waiting[a.index := At(a.at)];
    forall i | 0 <= i < |waiting| && after[i].At?
      ensures exists k :: 0 <= k < |more| && more[k].index == i
    {
      if i == a.index {
        assert more[|arrivals|].index == i;
      } else {
        var k :| 0 <= k < |arrivals| && arrivals[k].index == i;
        assert more[k].index == i;
      }
    }
  }

  lemma ListsReordered(arrivals: seq<Arrival>, sorted: seq<Arrival>, waiting: seq<Time>)
    requires Lists(arrivals, waiting) && multiset(arrivals) == multiset(sorted)
    ensures Lists(sorted, waiting)
  {
    Sorting.SameElements(arrivals, sorted);
    Sorting.SortKeepsDistinct(arrivals, sorted);
    forall k | 0 <= k < |sorted|
      ensures sorted[k].index < |waiting| && waiting[sorted[k].index] == At(sorted[k].at)
    {
      assert sorted[k] in arrivals;
    }
    forall i | 0 <= i < |waiting| && waiting[i].At?
      ensures exists k :: 0 <= k < |sorted| && sorted[k].index == i
    {
      var k :| 0 <= k < |arrivals| && arrivals[k].index == i;
      assert arrivals[k] in sorted;
    }
    forall j, k | 0 <= j < k < |sorted|
      ensures sorted[j].index != sorted[k].index
    {
      assert sorted[j] in arrivals && sorted[k] in arrivals;
    }
  }

  lemma FirstIsEarliest(arrivals: seq<Arrival>, waiting: seq<Time>)
    requires Lists(arrivals, waiting) && Sorting.SortedBy(arrivals, ArrivesBefore) && arrivals != []
    ensures !Empty(waiting) && Earliest(waiting) == arrivals[0].index
    ensures waiting[Earliest(waiting)] == At(arrivals[0].at)
  {
    var first := arrivals[0];
    assert waiting[first.index].At?;
    forall j | 0 <= j < |waiting| && waiting[j].At?
      ensures first.at < waiting[j].t || (first.at == waiting[j].t && first.index <= j)
    {
      var k :| 0 <= k < |arrivals| && arrivals[k].index == j;
      assert k > 0 ==> ArrivesBefore(first, arrivals[k]);
    }
    EarliestUnique(waiting, first.index, Earliest(waiting));
  }

  lemma RestListed(arrivals: seq<Arrival>, waiting: seq<Time>)
    requires Lists(arrivals, waiting) && arrivals != []
    ensures Lists(arrivals[1..], waiting[arrivals[0].index := Never])
  {
    var after, rest := waiting[arrivals[0].index := Never], arrivals[1..];
    forall i | 0 <= i < |waiting| && after[i].At?
      ensures exists k :: 0 <= k < |rest| && rest[k].index == i
    {
      var k :| 0 <= k < |arrivals| && arrivals[k].index == i;
      assert rest[k - 1].index == i;
    }
  }

  lemma RestSorted(arrivals: seq<Arrival>)
    requires Sorting.SortedBy(arrivals, ArrivesBefore) && arrivals != []
    ensures Sorting.SortedBy(arrivals[1..], ArrivesBefore)
  {
  }

  /** Bytes of the responses still to arrive once every prefix has been delivered. */
  ghost function WaitingBytes(ranges: seq<Range>, waiting: seq<Time>, k: nat): real
    requires k <= |ranges| == |waiting|
  {
    if k == 0 then 0.0
    else WaitingBytes(ranges, waiting, k - 1)
         + (if waiting[k - 1].At? then ranges[k - 1].Body(ranges[k - 1].split) else 0.0)
  }

  lemma {:induction false} WaitingBytesWithout(ranges: seq<Range>, waiting: seq<Time>, i: nat, k: nat)
    requires k <= |ranges| == |waiting| && i < |waiting| && waiting[i].At?
    ensures WaitingBytes(ranges, waiting, k)
         == WaitingBytes(ranges, waiting[i := Never], k) + (if i < k then ranges[i].Body(ranges[i].split) else 0.0)
  {
    if k > 0 { WaitingBytesWithout(ranges, waiting, i, k - 1); }
  }

  lemma {:induction false} NothingWaiting(ranges: seq<Range>, waiting: seq<Time>, k: nat)
    requires k <= |ranges| == |waiting| && Empty(waiting)
    ensures WaitingBytes(ranges, waiting, k) == 0.0
  {
    if k > 0 { NothingWaiting(ranges, waiting, k - 1); }
  }

  /** Once settled, the only bytes no response has started are those of outstanding responses. */
  lemma {:induction false} SettledUnstarted(ranges: seq<Range>, s: State, k: nat)
    requires Inv(ranges, s) && Settled(ranges, s) && k <= |ranges|
    ensures UnstartedBytes(ranges, s, k) == WaitingBytes(ranges, s.waiting, k)
  {
    if k > 0 {
      SettledUnstarted(ranges, s, k - 1);
      assert RangeInv(ranges, s, k - 1);
    }
  }

  lemma DrainNothing(ranges: seq<Range>, bandwidth: real, finish: real, waiting: seq<Time>)
    requires bandwidth > 0.0 && |waiting| == |ranges| && Lists([], waiting)
    ensures Drain(ranges, bandwidth, finish, waiting) == finish
    ensures WaitingBytes(ranges, waiting, |ranges|) == 0.0
  {
    NothingWaiting(ranges, waiting, |ranges|);
  }

  lemma DrainFirst(ranges: seq<Range>, bandwidth: real, arrivals: seq<Arrival>, finish: real, waiting: seq<Time>)
    requires bandwidth > 0.0 && |waiting| == |ranges| && Lists(arrivals, waiting) && arrivals != []
    requires Sorting.SortedBy(arrivals, ArrivesBefore)
    ensures var a := arrivals[0];
            a.index < |ranges| &&
            var after := waiting[a.index := Never];
            var body := ranges[a.index].Body(ranges[a.index].split);
            && Lists(arrivals[1..], after) && Sorting.SortedBy(arrivals[1..], ArrivesBefore)
            && Drain(ranges, bandwidth, finish, waiting)
               == Drain(ranges, bandwidth, Later(finish, a.at) + body / bandwidth, after)
            && WaitingBytes(ranges, waiting, |ranges|) == WaitingBytes(ranges, after, |ranges|) + body
  {
    hide Lists, Sorting.SortedBy, Later, WaitingBytes, Range.Body;
    FirstIsEarliest(arrivals, waiting);
    RestListed(arrivals, waiting);
    RestSorted(arrivals);
    WaitingBytesWithout(ranges, waiting, arrivals[0].index, |ranges|);
  }

  /** The recurrence over sorted arrivals, starting from a link that is free at `free`. */
  method DrainArrivals(ranges: seq<Range>, bandwidth: real, arrivals: seq<Arrival>, free: real, ghost waiting: seq<Time>)
    returns (finish: real, bytes: real)
    requires bandwidth > 0.0 && |waiting| == |ranges| && Lists(arrivals, waiting)
    requires Sorting.SortedBy(arrivals, ArrivesBefore)
    requires forall a :: a in arrivals ==> a.index < |ranges| && a.tail == ranges[a.index].split
    ensures finish == Drain(ranges, bandwidth, free, waiting)
    ensures bytes == WaitingBytes(ranges, waiting, |ranges|)
  {
    hide Drain, WaitingBytes, Lists, Sorting.SortedBy;
    finish, bytes := free, 0.0;
    ghost var rest := waiting;
    for k := 0 to |arrivals|
      invariant |rest| == |ranges| && Lists(arrivals[k..], rest) && Sorting.SortedBy(arrivals[k..], ArrivesBefore)
      invariant Drain(ranges, bandwidth, finish, rest) == Drain(ranges, bandwidth, free, waiting)
      invariant bytes + WaitingBytes(ranges, rest, |ranges|) == WaitingBytes(ranges, waiting, |ranges|)
    {
      var a := arrivals[k];
      DrainFirst(ranges, bandwidth, arrivals[k..], finish, rest);
      assert arrivals[k..][1..] == arrivals[k + 1..];
      var body := ranges[a.index].bytes - (if a.tail then PREFIX_BYTES else 0.0);
      finish := Later(finish, a.at) + body / bandwidth;
      bytes := bytes + body;
      rest := rest[a.index := Never];
    }
    assert arrivals[|arrivals|..] == [];
    DrainNothing(ranges, bandwidth, finish, rest);
  }

  method SortArrivals(arrivals: seq<Arrival>) returns (sorted: seq<Arrival>)
    ensures multiset(sorted) == multiset(arrivals)
    ensures Sorting.SortedBy(sorted, ArrivesBefore)
  {
    sorted := Sorting.Sort(arrivals, ArrivesBefore);
  }

  // ---------------------------------------------------------------- facts used by the loop

  lemma {:induction false} DrainNotBefore(ranges: seq<Range>, bandwidth: real, finish: real, waiting: seq<Time>)
    requires ValidInput(ranges, bandwidth) && |waiting| == |ranges|
    ensures Drain(ranges, bandwidth, finish, waiting) >= finish
    decreases Size(waiting)
  {
    if !Empty(waiting) {
      var i := Earliest(waiting);
      SumSet(waiting, i, Never, |waiting|);
      var body := ranges[i].Body(ranges[i].split);
      DivideMonotone(0.0, body, bandwidth);
      DrainNotBefore(ranges, bandwidth, Later(finish, waiting[i].t) + body / bandwidth, waiting[i := Never]);
    }
  }

  lemma {:induction false} NonNegativeSum(ranges: seq<Range>, s: State, k: nat)
    requires Inv(ranges, s) && k <= |ranges|
    ensures Sum(s.receiving, k) >= 0.0
  {
    if k > 0 {
      NonNegativeSum(ranges, s, k - 1);
      assert RangeInv(ranges, s, k - 1);
    }
  }

  lemma ClosedFormNotBefore(ranges: seq<Range>, bandwidth: real, s: State)
    requires ValidInput(ranges, bandwidth) && Inv(ranges, s)
    ensures ClosedForm(ranges, bandwidth, s) >= s.now
  {
    NonNegativeSum(ranges, s, |ranges|);
    DivideMonotone(0.0, Total(s.receiving), bandwidth);
    DrainNotBefore(ranges, bandwidth, s.now + Total(s.receiving) / bandwidth, s.waiting);
  }

  /** Issuing again sends nothing more. */
  lemma IssueTwice(ranges: seq<Range>, bandwidth: real, s: State)
    requires ValidInput(ranges, bandwidth) && Inv(ranges, s)
    ensures Inv(ranges, Issue(ranges, s)) && Issue(ranges, Issue(ranges, s)) == Issue(ranges, s)
  {
    IssueKeepsInv(ranges, bandwidth, s);
    var r := Issue(ranges, s);
    if r.front < |ranges| {
      assert RangeInv(ranges, s, r.front);
    }
  }

  lemma RunAfterIssue(ranges: seq<Range>, bandwidth: real, s: State)
    requires ValidInput(ranges, bandwidth) && Inv(ranges, s) && !Finished(s)
    ensures Inv(ranges, Issue(ranges, s))
    ensures Run(ranges, bandwidth, Issue(ranges, s)) == Run(ranges, bandwidth, s)
  {
    IssueTwice(ranges, bandwidth, s);
    assert Step(ranges, bandwidth, Issue(ranges, s)) == Step(ranges, bandwidth, s);
  }

  /** Leaving early from the issued state gives the time of the whole simulation. */
  lemma EarlyFinish(ranges: seq<Range>, bandwidth: real, s: State, k: nat)
    requires ValidInput(ranges, bandwidth) && s == After(ranges, bandwidth, k) && !Finished(s)
    requires Sized(|ranges|, Issue(ranges, s)) && Settled(ranges, Issue(ranges, s))
    ensures var r := Issue(ranges, s);
            && ClosedForm(ranges, bandwidth, r) == Elapsed(ranges, bandwidth)
            && ClosedForm(ranges, bandwidth, r) >= r.now
            && AllBytes(ranges, bandwidth, r) == TotalBytes(ranges)
    ensures Elapsed(ranges, bandwidth) >= TotalBytes(ranges) / bandwidth
  {
    RunAfterIssue(ranges, bandwidth, s);
    ClosedFormIsRun(ranges, bandwidth, Issue(ranges, s));
    ClosedFormNotBefore(ranges, bandwidth, Issue(ranges, s));
    RunIsAfter(ranges, bandwidth, k);
    BytesConserved(ranges, bandwidth, k);
    IssueConserves(ranges, bandwidth, s);
    ElapsedAtLeastTransfer(ranges, bandwidth);
  }

  lemma Unfinished(ranges: seq<Range>, bandwidth: real, s: State, k: nat)
    requires ValidInput(ranges, bandwidth) && s == After(ranges, bandwidth, k)
    requires Trues(s.done, |ranges|) < |ranges|
    ensures !Finished(s) && k < 4 * |ranges|
  {
    TruesAll(s.done, |ranges|);
    EventsUsed(ranges, bandwidth, k);
  }

  lemma AfterNothing(ranges: seq<Range>, bandwidth: real)
    requires ValidInput(ranges, bandwidth)
    ensures After(ranges, bandwidth, 0) == Init(|ranges|)
  {
  }

  lemma NextState(ranges: seq<Range>, bandwidth: real, s: State, t: State, k: nat)
    requires ValidInput(ranges, bandwidth) && s == After(ranges, bandwidth, k) && !Finished(s)
    requires t == Issue(ranges, s)
    ensures Inv(ranges, t) && InFlight(t)
    ensures After(ranges, bandwidth, k + 1) == Event(ranges, bandwidth, t)
  {
    SomethingInFlight(ranges, bandwidth, s);
    IssueKeepsInv(ranges, bandwidth, s);
  }

  /** The loop variables of the simulator. */
  class Simulator {
    const ranges: seq<Range>
    const bandwidth: real
    const waiting: EventSlots
    const receiving: EventSlots
    const done: array<bool>
    var tails: set<int>
    var prefixesLeft: int
    var front: nat
    var next: nat
    var completed: nat
    var events: nat
    var now: real
    var service: real
    var busyTime: real
    /** The reference state these variables represent. */
    ghost var s: State

    ghost predicate Valid()
      reads `s, `now, `busyTime, `front, `next, `service, `tails, `completed, `prefixesLeft
      reads done, waiting, waiting.values, receiving, receiving.values
    {
      Input() && Inv(ranges, s) && Linked()
    }

    /** The loop variables represent `s`. */
    ghost predicate Linked()
      requires Sized(|ranges|, s) && |ranges| <= done.Length
      reads `s, `now, `busyTime, `front, `next, `service, `tails, `completed, `prefixesLeft
      reads done, waiting, waiting.values, receiving, receiving.values
    {
      && waiting != receiving && waiting.values != receiving.values
      && Clock() && Rings() && Counters()
      && waiting.Valid() && receiving.Valid()
    }

    ghost predicate Input() {
      && ValidInput(ranges, bandwidth) && |ranges| <= MAX_RANGES == done.Length
    }

    ghost predicate Clock()
      reads `s, `now, `busyTime, `front, `next, `service
    {
      && s.now == now && s.busy == busyTime && s.front == front && s.next == next
      && service >= 0.0
    }

    ghost predicate Rings()
      requires Sized(|ranges|, s)
      reads `s, `service, `tails, waiting, receiving
    {
      && waiting.Contents == s.waiting
      && Keyed(receiving.Contents, s.receiving, service)
      && TailBits(s.front, s.next, s.done, s.tails, tails)
    }

    ghost predicate Counters()
      requires Sized(|ranges|, s) && |ranges| <= done.Length
      reads `s, `completed, `prefixesLeft, done
    {
      && (forall i :: 0 <= i < |ranges| ==> done[i] == s.done[i])
      && completed == Trues(s.done, |ranges|)
      && prefixesLeft == PrefixesLeft(ranges, s.tails, |ranges|)
    }

    constructor (ranges: seq<Range>, bandwidth: real)
      requires ValidInput(ranges, bandwidth) && |ranges| <= MAX_RANGES
      ensures this.ranges == ranges && this.bandwidth == bandwidth
      ensures Valid() && s == Init(|ranges|) && events == 0
      ensures fresh(waiting) && fresh(waiting.values) && fresh(receiving) && fresh(receiving.values) && fresh(done)
    {
      this.ranges := ranges;
      this.bandwidth := bandwidth;
      waiting := new EventSlots(|ranges|);
      receiving := new EventSlots(|ranges|);
      done := new bool[MAX_RANGES](_ => false);
      tails := {};
      prefixesLeft := |SplitRanges(ranges)|;
      front, next, completed, events := 0, 0, 0, 0;
      now, service, busyTime := 0.0, 0.0, 0.0;
      s := Init(|ranges|);
      new;
      InitInv(ranges);
      InitCounters(ranges, |ranges|);
      assert ranges[..|ranges|] == ranges;
    }

    lemma WindowsHold()
      requires Valid()
      ensures waiting.Within(front) && receiving.Within(front)
    {
      forall i | 0 <= i < |ranges|
        ensures s.waiting[i].At? || s.receiving[i].At? ==> front <= i < front + SLOTS
      {
        assert RangeInv(ranges, s, i);
      }
    }

    method SkipDone()
      requires Valid()
      modifies `front, `s
      ensures Valid()
      ensures s == old(s).(front := AdvanceFront(old(s).front, old(s).next, old(s).done))
    {
      hide EventSlots.Valid;
      while front < next && done[front]
        invariant s == old(s) && s.front <= front <= next
        invariant forall i :: s.front <= i < front ==> s.done[i]
        invariant AdvanceFront(front, next, s.done) == AdvanceFront(s.front, next, s.done)
      {
        front := front + 1;
      }
      FrontKeepsInv(ranges, s, front);
      s := s.(front := front);
    }

    /** Advances past completed ranges and sends what the window admits. */
    method Issue()
      requires Valid()
      modifies this`front, this`next, this`tails, this`s, waiting, waiting.values
      ensures Valid() && s == EqualShare.Issue(ranges, old(s))
    {
      hide EventSlots.Valid, Linked, RangeInv;
      SkipDone();
      IssueRequests();
    }

    method IssueRequests()
      requires Valid()
      modifies this`next, this`tails, this`s, waiting, waiting.values
      ensures Valid()
      ensures var next' := Min(|ranges|, old(s).front + WINDOW);
              old(s).next <= next' &&
              s == old(s).(next := next', waiting := Sent(ranges, old(s).waiting, old(s).now, old(s).next, next'))
    {
      hide EventSlots.Valid;
      ghost var first := s;
      while next < Min(|ranges|, front + WINDOW)
        invariant Valid()
        invariant first.next <= next <= Min(|ranges|, front + WINDOW)
        invariant s == first.(next := next, waiting := Sent(ranges, first.waiting, first.now, first.next, next))
      {
        Send();
      }
    }

    method Send()
      requires Valid() && next < Min(|ranges|, front + WINDOW)
      modifies this`next, this`tails, this`s, waiting, waiting.values
      ensures Valid()
      ensures next == old(next) + 1
      ensures s == WithSent(ranges, old(s))
    {
      assert RangeInv(ranges, s, next);
      WindowsHold();
      SlotIsFree(waiting, front, next);
      SlotIsFree(receiving, front, next);
      assert next % SLOTS !in waiting.mask + receiving.mask;
      SendKeepsInv(ranges, bandwidth, s);
      SendKeepsTailBits(ranges, s, tails);
      s := WithSent(ranges, s);
      waiting.Push(now + ranges[next].firstDelay, next);
      tails := tails - {next % SLOTS};
      next := next + 1;
    }

    /** The clock reaches the next response; every body gets its share meanwhile. */
    method Serve(at: real)
      modifies `now, `busyTime, `service
      ensures now == at
      ensures busyTime == if |receiving.mask| == 0 then old(busyTime) else old(busyTime) + (at - old(now))
      ensures service == old(service) + Share(bandwidth, |receiving.mask|, at - old(now))
    {
      if |receiving.mask| != 0 {
        busyTime := busyTime + (at - now);
        service := service + (at - now) * bandwidth / (|receiving.mask| as real);
      }
      now := at;
    }

    /** The response of range `index` arrives at `at`, which takes the reference state to `r`. */
    method ReceiveResponse(at: real, index: nat, ghost r: State, ghost share: real)
      requires Sized(|ranges|, s) && |ranges| <= done.Length && Linked()
      requires index < |ranges| && s.waiting[index] == At(at)
      requires index % SLOTS !in receiving.mask && (index % SLOTS in tails <==> s.tails[index])
      requires |receiving.mask| == Size(s.receiving) && (Size(s.receiving) == 0 <==> Empty(s.receiving))
      requires ranges[index].Valid() && (s.tails[index] ==> ranges[index].split)
      requires share == Share(bandwidth, Size(s.receiving), at - now)
      requires Responded(ranges, s, r, index, receiving.Contents, service, share)
      modifies this`now, this`busyTime, this`service, this`s
      modifies waiting, waiting.values, receiving, receiving.values
      ensures s == r && Linked()
    {
      hide EventSlots.Valid;
      var range := ranges[index];
      var bytes := if index % SLOTS in tails then range.bytes - PREFIX_BYTES
                   else if range.split then PREFIX_BYTES else range.bytes;
      Serve(at);
      s := r;
      waiting.Take(index);
      receiving.Push(service + bytes, index);
    }

    /** The clocks reach the end of the body of range `index`, which leaves its slot. */
    method EndBody(at: real, key: real, index: nat)
      requires receiving.Valid() && index < |receiving.Contents| && receiving.Contents[index].At?
      modifies this`now, this`busyTime, this`service, receiving, receiving.values
      ensures receiving.Valid() && receiving.Contents == old(receiving.Contents)[index := Never]
      ensures now == at && busyTime == old(busyTime) + (at - old(now))
      ensures service == if old(service) >= key then old(service) else key
    {
      busyTime := busyTime + (at - now);
      now := at;
      service := if service >= key then service else key;
      receiving.Take(index);
    }

    /** A prefix completes at `at`, when the service clock shows `key`; the tail is requested. */
    method CompletePrefix(at: real, key: real, index: nat, ghost r: State)
      requires Sized(|ranges|, s) && |ranges| <= done.Length && Linked()
      requires index < |ranges| && receiving.Contents[index] == At(key) && key >= service
      requires index % SLOTS !in waiting.mask && (index % SLOTS in tails <==> s.tails[index])
      requires ranges[index].Valid() && at >= now >= 0.0
      requires ranges[index].split && !s.tails[index] && front <= index < next <= front + SLOTS
      requires Delivered(ranges, s, r, index, at, receiving.Contents, key)
      modifies this`now, this`busyTime, this`service, this`s, this`tails, this`prefixesLeft
      modifies waiting, waiting.values, receiving, receiving.values
      ensures s == r && Linked()
    {
      hide EventSlots.Valid, TailBits, Trues, PrefixesLeft;
      EndBody(at, key, index);
      PrefixDelivered(ranges, s.tails, index, |ranges|);
      TailBitSet(s, tails, index);
      s := r;
      prefixesLeft := prefixesLeft - 1;
      waiting.Push(now + ranges[index].tailDelay, index);
      tails := tails + {index % SLOTS};
    }

    /** The last body of a range completes at `at`, when the service clock shows `key`. */
    method CompleteRange(at: real, key: real, index: nat, ghost r: State)
      requires Sized(|ranges|, s) && |ranges| <= done.Length && Linked()
      requires index < |ranges| && receiving.Contents[index] == At(key) && key >= service
      requires index % SLOTS !in waiting.mask && (index % SLOTS in tails <==> s.tails[index])
      requires ranges[index].Valid() && at >= now >= 0.0
      requires !(ranges[index].split && !s.tails[index]) && !s.done[index]
      requires Delivered(ranges, s, r, index, at, receiving.Contents, key)
      modifies this`now, this`busyTime, this`service, this`s, this`completed, done
      modifies receiving, receiving.values
      ensures s == r && Linked()
    {
      hide EventSlots.Valid;
      EndBody(at, key, index);
      assert !done[index];
      TruesSet(s.done, index, |ranges|);
      s := r;
      done[index] := true;
      completed := completed + 1;
    }

    /** One event: the earliest response, or the earliest body when that comes first. */
    method NextEvent()
      requires Valid() && InFlight(s)
      modifies this`now, this`busyTime, this`service, this`s, this`tails, this`prefixesLeft, this`completed, this`events
      modifies done, waiting, waiting.values, receiving, receiving.values
      ensures Valid() && s == Event(ranges, bandwidth, old(s))
      ensures events == old(events) + 1
    {
      hide EventSlots.Valid, Linked, Inv, Input;
      WindowsHold();
      var response, waitingIndex := PeekResponse();
      var body, bodyIndex := PeekBody();
      var bodyAt := BodyTime(body);
      assert response.At? || bodyAt.At?;
      if Leq(response, bodyAt) {
        OnResponse(response.t, waitingIndex);
      } else {
        OnBody(bodyAt.t, body.t, bodyIndex);
      }
      events := events + 1;
    }

    method BodyTime(key: Time) returns (at: Time)
      requires Valid()
      requires !Empty(s.receiving) ==> key == Moved(s.receiving[Earliest(s.receiving)], service)
      ensures at == if Empty(s.receiving) then Never else At(BodyAt(bandwidth, s))
    {
      hide EventSlots.Valid;
      ReceivingSize();
      var count := |receiving.mask|;
      if !Empty(s.receiving) {
        assert RangeInv(ranges, s, Earliest(s.receiving));
      }
      at := if count == 0 then Never
            else At(now + Later(key.t - service, 0.0) * (count as real) / bandwidth);
    }

    method OnResponse(at: real, index: nat)
      requires Valid() && ResponseIsNext(bandwidth, s)
      requires index == Earliest(s.waiting) && at == s.waiting[index].t
      modifies this`now, this`busyTime, this`service, this`s
      modifies waiting, waiting.values, receiving, receiving.values
      ensures Valid() && s == Respond(ranges, bandwidth, old(s))
    {
      hide EventSlots.Valid;
      RangeOf(index);
      ReceivingSize();
      RespondKeepsInv(ranges, bandwidth, s);
      assert at >= now;
      ghost var share := Share(bandwidth, Size(s.receiving), at - now);
      RespondEffect(ranges, bandwidth, s, receiving.Contents, service, share);
      ReceiveResponse(at, index, Respond(ranges, bandwidth, s), share);
    }

    method OnBody(at: real, key: real, index: nat)
      requires Valid() && !Empty(s.receiving) && !ResponseIsNext(bandwidth, s)
      requires index == Earliest(s.receiving) && key == service + s.receiving[index].t
      requires at == BodyAt(bandwidth, s)
      modifies this`now, this`busyTime, this`service, this`s, this`tails, this`prefixesLeft, this`completed
      modifies done, waiting, waiting.values, receiving, receiving.values
      ensures Valid() && s == Deliver(ranges, bandwidth, old(s))
    {
      hide EventSlots.Valid;
      RangeOf(index);
      DeliverKeepsInv(ranges, bandwidth, s);
      BodyAtNotBefore(ranges, bandwidth, s);
      DeliverEffect(ranges, bandwidth, s, receiving.Contents, service);
      assert at >= now;
      if ranges[index].split && index % SLOTS !in tails {
        CompletePrefix(at, key, index, Deliver(ranges, bandwidth, s));
      } else {
        CompleteRange(at, key, index, Deliver(ranges, bandwidth, s));
      }
    }

    method PeekResponse() returns (at: Time, index: nat)
      requires Valid() && waiting.Within(front)
      modifies waiting`best
      ensures Valid()
      ensures Empty(s.waiting) ==> at == Never
      ensures !Empty(s.waiting) ==> index == Earliest(s.waiting) && at == s.waiting[index]
    {
      hide EventSlots.Valid;
      var known := waiting.Peek(front);
      at, index := known.0, known.1;
    }

    method PeekBody() returns (key: Time, index: nat)
      requires Valid() && receiving.Within(front)
      modifies receiving`best
      ensures Valid()
      ensures Empty(s.receiving) ==> key == Never
      ensures !Empty(s.receiving) ==>
                index == Earliest(s.receiving) && key == receiving.Contents[index] == Moved(s.receiving[index], service)
    {
      hide EventSlots.Valid;
      var known := receiving.Peek(front);
      key, index := known.0, known.1;
      KeyedEarliest(receiving.Contents, s.receiving, service);
    }

    /** The bytes all bodies still lack, summed slot by slot. */
    method ReceivingBytes() returns (bytes: real)
      requires Valid()
      ensures bytes == Total(s.receiving)
    {
      var mask := receiving.mask;
      bytes := 0.0;
      ghost var rest := s.receiving;
      assert forall i :: 0 <= i < |rest| ==> (receiving.Contents[i].At? <==> rest[i].At?);
      while mask != {}
        invariant mask <= receiving.mask && |rest| == |ranges|
        invariant forall i :: 0 <= i < |rest| ==> rest[i] == if i % SLOTS in mask then s.receiving[i] else Never
        invariant bytes + Total(rest) == Total(s.receiving)
        decreases mask
      {
        SomeMember(mask);
        var slot := FirstSlot(mask, 0);
        assert receiving.SlotValid(slot);
        ghost var index := receiving.owner[slot];
        assert RangeInv(ranges, s, index);
        SumSet(rest, index, Never, |rest|);
        mask := mask - {slot};
        bytes := bytes + Later(receiving.values[slot].t - service, 0.0);
        rest := rest[index := Never];
      }
      SizeEmpty(rest);
    }

    /** The outstanding responses, in slot order. */
    method Arrivals() returns (arrivals: seq<Arrival>)
      requires Valid()
      ensures Lists(arrivals, s.waiting)
      ensures forall a :: a in arrivals ==> a.index < |ranges| && a.tail == s.tails[a.index]
    {
      var mask := waiting.mask;
      arrivals := [];
      ghost var listed := seq(|ranges|, _ => Never);
      while mask != {}
        invariant mask <= waiting.mask && |listed| == |ranges|
        invariant forall i :: 0 <= i < |listed| ==> listed[i] == if i % SLOTS in mask then Never else s.waiting[i]
        invariant Lists(arrivals, listed)
        invariant forall a :: a in arrivals ==> a.index < |ranges| && a.tail == s.tails[a.index]
        decreases mask
      {
        SomeMember(mask);
        var slot := FirstSlot(mask, 0);
        assert waiting.SlotValid(slot);
        var index := IndexAt(slot, front);
        WindowsHold();
        IndexAtSlot(waiting.owner[slot], front);
        RangeOf(index);
        mask := mask - {slot};
        ListsOneMore(arrivals, listed, Arrival(waiting.values[slot].t, index, slot in tails));
        arrivals := arrivals + [Arrival(waiting.values[slot].t, index, slot in tails)];
        listed := listed[index := s.waiting[index]];
      }
      assert listed == s.waiting;
    }

    /** Leaves the loop early: no request is unsent and no prefix is outstanding. */
    method FinishInClosedForm() returns (finish: real, remainingBytes: real)
      requires Valid() && Settled(ranges, s)
      ensures finish == ClosedForm(ranges, bandwidth, s)
      ensures busyTime * bandwidth + remainingBytes == AllBytes(ranges, bandwidth, s)
    {
      hide EventSlots.Valid, Linked, UnstartedBytes, WaitingBytes, Drain;
      Scalars();
      var receivingBytes := ReceivingBytes();
      var arrivals := Arrivals();
      var sorted := SortArrivals(arrivals);
      ListsReordered(arrivals, sorted, s.waiting);
      Sorting.SameElements(arrivals, sorted);
      forall a | a in sorted
        ensures a.index < |ranges| && a.tail == ranges[a.index].split
      {
        assert RangeInv(ranges, s, a.index);
      }
      var bytes;
      finish, bytes := DrainArrivals(ranges, bandwidth, sorted, now + receivingBytes / bandwidth, s.waiting);
      remainingBytes := receivingBytes + bytes;
      SettledUnstarted(ranges, s, |ranges|);
    }

    /** Runs the simulation; `early` tells whether it ended in the closed form. */
    method Run() returns (finish: real, early: bool)
      requires Valid() && s == Init(|ranges|) && events == 0
      modifies this, done, waiting, waiting.values, receiving, receiving.values
      ensures finish == Elapsed(ranges, bandwidth)
      ensures early <==> ranges != []
      ensures events <= 4 * |ranges|
    {
      hide EventSlots.Valid, Linked, Inv, AllBytes, Trues, PrefixesLeft, EqualShare.Issue, Event, Drain, After;
      Scalars();
      TruesAll(s.done, |ranges|);
      assert ranges != [] ==> !s.done[0];
      AfterNothing(ranges, bandwidth);
      while completed < |ranges|
        invariant Valid() && s == After(ranges, bandwidth, events)
        invariant ranges != [] ==> completed < |ranges|
        invariant events <= 4 * |ranges|
        decreases 4 * |ranges| - events
      {
        ghost var before := s;
        Scalars();
        Unfinished(ranges, bandwidth, s, events);
        Issue();
        NextState(ranges, bandwidth, before, s, events);
        Scalars();
        NoPrefixLeft(ranges, s.tails, |ranges|);
        if next == |ranges| && prefixesLeft == 0 {
          var remainingBytes;
          finish, remainingBytes := FinishInClosedForm();
          EarlyFinish(ranges, bandwidth, before, events);
          assert busyTime * bandwidth + remainingBytes == TotalBytes(ranges);
          assert finish >= now && finish >= TotalBytes(ranges) / bandwidth;
          early := true;
          return;
        }
        UnsettledDoesNotFinish(ranges, bandwidth, s);
        ghost var issued := s;
        NextEvent();
        Scalars();
        TruesAll(s.done, |ranges|);
      }
      Scalars();
      TruesAll(s.done, |ranges|);
      RunIsAfter(ranges, bandwidth, events);
      finish, early := now, false;
    }

    lemma Scalars()
      requires Valid()
      ensures Sized(|ranges|, s) && now == s.now && busyTime == s.busy && next == s.next
      ensures completed == Trues(s.done, |ranges|)
      ensures prefixesLeft == PrefixesLeft(ranges, s.tails, |ranges|)
    {
    }

    /** What is known of a range whose event is next. */
    lemma RangeOf(index: nat)
      requires Valid() && index < |ranges| && (s.waiting[index].At? || s.receiving[index].At?)
      ensures RangeInv(ranges, s, index)
      ensures front <= index < next
      ensures index % SLOTS in tails <==> s.tails[index]
      ensures s.waiting[index].At? ==> index % SLOTS !in receiving.mask
      ensures s.receiving[index].At? ==> index % SLOTS !in waiting.mask
    {
      assert RangeInv(ranges, s, index);
      WindowsHold();
      if s.waiting[index].At? {
        SlotIsFree(receiving, front, index);
      } else {
        SlotIsFree(waiting, front, index);
      }
    }

    lemma ReceivingSize()
      requires Valid()
      ensures |receiving.mask| == Size(s.receiving)
      ensures Size(s.receiving) == 0 <==> Empty(s.receiving)
    {
      assert forall slot :: slot in receiving.mask ==> receiving.SlotValid(slot);
      MaskSize(receiving.mask, receiving.owner, receiving.Contents);
      CountMoved(receiving.Contents, s.receiving, |ranges|);
      SizeEmpty(s.receiving);
    }
  }

  /** The ring stores, for each body, the service clock at which it will be complete. */
  ghost predicate Keyed(contents: seq<Time>, receiving: seq<Time>, service: real) {
    |contents| == |receiving| && forall i :: 0 <= i < |contents| ==> contents[i] == Moved(receiving[i], service)
  }

  /** `r` is `s` after the response of range `index`; each body has received `share` bytes. */
  ghost predicate Responded(ranges: seq<Range>, s: State, r: State, index: nat,
                            contents: seq<Time>, service: real, share: real)
    requires Sized(|ranges|, s) && index < |ranges| == |contents| && s.waiting[index].At?
  {
    && Sized(|ranges|, r)
    && r == s.(now := s.waiting[index].t, busy := r.busy, waiting := s.waiting[index := Never], receiving := r.receiving)
    && r.busy == (if Empty(s.receiving) then s.busy else s.busy + (s.waiting[index].t - s.now))
    && share >= 0.0
    && Keyed(contents[index := At(service + share + ranges[index].Body(s.tails[index]))], r.receiving, service + share)
  }

  lemma RespondEffect(ranges: seq<Range>, bandwidth: real, s: State, contents: seq<Time>, service: real, share: real)
    requires ValidInput(ranges, bandwidth) && Inv(ranges, s) && ResponseIsNext(bandwidth, s)
    requires Keyed(contents, s.receiving, service)
    requires share == Share(bandwidth, Size(s.receiving), s.waiting[Earliest(s.waiting)].t - s.now)
    ensures Responded(ranges, s, Respond(ranges, bandwidth, s), Earliest(s.waiting), contents, service, share)
  {
    var i := Earliest(s.waiting);
    assert RangeInv(ranges, s, i);
    NonNegativeShare(bandwidth, Size(s.receiving), s.waiting[i].t - s.now);
  }

  /** `r` is `s` after the body of range `index` completes at `at`. */
  ghost predicate Delivered(ranges: seq<Range>, s: State, r: State, index: nat, at: real,
                            contents: seq<Time>, key: real)
    requires Sized(|ranges|, s) && index < |ranges| == |contents|
  {
    && Sized(|ranges|, r)
    && Keyed(contents[index := Never], r.receiving, key)
    && var moved := s.(now := at, busy := s.busy + (at - s.now), receiving := r.receiving);
       r == if ranges[index].split && !s.tails[index]
            then moved.(waiting := s.waiting[index := At(at + ranges[index].tailDelay)], tails := s.tails[index := true])
            else moved.(done := s.done[index := true])
  }

  lemma DeliverEffect(ranges: seq<Range>, bandwidth: real, s: State, contents: seq<Time>, service: real)
    requires ValidInput(ranges, bandwidth) && Inv(ranges, s) && !Empty(s.receiving)
    requires Keyed(contents, s.receiving, service)
    ensures var i := Earliest(s.receiving);
            Delivered(ranges, s, Deliver(ranges, bandwidth, s), i, BodyAt(bandwidth, s), contents,
                      service + s.receiving[i].t)
  {
  }

  /** Adding the service clock to every body does not change which one is earliest. */
  lemma KeyedEarliest(contents: seq<Time>, receiving: seq<Time>, service: real)
    requires Keyed(contents, receiving, service)
    ensures Empty(contents) <==> Empty(receiving)
    ensures !Empty(receiving) ==> Earliest(contents) == Earliest(receiving)
  {
    assert forall i :: 0 <= i < |contents| ==> (contents[i].Never? <==> receiving[i].Never?);
    if !Empty(receiving) {
      assert contents == Shifted(receiving, service);
      EarliestShifted(receiving, service);
    }
  }

  lemma TailBitSet(s: State, mask: set<int>, index: nat)
    requires |s.done| == |s.tails| && s.front <= index < s.next <= s.front + SLOTS && index < |s.tails|
    requires TailBits(s.front, s.next, s.done, s.tails, mask)
    ensures TailBits(s.front, s.next, s.done, s.tails[index := true], mask + {index % SLOTS})
  {
    forall i | s.front <= i < s.next && i != index
      ensures i % SLOTS != index % SLOTS
    {
      IndexAtSlot(i, s.front);
      IndexAtSlot(index, s.front);
    }
  }

  lemma NonNegativeShare(bandwidth: real, count: nat, elapsed: real)
    requires bandwidth > 0.0 && elapsed >= 0.0
    ensures Share(bandwidth, count, elapsed) >= 0.0
  {
    if count > 0 {
      assert elapsed * bandwidth >= 0.0;
      DivideMonotone(0.0, elapsed * bandwidth, count as real);
    }
  }

  /** The next request is sent. */
  ghost function WithSent(ranges: seq<Range>, s: State): State
    requires Sized(|ranges|, s) && s.next < |ranges|
  {
    s.(next := s.next + 1, waiting := s.waiting[s.next := At(s.now + ranges[s.next].firstDelay)])
  }

  lemma SendKeepsTailBits(ranges: seq<Range>, s: State, tails: set<int>)
    requires Inv(ranges, s) && s.next < Min(|ranges|, s.front + WINDOW) && TailBits(s.front, s.next, s.done, s.tails, tails)
    ensures TailBits(s.front, s.next + 1, s.done, s.tails, tails - {s.next % SLOTS})
  {
    assert RangeInv(ranges, s, s.next);
    forall i | s.front <= i < s.next
      ensures i % SLOTS != s.next % SLOTS
    {
      IndexAtSlot(i, s.front);
      IndexAtSlot(s.next, s.front);
    }
  }

  /** Each range in flight has the bit of its slot set exactly when its prefix has been delivered. */
  ghost predicate TailBits(front: nat, next: nat, done: seq<bool>, tails: seq<bool>, mask: set<int>)
    requires |done| == |tails|
  {
    forall i :: front <= i < next && i < |done| && !done[i] ==> (i % SLOTS in mask <==> tails[i])
  }

  lemma FrontKeepsInv(ranges: seq<Range>, s: State, front: nat)
    requires Inv(ranges, s) && s.front <= front <= s.next
    requires forall i :: s.front <= i < front ==> s.done[i]
    ensures Inv(ranges, s.(front := front))
  {
    forall i | 0 <= i < |ranges|
      ensures RangeInv(ranges, s.(front := front), i)
    {
      assert RangeInv(ranges, s, i);
    }
  }

  lemma SendKeepsInv(ranges: seq<Range>, bandwidth: real, s: State)
    requires ValidInput(ranges, bandwidth) && Inv(ranges, s) && s.next < Min(|ranges|, s.front + WINDOW)
    ensures Inv(ranges, WithSent(ranges, s))
  {
    forall i | 0 <= i < |ranges|
      ensures RangeInv(ranges, WithSent(ranges, s), i)
    {
      assert RangeInv(ranges, s, i);
    }
  }
}
