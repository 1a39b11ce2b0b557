/** The estimator pool: callers, one permit, worker channels and a cache per estimator, one atomic step at a time. */
module EstimatorPool {
  import opened ExtraCosts
  import opened Options
  import Ranks
  import Sorting

  const CACHE_ENTRIES: nat := 128

  /** Larger byte counts would not be exact in the simulator's arithmetic. */
  const MAX_BYTES: nat := 0x20_0000_0000_0000

  type Key = seq<ReadRange>

  /** The cost of a trial, by estimator, ranges and trial number. */
  type Trial = (nat, Key, nat) -> real

  datatype Entry = Entry(key: Key, extra: real)

  /** A slice of the trials for one worker. */
  datatype Job = Job(batch: nat, estimator: nat, key: Key)

  datatype Reply = Pending | Lost | Done(costs: seq<real>)

  /** `replies` holds one entry per worker tried so far; the first `drained` of them have been awaited. */
  datatype Batch = Batch(estimator: nat, key: Key, replies: seq<Reply>, drained: nat, costs: seq<real>, complete: bool)

  /** What a caller receives; `caller` is the caller's batch, if it started one. */
  datatype Answer = Answer(caller: Option<nat>, estimator: nat, key: Key, extra: Option<real>)

  /** `left` holds the batches whose callers no longer wait. */
  datatype State = State(
    holder: Option<nat>, next: nat, batches: map<nat, Batch>,
    queued: seq<Option<Job>>, running: seq<Option<Job>>, alive: seq<bool>, caches: map<nat, seq<Entry>>,
    left: set<nat>, answers: seq<Answer>)

  datatype Event =
    | Ask(estimator: nat, key: Key, expired: bool)
    | Acquire(estimator: nat, key: Key, expired: bool)
    | Expire(batch: nat)
    | Leave(batch: nat)
    | Dispatch(batch: nat)
    | Receive(worker: nat)
    | Finish(worker: nat, panicked: bool)
    | Die(worker: nat)
    | Drain(batch: nat)
    | Close(batch: nat)

  function Init(workers: nat): State {
    State(None, 0, map[], seq(workers, _ => None), seq(workers, _ => None), seq(workers, _ => true), map[], {}, [])
  }

  // ---------------------------------------------------------------- requests

  function TotalBytes(key: Key): nat {
    if key == [] then 0 else TotalBytes(key[..|key| - 1]) + key[|key| - 1].bytes
  }

  /** Other requests are turned away at once. */
  predicate Accepted(key: Key) {
    key != [] && ValidRequests(key) && (forall i :: 0 <= i < |key| ==> key[i].bytes > 0) && TotalBytes(key) <= MAX_BYTES
  }

  // ---------------------------------------------------------------- values

  /** Trials `first..last` of a request. */
  function Trials(trial: Trial, estimator: nat, key: Key, first: nat, last: nat): (r: seq<real>)
    requires first <= last
    ensures |r| == last - first
    ensures forall t :: 0 <= t < last - first ==> r[t] == trial(estimator, key, first + t)
  {
    seq(last - first, t requires 0 <= t < last - first => trial(estimator, key, first + t))
  }

  function Slice(trial: Trial, estimator: nat, key: Key, worker: nat, workers: nat): seq<real>
    requires worker < workers
  {
    SlicesInOrder(worker, workers);
    Trials(trial, estimator, key, SliceStart(worker, workers), SliceStart(worker + 1, workers))
  }

  predicate AtMost(a: real, b: real) { a <= b }

  lemma RealOrder()
    ensures Sorting.TotalOrder(AtMost)
  {
  }

  /** The middle of the sorted costs, no less than zero. */
  function Median(costs: seq<real>): real
    requires |costs| == TRIALS
  {
    RealOrder();
    var sorted := Sorting.Sort(costs, AtMost);
    var middle := (sorted[TRIALS / 2 - 1] + sorted[TRIALS / 2]) / 2.0;
    if middle >= 0.0 then middle else 0.0
  }

  /**
   * Of 1024 costs, at most 511 are less than `a` and at least 512 are not more; at most 512 are less than `b`
   * and at least 513 are not more. The answer is halfway between, or nothing if that is negative.
   */
  lemma MedianIsMiddle(costs: seq<real>) returns (a: real, b: real)
    requires |costs| == 1024
    ensures Ranks.Ranked(costs, a, 511, AtMost) && Ranks.Ranked(costs, b, 512, AtMost) && a <= b
    ensures Median(costs) == if a + b >= 0.0 then (a + b) / 2.0 else 0.0
  {
    RealOrder();
    var sorted := Sorting.Sort(costs, AtMost);
    a, b := sorted[511], sorted[512];
    assert AtMost(a, b);
    Ranks.SortedRank(costs, sorted, 511, AtMost);
    Ranks.SortedRank(costs, sorted, 512, AtMost);
  }

  function Extra(trial: Trial, estimator: nat, key: Key): real {
    Median(Trials(trial, estimator, key, 0, TRIALS))
  }

  // ---------------------------------------------------------------- the cache

  function Cache(caches: map<nat, seq<Entry>>, estimator: nat): seq<Entry> {
    if estimator in caches then caches[estimator] else []
  }

  function Cached(cache: seq<Entry>, key: Key): (r: Option<real>)
    ensures r.None? <==> forall i :: 0 <= i < |cache| ==> cache[i].key != key
    ensures r.Some? ==> exists i :: 0 <= i < |cache| && cache[i] == Entry(key, r.value)
  {
    if cache == [] then None
    else if cache[0].key == key then Some(cache[0].extra)
    else
      assert forall i :: 0 < i < |cache| ==> cache[i] == cache[1..][i - 1];
      Cached(cache[1..], key)
  }

  /** Drops the oldest entry when full. */
  function Remember(cache: seq<Entry>, entry: Entry): seq<Entry> {
    (if |cache| == CACHE_ENTRIES then cache[1..] else cache) + [entry]
  }

  ghost predicate RightValue(trial: Trial, estimator: nat, key: Key, extra: real) {
    Accepted(key) && extra == Extra(trial, estimator, key)
  }

  /** At most 128 entries, each key once, each with the value computed for it. */
  ghost predicate GoodCache(trial: Trial, estimator: nat, cache: seq<Entry>) {
    && |cache| <= CACHE_ENTRIES
    && (forall i, j :: 0 <= i < j < |cache| ==> cache[i].key != cache[j].key)
    && (forall i :: 0 <= i < |cache| ==> RightValue(trial, estimator, cache[i].key, cache[i].extra))
  }

  // ---------------------------------------------------------------- steps

  predicate Enabled(s: State, e: Event) {
    match e
    case Ask(_, _, _) => true
    case Acquire(_, key, _) => s.holder.None? && Accepted(key)
    case Expire(batch) => batch in s.batches && s.batches[batch].replies == []
    case Leave(batch) => batch in s.batches
    case Dispatch(batch) => batch in s.batches && |s.batches[batch].replies| < |s.alive|
    case Receive(worker) => worker < |s.queued| == |s.running| && s.queued[worker].Some? && s.running[worker].None?
    case Finish(worker, _) => worker < |s.running| && s.running[worker].Some?
    case Die(worker) => worker < |s.alive| == |s.queued| == |s.running|
    case Drain(batch) =>
      && batch in s.batches && |s.batches[batch].replies| == |s.alive|
      && s.batches[batch].drained < |s.batches[batch].replies|
      && !s.batches[batch].replies[s.batches[batch].drained].Pending?
    case Close(batch) => batch in s.batches && s.batches[batch].drained == |s.alive|
  }

  /** Delivers a reply, if there is still a batch that awaits one. */
  function Replied(batches: map<nat, Batch>, job: Option<Job>, worker: nat, reply: Reply): map<nat, Batch> {
    if job.Some? && job.value.batch in batches && worker < |batches[job.value.batch].replies| then
      var batch := batches[job.value.batch];
      batches[job.value.batch := batch.(replies := batch.replies[worker := reply])]
    else batches
  }

  /** A batch whose workers all replied with their slices answers with the median and remembers it. */
  predicate Succeeds(batch: Batch) {
    batch.complete && |batch.costs| == TRIALS
  }

  function Drained(batch: Batch): Batch
    requires batch.drained < |batch.replies|
  {
    match batch.replies[batch.drained]
    case Done(costs) => batch.(drained := batch.drained + 1, costs := batch.costs + costs)
    case _ => batch.(drained := batch.drained + 1, complete := false)
  }

  /** What a step answers, to a caller that still waits. */
  function Answers(s: State, e: Event): seq<Answer>
    requires Enabled(s, e)
  {
    match e
    case Ask(estimator, key, expired) =>
      var cached := Cached(Cache(s.caches, estimator), key);
      if expired || !Accepted(key) then [Answer(None, estimator, key, None)]
      else if cached.Some? then [Answer(None, estimator, key, cached)]
      else []
    case Acquire(estimator, key, expired) =>
      var cached := Cached(Cache(s.caches, estimator), key);
      if expired then [Answer(None, estimator, key, None)]
      else if cached.Some? then [Answer(None, estimator, key, cached)]
      else []
    case Expire(id) => [Answer(Some(id), s.batches[id].estimator, s.batches[id].key, None)]
    case Close(id) =>
      var batch := s.batches[id];
      [Answer(Some(id), batch.estimator, batch.key, if Succeeds(batch) then Some(Median(batch.costs)) else None)]
    case _ => []
  }

  /** The answers whose callers did not leave. */
  function Stayed(answers: seq<Answer>, left: set<nat>): seq<Answer> {
    if answers == [] then []
    else
      var last := answers[|answers| - 1];
      Stayed(answers[..|answers| - 1], left) + (if last.caller.Some? && last.caller.value in left then [] else [last])
  }

  /** What a step does to the pool itself. */
  function Apply(trial: Trial, s: State, e: Event): State
    requires Enabled(s, e)
  {
    match e
    case Ask(_, _, _) => s
    case Acquire(estimator, key, expired) =>
      if expired || Cached(Cache(s.caches, estimator), key).Some? then s
      else s.(holder := Some(s.next), next := s.next + 1,
              batches := s.batches[s.next := Batch(estimator, key, [], 0, [], true)])
    case Expire(batch) => s.(holder := None, batches := s.batches - {batch})
    case Leave(batch) => s.(left := s.left + {batch})
    case Dispatch(id) =>
      var batch := s.batches[id];
      var worker := |batch.replies|;
      if worker < |s.queued| && s.alive[worker] && s.queued[worker].None? then
        s.(queued := s.queued[worker := Some(Job(id, batch.estimator, batch.key))],
           batches := s.batches[id := batch.(replies := batch.replies + [Pending])])
      else s.(batches := s.batches[id := batch.(replies := batch.replies + [Lost])])
    case Receive(worker) =>
      s.(running := s.running[worker := s.queued[worker]], queued := s.queued[worker := None])
    case Finish(worker, panicked) =>
      var job := s.running[worker];
      var reply := if panicked then Lost else Done(Slice(trial, job.value.estimator, job.value.key, worker, |s.running|));
      s.(running := s.running[worker := None], batches := Replied(s.batches, job, worker, reply))
    case Die(worker) =>
      s.(alive := s.alive[worker := false], queued := s.queued[worker := None], running := s.running[worker := None],
         batches := Replied(Replied(s.batches, s.queued[worker], worker, Lost), s.running[worker], worker, Lost))
    case Drain(id) => s.(batches := s.batches[id := Drained(s.batches[id])])
    case Close(id) =>
      var batch := s.batches[id];
      var cache := Cache(s.caches, batch.estimator);
      s.(holder := None, batches := s.batches - {id},
         caches := if Succeeds(batch) then s.caches[batch.estimator := Remember(cache, Entry(batch.key, Median(batch.costs)))]
                   else s.caches)
  }

  /** A step that is not possible leaves the pool alone. */
  function Next(trial: Trial, s: State, e: Event): State {
    if Enabled(s, e) then Apply(trial, s, e).(answers := s.answers + Stayed(Answers(s, e), s.left)) else s
  }

  function Run(trial: Trial, workers: nat, events: seq<Event>): State {
    if events == [] then Init(workers)
    else Next(trial, Run(trial, workers, events[..|events| - 1]), events[|events| - 1])
  }

  // ---------------------------------------------------------------- the invariant

  /** A dispatched job belongs to the batch that holds the permit, and its reply is still pending. */
  ghost predicate Owned(holder: Option<nat>, batches: map<nat, Batch>, job: Option<Job>, worker: nat) {
    job.Some? ==>
      && holder == Some(job.value.batch) && job.value.batch in batches
      && var batch := batches[job.value.batch];
         && worker < |batch.replies| && batch.replies[worker].Pending?
         && job.value.estimator == batch.estimator && job.value.key == batch.key
  }

  ghost predicate Sized(workers: nat, s: State) {
    |s.queued| == |s.running| == |s.alive| == workers > 0
  }

  /** Every worker's slot of the pool agrees with the batches. */
  ghost predicate Worker(s: State, w: nat)
    requires w < |s.queued| == |s.running| == |s.alive|
  {
    && Owned(s.holder, s.batches, s.queued[w], w) && Owned(s.holder, s.batches, s.running[w], w)
    && !(s.queued[w].Some? && s.running[w].Some?)
    && (!s.alive[w] ==> s.queued[w].None? && s.running[w].None?)
    && forall id :: id in s.batches && w < |s.batches[id].replies| && s.batches[id].replies[w].Pending? ==>
         s.queued[w].Some? || s.running[w].Some?
  }

  /** What has been collected so far is a prefix of the trials, or the batch has failed. */
  ghost predicate GoodBatch(trial: Trial, workers: nat, batch: Batch) {
    && batch.drained <= |batch.replies| <= workers
    && (batch.drained > 0 ==> |batch.replies| == workers)
    && (forall i :: 0 <= i < batch.drained ==> !batch.replies[i].Pending?)
    && (forall i :: 0 <= i < |batch.replies| && batch.replies[i].Done? ==>
          batch.replies[i].costs == Slice(trial, batch.estimator, batch.key, i, workers))
    && (batch.complete ==> Collected(trial, workers, batch.estimator, batch.key, batch.drained, batch.costs))
  }

  ghost predicate Collected(trial: Trial, workers: nat, estimator: nat, key: Key, drained: nat, costs: seq<real>) {
    workers > 0 && costs == Trials(trial, estimator, key, 0, SliceStart(drained, workers))
  }

  /** One permit: there is a batch only while it holds the permit. */
  ghost predicate OneHolder(s: State) {
    && (forall id :: id in s.batches ==> s.holder == Some(id))
    && (s.holder.Some? ==> s.holder.value in s.batches)
  }

  ghost predicate Inv(trial: Trial, workers: nat, s: State) {
    && Sized(workers, s) && OneHolder(s)
    && (forall w :: 0 <= w < workers ==> Worker(s, w))
    && (forall id :: id in s.batches ==>
          && GoodBatch(trial, workers, s.batches[id]) && Accepted(s.batches[id].key)
          && Cached(Cache(s.caches, s.batches[id].estimator), s.batches[id].key).None?)
    && (forall estimator :: GoodCache(trial, estimator, Cache(s.caches, estimator)))
  }

  lemma AtStart(trial: Trial, workers: nat)
    requires workers > 0
    ensures Inv(trial, workers, Init(workers))
  {
    hide Extra;
  }

  lemma AcquireKeeps(trial: Trial, workers: nat, s: State, estimator: nat, key: Key, expired: bool)
    requires Inv(trial, workers, s) && Enabled(s, Acquire(estimator, key, expired))
    ensures Inv(trial, workers, Apply(trial, s, Acquire(estimator, key, expired)))
  {
    hide Extra, GoodCache, Accepted, Slice, Cache, Cached;
    var t := Apply(trial, s, Acquire(estimator, key, expired));
    forall w | 0 <= w < workers
      ensures Worker(t, w)
    {
      assert Worker(s, w);
    }
    forall e
      ensures GoodCache(trial, e, Cache(t.caches, e))
    {
      assert GoodCache(trial, e, Cache(s.caches, e));
    }
    SlicesInOrder(0, workers);
    var batch := Batch(estimator, key, [], 0, [], true);
    assert GoodBatch(trial, workers, batch);
    assert s.batches == map[];
  }

  lemma ExpireKeeps(trial: Trial, workers: nat, s: State, id: nat)
    requires Inv(trial, workers, s) && Enabled(s, Expire(id))
    ensures Inv(trial, workers, Apply(trial, s, Expire(id)))
  {
    hide Extra, GoodCache, Accepted, Slice, Cache, Cached;
    var t := Apply(trial, s, Expire(id));
    forall w | 0 <= w < workers
      ensures Worker(t, w)
    {
      assert Worker(s, w);
    }
    forall e
      ensures GoodCache(trial, e, Cache(t.caches, e))
    {
      assert GoodCache(trial, e, Cache(s.caches, e));
    }
  }

  lemma LeaveKeeps(trial: Trial, workers: nat, s: State, id: nat)
    requires Inv(trial, workers, s) && Enabled(s, Leave(id))
    ensures Inv(trial, workers, Apply(trial, s, Leave(id)))
  {
    hide Extra, GoodCache, Accepted, Slice, Cache, Cached, Collected;
    var t := Apply(trial, s, Leave(id));
    forall w | 0 <= w < workers
      ensures Worker(t, w)
    {
      assert Worker(s, w);
    }
    forall e
      ensures GoodCache(trial, e, Cache(t.caches, e))
    {
      assert GoodCache(trial, e, Cache(s.caches, e));
    }
  }

  lemma DispatchedBatch(trial: Trial, workers: nat, batch: Batch, reply: Reply)
    requires GoodBatch(trial, workers, batch) && |batch.replies| < workers && !reply.Done?
    ensures GoodBatch(trial, workers, batch.(replies := batch.replies + [reply]))
  {
    hide Collected, Slice;
  }

  lemma DispatchKeeps(trial: Trial, workers: nat, s: State, id: nat)
    requires Inv(trial, workers, s) && Enabled(s, Dispatch(id))
    ensures Inv(trial, workers, Apply(trial, s, Dispatch(id)))
  {
    hide Extra, GoodCache, Accepted, Slice, Cache, Cached, Collected, GoodBatch;
    var t := Apply(trial, s, Dispatch(id));
    var batch := s.batches[id];
    var worker := |batch.replies|;
    assert Worker(s, worker);
    DispatchedBatch(trial, workers, batch, Pending);
    DispatchedBatch(trial, workers, batch, Lost);
    assert s.holder == Some(id);
    forall w | 0 <= w < workers
      ensures Worker(t, w)
    {
      assert Worker(s, w);
      assert w != worker ==> t.queued[w] == s.queued[w];
    }
    assert forall e :: Cache(t.caches, e) == Cache(s.caches, e);
  }

  lemma ReceiveKeeps(trial: Trial, workers: nat, s: State, worker: nat)
    requires Inv(trial, workers, s) && Enabled(s, Receive(worker))
    ensures Inv(trial, workers, Apply(trial, s, Receive(worker)))
  {
    hide Extra, GoodCache, Accepted, Slice, Cache, Cached, Collected;
    var t := Apply(trial, s, Receive(worker));
    forall w | 0 <= w < workers
      ensures Worker(t, w)
    {
      assert Worker(s, w);
    }
    forall e
      ensures GoodCache(trial, e, Cache(t.caches, e))
    {
      assert GoodCache(trial, e, Cache(s.caches, e));
    }
  }

  lemma RepliedBatch(trial: Trial, workers: nat, batch: Batch, worker: nat, reply: Reply)
    requires GoodBatch(trial, workers, batch) && worker < |batch.replies| && batch.replies[worker].Pending?
    requires reply.Lost? || (reply.Done? && reply.costs == Slice(trial, batch.estimator, batch.key, worker, workers))
    ensures GoodBatch(trial, workers, batch.(replies := batch.replies[worker := reply]))
  {
    hide Collected, Slice;
  }

  /** A worker that has nothing left, and whose job has replied or is lost. */
  lemma ReplyKeeps(trial: Trial, workers: nat, s: State, t: State, worker: nat, job: Option<Job>, reply: Reply)
    requires Inv(trial, workers, s) && worker < workers
    requires job == if s.running[worker].Some? then s.running[worker] else s.queued[worker]
    requires t.holder == s.holder && t.next == s.next && t.caches == s.caches
    requires t.queued == s.queued[worker := None] && t.running == s.running[worker := None]
    requires |t.alive| == workers && forall w :: 0 <= w < workers && w != worker ==> t.alive[w] == s.alive[w]
    requires t.batches == Replied(s.batches, job, worker, reply)
    requires job.Some? ==>
               reply.Lost? || (reply.Done? && reply.costs == Slice(trial, job.value.estimator, job.value.key, worker, workers))
    ensures Inv(trial, workers, t)
  {
    hide Extra, GoodCache, Accepted, Slice, Cache, Cached, Collected, GoodBatch;
    assert Worker(s, worker);
    if job.Some? {
      RepliedBatch(trial, workers, s.batches[job.value.batch], worker, reply);
    }
    forall w | 0 <= w < workers
      ensures Worker(t, w)
    {
      assert Worker(s, w);
    }
    assert forall e :: Cache(t.caches, e) == Cache(s.caches, e);
  }

  lemma FinishKeeps(trial: Trial, workers: nat, s: State, worker: nat, panicked: bool)
    requires Inv(trial, workers, s) && Enabled(s, Finish(worker, panicked))
    ensures Inv(trial, workers, Apply(trial, s, Finish(worker, panicked)))
  {
    hide Extra, GoodCache, Accepted, Slice, Cache, Cached, Collected, GoodBatch, Replied;
    assert Worker(s, worker);
    var job := s.running[worker];
    var reply := if panicked then Lost else Done(Slice(trial, job.value.estimator, job.value.key, worker, workers));
    var t := Apply(trial, s, Finish(worker, panicked));
    assert s.queued[worker := None] == s.queued;
    ReplyKeeps(trial, workers, s, t, worker, job, reply);
  }

  lemma DieKeeps(trial: Trial, workers: nat, s: State, worker: nat)
    requires Inv(trial, workers, s) && Enabled(s, Die(worker))
    ensures Inv(trial, workers, Apply(trial, s, Die(worker)))
  {
    hide Extra, GoodCache, Accepted, Slice, Cache, Cached, Collected, GoodBatch;
    assert Worker(s, worker);
    var job := if s.running[worker].Some? then s.running[worker] else s.queued[worker];
    var t := Apply(trial, s, Die(worker));
    NoReply(s.batches, worker);
    ReplyKeeps(trial, workers, s, t, worker, job, Lost);
  }

  lemma NoReply(batches: map<nat, Batch>, worker: nat)
    ensures Replied(batches, None, worker, Lost) == batches
  {
  }

  /** The next reply, awaited, adds the next slice of the trials. */
  lemma DrainedBatch(trial: Trial, workers: nat, batch: Batch)
    requires GoodBatch(trial, workers, batch) && batch.drained < |batch.replies| == workers
    requires !batch.replies[batch.drained].Pending?
    ensures GoodBatch(trial, workers, Drained(batch))
  {
    hide Slice, Trials, SliceStart;
    var n := batch.drained;
    if batch.complete && batch.replies[n].Done? {
      SlicesJoin(trial, workers, batch.estimator, batch.key, n);
    }
  }

  lemma SlicesJoin(trial: Trial, workers: nat, estimator: nat, key: Key, worker: nat)
    requires worker < workers
    ensures Trials(trial, estimator, key, 0, SliceStart(worker, workers)) + Slice(trial, estimator, key, worker, workers)
         == Trials(trial, estimator, key, 0, SliceStart(worker + 1, workers))
  {
    hide SliceStart;
    SlicesInOrder(worker, workers);
  }

  lemma DrainKeeps(trial: Trial, workers: nat, s: State, id: nat)
    requires Inv(trial, workers, s) && Enabled(s, Drain(id))
    ensures Inv(trial, workers, Apply(trial, s, Drain(id)))
  {
    hide Extra, GoodCache, Accepted, Cache, Cached, GoodBatch, Slice, Collected;
    var t := Apply(trial, s, Drain(id));
    DrainedBatch(trial, workers, s.batches[id]);
    forall w | 0 <= w < workers
      ensures Worker(t, w)
    {
      assert Worker(s, w);
    }
    assert forall e :: Cache(t.caches, e) == Cache(s.caches, e);
  }

  /** A batch that collected everything has exactly the trials of its key. */
  lemma SuccessIsExtra(trial: Trial, workers: nat, batch: Batch)
    requires workers > 0 && GoodBatch(trial, workers, batch) && batch.drained == workers && Succeeds(batch)
    ensures Median(batch.costs) == Extra(trial, batch.estimator, batch.key)
  {
    hide Median, Slice;
    SlicesInOrder(0, workers);
    SlicesInOrder(workers - 1, workers);
  }

  lemma RememberKeeps(trial: Trial, estimator: nat, cache: seq<Entry>, key: Key)
    requires GoodCache(trial, estimator, cache) && Cached(cache, key).None? && Accepted(key)
    ensures GoodCache(trial, estimator, Remember(cache, Entry(key, Extra(trial, estimator, key))))
  {
    hide Extra, Accepted;
  }

  lemma CloseKeeps(trial: Trial, workers: nat, s: State, id: nat)
    requires Inv(trial, workers, s) && Enabled(s, Close(id))
    ensures Inv(trial, workers, Apply(trial, s, Close(id)))
  {
    hide Extra, GoodCache, Accepted, Cached, Slice, Remember, Median, Collected, Succeeds;
    var t, batch := Apply(trial, s, Close(id)), s.batches[id];
    forall w | 0 <= w < workers
      ensures Worker(t, w)
    {
      assert Worker(s, w);
    }
    if Succeeds(batch) {
      SuccessIsExtra(trial, workers, batch);
      RememberKeeps(trial, batch.estimator, Cache(s.caches, batch.estimator), batch.key);
    }
    forall e
      ensures GoodCache(trial, e, Cache(t.caches, e))
    {
      assert GoodCache(trial, e, Cache(s.caches, e));
    }
  }

  lemma AskKeeps(trial: Trial, s: State, e: Event)
    requires e.Ask? && Enabled(s, e)
    ensures Apply(trial, s, e) == s
  {
  }

  lemma AnswersAside(trial: Trial, workers: nat, s: State, answers: seq<Answer>)
    ensures Inv(trial, workers, s) ==> Inv(trial, workers, s.(answers := answers))
  {
    hide GoodBatch, GoodCache, Accepted, Cached, Cache, Owned;
    if Inv(trial, workers, s) {
      forall w | 0 <= w < workers
        ensures Worker(s.(answers := answers), w)
      {
        assert Worker(s, w);
      }
    }
  }

  lemma StepKeeps(trial: Trial, workers: nat, s: State, e: Event)
    requires Inv(trial, workers, s)
    ensures Inv(trial, workers, Next(trial, s, e))
  {
    hide Inv, Apply, Enabled, Answers, Stayed;
    if Enabled(s, e) {
      AnswersAside(trial, workers, Apply(trial, s, e), s.answers + Stayed(Answers(s, e), s.left));
      match e
      case Ask(_, _, _) => assert Apply(trial, s, e) == s by { AskKeeps(trial, s, e); }
      case Acquire(estimator, key, expired) => AcquireKeeps(trial, workers, s, estimator, key, expired);
      case Expire(id) => ExpireKeeps(trial, workers, s, id);
      case Leave(id) => LeaveKeeps(trial, workers, s, id);
      case Dispatch(id) => DispatchKeeps(trial, workers, s, id);
      case Receive(worker) => ReceiveKeeps(trial, workers, s, worker);
      case Finish(worker, panicked) => FinishKeeps(trial, workers, s, worker, panicked);
      case Die(worker) => DieKeeps(trial, workers, s, worker);
      case Drain(id) => DrainKeeps(trial, workers, s, id);
      case Close(id) => CloseKeeps(trial, workers, s, id);
    }
  }

  lemma {:induction false} EveryRunKeeps(trial: Trial, workers: nat, events: seq<Event>)
    requires workers > 0
    ensures Inv(trial, workers, Run(trial, workers, events))
  {
    hide Inv, Next;
    if events == [] {
      AtStart(trial, workers);
    } else {
      EveryRunKeeps(trial, workers, events[..|events| - 1]);
      StepKeeps(trial, workers, Run(trial, workers, events[..|events| - 1]), events[|events| - 1]);
    }
  }

  // ---------------------------------------------------------------- what every run guarantees

  /** No job is queued or running unless its batch holds the permit; two batches never overlap. */
  lemma JobsNeedThePermit(trial: Trial, workers: nat, events: seq<Event>)
    requires workers > 0
    ensures var s := Run(trial, workers, events);
            && |s.queued| == |s.running| == workers
            && (forall w :: 0 <= w < workers && s.queued[w].Some? ==> s.holder == Some(s.queued[w].value.batch))
            && (forall w :: 0 <= w < workers && s.running[w].Some? ==> s.holder == Some(s.running[w].value.batch))
            && (forall a, b :: a in s.batches && b in s.batches ==> a == b)
            && (forall id :: id in s.batches <==> s.holder == Some(id))
  {
    hide GoodBatch, GoodCache, Run, Cached, Cache;
    EveryRunKeeps(trial, workers, events);
    var s := Run(trial, workers, events);
    forall w | 0 <= w < workers
      ensures s.queued[w].Some? ==> s.holder == Some(s.queued[w].value.batch)
      ensures s.running[w].Some? ==> s.holder == Some(s.running[w].value.batch)
    {
      assert Worker(s, w);
    }
  }

  /** When a step gives the permit back, every dispatched job has replied or been lost. */
  lemma PermitReturnsLast(trial: Trial, workers: nat, events: seq<Event>, e: Event)
    requires workers > 0
    ensures var s := Run(trial, workers, events);
            s.holder.Some? && Next(trial, s, e).holder != s.holder ==>
              && Next(trial, s, e).holder.None?
              && |s.queued| == |s.running| == workers
              && (forall w :: 0 <= w < workers ==> s.queued[w].None? && s.running[w].None?)
              && s.holder.value in s.batches
              && (forall i :: 0 <= i < |s.batches[s.holder.value].replies| ==>
                    !s.batches[s.holder.value].replies[i].Pending?)
  {
    hide GoodCache, Run, Cached, Cache, Slice, Collected, Extra;
    EveryRunKeeps(trial, workers, events);
    var s := Run(trial, workers, events);
    if s.holder.Some? && Next(trial, s, e).holder != s.holder {
      assert GoodBatch(trial, workers, s.batches[s.holder.value]);
      forall w | 0 <= w < workers
        ensures s.queued[w].None? && s.running[w].None?
      {
        assert Worker(s, w);
      }
    }
  }

  /** Callers are answered with the value of their own estimator and ranges. */
  lemma AnswersAreRight(trial: Trial, workers: nat, events: seq<Event>, estimator: nat, key: Key)
    requires workers > 0
    ensures var s := Run(trial, workers, events);
            var cache := Cache(s.caches, estimator);
            && (Cached(cache, key).Some? ==> Cached(cache, key).value == Extra(trial, estimator, key))
            && |cache| <= 128
            && (forall i, j :: 0 <= i < j < |cache| ==> cache[i].key != cache[j].key)
            && forall id :: id in s.batches && s.batches[id].drained == workers && Succeeds(s.batches[id]) ==>
                 Median(s.batches[id].costs) == Extra(trial, s.batches[id].estimator, s.batches[id].key)
  {
    hide Run, Cache, Cached, Extra, Median, Slice, Collected, Worker;
    EveryRunKeeps(trial, workers, events);
    var s := Run(trial, workers, events);
    assert GoodCache(trial, estimator, Cache(s.caches, estimator));
    forall id | id in s.batches && s.batches[id].drained == workers && Succeeds(s.batches[id])
      ensures Median(s.batches[id].costs) == Extra(trial, s.batches[id].estimator, s.batches[id].key)
    {
      SuccessIsExtra(trial, workers, s.batches[id]);
    }
  }

  /** A living worker's channel is always free when its batch comes to it. */
  lemma ChannelIsFree(trial: Trial, workers: nat, events: seq<Event>, id: nat)
    requires workers > 0
    ensures var s := Run(trial, workers, events);
            Enabled(s, Dispatch(id)) ==>
              var w := |s.batches[id].replies|;
              && w < |s.queued| == |s.running| == |s.alive|
              && s.queued[w].None? && s.running[w].None?
              && (s.alive[w] ==> Next(trial, s, Dispatch(id)).queued[w].Some?)
  {
    hide Run, Cache, Cached, Slice, Collected, GoodBatch, GoodCache;
    EveryRunKeeps(trial, workers, events);
    var s := Run(trial, workers, events);
    if Enabled(s, Dispatch(id)) {
      assert Worker(s, |s.batches[id].replies|);
    }
  }

  // ---------------------------------------------------------------- the permit comes back

  function Held(slots: seq<Option<Job>>): nat {
    if slots == [] then 0 else Held(slots[..|slots| - 1]) + (if slots[|slots| - 1].Some? then 1 else 0)
  }

  lemma {:induction false} HeldUpdate(slots: seq<Option<Job>>, i: nat, slot: Option<Job>)
    requires i < |slots|
    ensures Held(slots[i := slot])
         == Held(slots) - (if slots[i].Some? then 1 else 0) + (if slot.Some? then 1 else 0)
  {
    var n := |slots| - 1;
    if i == n {
      assert slots[i := slot][..n] == slots[..n];
    } else {
      assert slots[i := slot][..n] == slots[..n][i := slot];
      HeldUpdate(slots[..n], i, slot);
    }
  }

  /** The steps that a batch and its jobs still have to take before the batch can be closed. */
  function StepsLeft(s: State): int {
    2 * Held(s.queued) + Held(s.running)
    + match s.holder
      case Some(id) =>
        if id in s.batches then 4 * (|s.alive| - |s.batches[id].replies|) + |s.alive| - s.batches[id].drained else 0
      case None => 0
  }

  predicate Progress(e: Event) {
    e.Dispatch? || e.Receive? || e.Finish? || e.Drain?
  }

  /** While the permit is held, some step is possible that closes the batch or brings it closer to that. */
  lemma NeverStuck(trial: Trial, workers: nat, events: seq<Event>) returns (e: Event)
    requires workers > 0 && Run(trial, workers, events).holder.Some?
    ensures var s := Run(trial, workers, events); Enabled(s, e) && (Progress(e) || e == Close(s.holder.value))
    ensures e.Finish? ==> !e.panicked
  {
    hide Run, Cache, Cached, Slice, Collected, GoodCache;
    EveryRunKeeps(trial, workers, events);
    var s := Run(trial, workers, events);
    var id := s.holder.value;
    var batch := s.batches[id];
    assert GoodBatch(trial, workers, batch);
    if |batch.replies| < workers {
      e := Dispatch(id);
    } else if batch.drained == workers {
      e := Close(id);
    } else if !batch.replies[batch.drained].Pending? {
      e := Drain(id);
    } else {
      assert Worker(s, batch.drained);
      e := if s.running[batch.drained].Some? then Finish(batch.drained, false) else Receive(batch.drained);
    }
  }

  lemma HolderBounds(trial: Trial, workers: nat, s: State)
    requires Inv(trial, workers, s)
    ensures |s.queued| == |s.running| == |s.alive| == workers
    ensures forall id :: id in s.batches <==> s.holder == Some(id)
    ensures s.holder.Some? ==> s.batches[s.holder.value].drained <= |s.batches[s.holder.value].replies| <= workers
  {
    hide GoodCache, Cache, Cached, Worker;
    assert s.holder.Some? ==> GoodBatch(trial, workers, s.batches[s.holder.value]);
  }

  /** Only what is queued and running, and the replies of the batch that holds the permit, count. */
  lemma ProgressStep(trial: Trial, s: State, e: Event, id: nat)
    requires |s.queued| == |s.running| == |s.alive| && s.holder == Some(id) && id in s.batches
    requires forall other :: other in s.batches ==> other == id
    requires Enabled(s, e) && Apply(trial, s, e).holder == s.holder
    ensures StepsLeft(Apply(trial, s, e)) <= StepsLeft(s) && (Progress(e) ==> StepsLeft(Apply(trial, s, e)) < StepsLeft(s))
  {
    hide Cache, Cached, Slice, Held, Remember, Median, Accepted, Succeeds;
    match e
    case Dispatch(_) =>
      var worker := |s.batches[id].replies|;
      HeldUpdate(s.queued, worker, Some(Job(id, s.batches[id].estimator, s.batches[id].key)));
    case Receive(w) => HeldUpdate(s.running, w, s.queued[w]); HeldUpdate(s.queued, w, None);
    case Finish(w, _) => HeldUpdate(s.running, w, None);
    case Die(w) => HeldUpdate(s.running, w, None); HeldUpdate(s.queued, w, None);
    case _ =>
  }

  /** Such steps are finitely many, and nothing that callers do while the permit is held adds to them. */
  lemma ProgressEnds(trial: Trial, workers: nat, events: seq<Event>, e: Event)
    requires workers > 0
    ensures var s := Run(trial, workers, events);
            s.holder.Some? && Enabled(s, e) && Next(trial, s, e).holder == s.holder ==>
              && 0 <= StepsLeft(Next(trial, s, e)) <= StepsLeft(s)
              && (Progress(e) ==> StepsLeft(Next(trial, s, e)) < StepsLeft(s))
  {
    hide Run, Held, Inv, Apply, Answers, Enabled;
    EveryRunKeeps(trial, workers, events);
    var s := Run(trial, workers, events);
    StepKeeps(trial, workers, s, e);
    HolderBounds(trial, workers, s);
    HolderBounds(trial, workers, Next(trial, s, e));
    if s.holder.Some? && Enabled(s, e) && Next(trial, s, e).holder == s.holder {
      ProgressStep(trial, s, e, s.holder.value);
    }
  }

  lemma ProgressKeepsHolder(trial: Trial, s: State, e: Event)
    requires Progress(e)
    ensures Next(trial, s, e).holder == s.holder
  {
    hide Replied, Drained, Slice;
  }

  lemma CloseFrees(trial: Trial, s: State, id: nat)
    requires Enabled(s, Close(id))
    ensures Next(trial, s, Close(id)).holder.None?
  {
    hide Succeeds, Median, Cache, Remember;
  }

  lemma StepsLeftInOrder(trial: Trial, workers: nat, events: seq<Event>)
    requires workers > 0
    ensures StepsLeft(Run(trial, workers, events)) >= 0
  {
    hide Run, Inv, Held;
    EveryRunKeeps(trial, workers, events);
    HolderBounds(trial, workers, Run(trial, workers, events));
  }

  lemma OneMoreEvent(trial: Trial, workers: nat, events: seq<Event>, e: Event)
    ensures Run(trial, workers, events + [e]) == Next(trial, Run(trial, workers, events), e)
  {
    assert (events + [e])[..|events|] == events;
  }

  /**
   * The permit always comes back: whatever has happened, the batch and its jobs alone reach that in at
   * most one step more than they have left.
   */
  lemma {:induction false} PermitComesBack(trial: Trial, workers: nat, events: seq<Event>) returns (more: seq<Event>)
    requires workers > 0
    ensures Run(trial, workers, events + more).holder.None?
    ensures 0 <= |more| <= StepsLeft(Run(trial, workers, events)) + 1
    ensures forall i :: 0 <= i < |more| ==>
              Progress(more[i]) || (more[i].Close? && Run(trial, workers, events).holder == Some(more[i].batch))
    decreases StepsLeft(Run(trial, workers, events))
  {
    hide Run, Next, StepsLeft, Enabled, Inv;
    var s := Run(trial, workers, events);
    StepsLeftInOrder(trial, workers, events);
    if s.holder.None? {
      more := [];
      assert events + more == events;
    } else {
      var e := NeverStuck(trial, workers, events);
      OneMoreEvent(trial, workers, events, e);
      if e == Close(s.holder.value) {
        more := [e];
        CloseFrees(trial, s, s.holder.value);
      } else {
        ProgressKeepsHolder(trial, s, e);
        ProgressEnds(trial, workers, events, e);
        var rest := PermitComesBack(trial, workers, events + [e]);
        more := [e] + rest;
        assert events + more == events + [e] + rest;
      }
    }
  }
}
