/** What the callers of the estimator pool receive, and what a caller that leaves changes. */
module EstimatorAnswers {
  import opened Draws
  import opened EstimatorPool
  import opened ExtraCosts
  import opened Options

  // ---------------------------------------------------------------- one answer for each batch

  ghost predicate RightAnswer(trial: Trial, a: Answer) {
    a.extra.Some? ==> RightValue(trial, a.estimator, a.key, a.extra.value)
  }

  /** An answer to a caller's own batch comes when the batch is gone and its caller still waits. */
  ghost predicate OwnAnswer(s: State, a: Answer) {
    a.caller.Some? ==> a.caller.value < s.next && a.caller.value !in s.batches && a.caller.value !in s.left
  }

  ghost predicate AnsweredBatch(answers: seq<Answer>, id: nat) {
    exists i :: 0 <= i < |answers| && answers[i].caller == Some(id)
  }

  ghost predicate Settled(trial: Trial, s: State) {
    && (forall id :: id in s.batches ==> id < s.next)
    && (forall i :: 0 <= i < |s.answers| ==> RightAnswer(trial, s.answers[i]) && OwnAnswer(s, s.answers[i]))
    && (forall i, j :: 0 <= i < j < |s.answers| && s.answers[i].caller.Some? ==> s.answers[i].caller != s.answers[j].caller)
    && (forall id: nat :: id < s.next && id !in s.batches && id !in s.left ==> AnsweredBatch(s.answers, id))
  }

  /** A step answers at most one caller: with the right value, and only if it ends the caller's batch. */
  lemma AnswersOfStep(trial: Trial, workers: nat, s: State, e: Event)
    requires Inv(trial, workers, s) && Enabled(s, e)
    ensures |Answers(s, e)| <= 1
    ensures |Answers(s, e)| == 1 ==> RightAnswer(trial, Answers(s, e)[0])
    ensures |Answers(s, e)| == 1 && Answers(s, e)[0].caller.Some? ==> Answers(s, e)[0].caller.value in s.batches
    ensures forall id :: id in s.batches && id !in Next(trial, s, e).batches ==>
              |Answers(s, e)| == 1 && Answers(s, e)[0].caller == Some(id)
    ensures |Answers(s, e)| == 1 && Answers(s, e)[0].caller.Some? ==>
              Answers(s, e)[0].caller.value !in Next(trial, s, e).batches
  {
    hide Extra, Cached, Cache, Accepted, Remember, Median, Slice, Collected, Worker;
    match e
    case Ask(estimator, key, expired) => CachedIsRight(trial, workers, s, estimator, key);
    case Acquire(estimator, key, expired) => CachedIsRight(trial, workers, s, estimator, key);
    case Close(id) =>
      if Succeeds(s.batches[id]) {
        SuccessIsExtra(trial, workers, s.batches[id]);
      }
    case _ =>
  }

  lemma CachedIsRight(trial: Trial, workers: nat, s: State, estimator: nat, key: Key)
    requires Inv(trial, workers, s)
    ensures var found := Cached(Cache(s.caches, estimator), key);
            found.Some? ==> RightValue(trial, estimator, key, found.value)
  {
    hide Extra, Cache, Accepted, Worker;
    assert GoodCache(trial, estimator, Cache(s.caches, estimator));
  }

  /** Batches are numbered in order; only a batch that exists can be left. */
  lemma StepOnBatches(trial: Trial, s: State, e: Event)
    requires Enabled(s, e)
    ensures var t := Apply(trial, s, e);
            && (t.next == s.next || (t.next == s.next + 1 && s.next in t.batches))
            && (forall id :: id in t.batches ==> id in s.batches || (id == s.next && t.next == s.next + 1))
            && (t.left == s.left || (e.Leave? && e.batch in s.batches && t.left == s.left + {e.batch} && t.batches == s.batches))
            && t.answers == s.answers
  {
    hide Cached, Cache, Accepted, Remember, Median, Slice, Succeeds;
  }

  lemma StayedOfOne(answers: seq<Answer>, left: set<nat>)
    requires |answers| <= 1
    ensures Stayed(answers, left)
         == if |answers| == 1 && answers[0].caller.Some? && answers[0].caller.value in left then [] else answers
  {
  }

  lemma SettledStep(trial: Trial, workers: nat, s: State, e: Event)
    requires Inv(trial, workers, s) && Settled(trial, s) && Enabled(s, e)
    ensures Settled(trial, Next(trial, s, e))
  {
    hide Apply, Answers, Enabled, Stayed, RightAnswer, Inv;
    var t, added := Next(trial, s, e), Stayed(Answers(s, e), s.left);
    AnswersOfStep(trial, workers, s, e);
    StepOnBatches(trial, s, e);
    StayedOfOne(Answers(s, e), s.left);
    assert t.answers == s.answers + added;
    forall i | 0 <= i < |t.answers|
      ensures RightAnswer(trial, t.answers[i]) && OwnAnswer(t, t.answers[i])
    {
      assert i < |s.answers| ==> OwnAnswer(s, s.answers[i]);
    }
    forall id: nat | id < t.next && id !in t.batches && id !in t.left
      ensures AnsweredBatch(t.answers, id)
    {
      if id in s.batches {
        assert t.answers[|s.answers|].caller == Some(id);
      } else {
        assert AnsweredBatch(s.answers, id);
        var i :| 0 <= i < |s.answers| && s.answers[i].caller == Some(id);
        assert t.answers[i].caller == Some(id);
      }
    }
    forall i, j | 0 <= i < j < |t.answers| && t.answers[i].caller.Some?
      ensures t.answers[i].caller != t.answers[j].caller
    {
      assert OwnAnswer(s, s.answers[i]);
    }
  }

  /**
   * In every run every batch is answered once, when it ends, unless its caller left before; and every
   * value that any caller receives is the one of the trials of its own ranges.
   */
  lemma {:induction false} EveryCallerIsAnswered(trial: Trial, workers: nat, events: seq<Event>)
    requires workers > 0
    ensures Settled(trial, Run(trial, workers, events))
  {
    hide Settled, Next;
    if events == [] {
      assert Settled(trial, Init(workers)) by { SettledAtStart(trial, workers); }
    } else {
      var before := Run(trial, workers, events[..|events| - 1]);
      EveryRunKeeps(trial, workers, events[..|events| - 1]);
      EveryCallerIsAnswered(trial, workers, events[..|events| - 1]);
      SettledNext(trial, workers, before, events[|events| - 1]);
    }
  }

  lemma SettledAtStart(trial: Trial, workers: nat)
    ensures Settled(trial, Init(workers))
  {
  }

  lemma SettledNext(trial: Trial, workers: nat, s: State, e: Event)
    requires Inv(trial, workers, s) && Settled(trial, s)
    ensures Settled(trial, Next(trial, s, e))
  {
    hide Settled, Inv, Apply, Answers, Enabled;
    if Enabled(s, e) {
      SettledStep(trial, workers, s, e);
    }
  }

  // ---------------------------------------------------------------- a caller that leaves

  /** The same events, with no caller leaving. */
  function Staying(events: seq<Event>): seq<Event> {
    if events == [] then []
    else
      var last := events[|events| - 1];
      Staying(events[..|events| - 1]) + (if last.Leave? then [] else [last])
  }

  /** `s` differs from `u`, which nobody left, by the answers that those who left did not receive. */
  ghost predicate SameButAnswers(s: State, u: State) {
    u == s.(left := {}, answers := u.answers) && s.answers == Stayed(u.answers, s.left)
  }

  lemma {:induction false} StayedOfBoth(a: seq<Answer>, b: seq<Answer>, left: set<nat>)
    ensures Stayed(a + b, left) == Stayed(a, left) + Stayed(b, left)
  {
    if b == [] {
      assert a + b == a;
    } else {
      var n := |b| - 1;
      assert (a + b)[..|a + b| - 1] == a + b[..n];
      StayedOfBoth(a, b[..n], left);
    }
  }

  lemma {:induction false} StayedByAll(answers: seq<Answer>)
    ensures Stayed(answers, {}) == answers
  {
    if answers != [] {
      StayedByAll(answers[..|answers| - 1]);
    }
  }

  /** Leaving an unanswered batch withholds nothing that was answered before. */
  lemma {:induction false} LeftTooLate(answers: seq<Answer>, left: set<nat>, id: nat)
    requires forall i :: 0 <= i < |answers| ==> answers[i].caller != Some(id)
    ensures Stayed(answers, left + {id}) == Stayed(answers, left)
  {
    if answers != [] {
      LeftTooLate(answers[..|answers| - 1], left, id);
    }
  }

  /** No other step looks at who left or at what was answered. */
  lemma ApplyAside(trial: Trial, s: State, e: Event, left: set<nat>, answers: seq<Answer>)
    requires Enabled(s, e) && !e.Leave?
    ensures var u := s.(left := left, answers := answers);
            && Enabled(u, e) && Answers(u, e) == Answers(s, e)
            && Apply(trial, u, e) == Apply(trial, s, e).(left := left, answers := answers)
  {
    hide Cached, Cache, Accepted, Remember, Median, Slice, Succeeds, Replied;
  }

  lemma EnabledAside(s: State, e: Event, left: set<nat>, answers: seq<Answer>)
    ensures Enabled(s.(left := left, answers := answers), e) <==> Enabled(s, e)
  {
    hide Accepted;
  }

  lemma SameAfter(trial: Trial, s: State, u: State, e: Event)
    requires SameButAnswers(s, u) && !e.Leave?
    ensures SameButAnswers(Next(trial, s, e), Next(trial, u, e))
  {
    hide Apply, Answers, Enabled, Stayed;
    EnabledAside(s, e, {}, u.answers);
    if Enabled(s, e) {
      ApplyAside(trial, s, e, {}, u.answers);
      StayedByAll(Answers(s, e));
      StayedOfBoth(u.answers, Answers(s, e), s.left);
      LeftIsKept(trial, s, e);
    }
  }

  lemma LeftIsKept(trial: Trial, s: State, e: Event)
    requires Enabled(s, e) && !e.Leave?
    ensures Apply(trial, s, e).left == s.left && Apply(trial, s, e).answers == s.answers
  {
    hide Cached, Cache, Accepted, Remember, Median, Slice, Succeeds;
  }

  lemma SameAfterLeave(trial: Trial, s: State, u: State, id: nat)
    requires SameButAnswers(s, u) && Settled(trial, u)
    ensures SameButAnswers(Next(trial, s, Leave(id)), u)
  {
    hide Stayed, RightAnswer;
    if id in s.batches {
      forall i | 0 <= i < |u.answers|
        ensures u.answers[i].caller != Some(id)
      {
        assert OwnAnswer(u, u.answers[i]);
      }
      LeftTooLate(u.answers, s.left, id);
      assert Answers(s, Leave(id)) == [];
      assert Stayed([], s.left) == [] by { StayedOfOne([], s.left); }
    }
  }

  /**
   * A caller that leaves gives up its own answer and changes nothing else: in every run the permit,
   * the jobs, the caches and the answers to everybody else are those of the run in which nobody leaves.
   */
  lemma {:induction false} LeavingChangesNothingElse(trial: Trial, workers: nat, events: seq<Event>)
    requires workers > 0
    ensures SameButAnswers(Run(trial, workers, events), Run(trial, workers, Staying(events)))
  {
    hide Next, SameButAnswers, Settled;
    if events == [] {
      assert SameButAnswers(Init(workers), Init(workers)) by { SameAtStart(workers); }
    } else {
      var n := |events| - 1;
      var s, u := Run(trial, workers, events[..n]), Run(trial, workers, Staying(events[..n]));
      LeavingChangesNothingElse(trial, workers, events[..n]);
      if events[n].Leave? {
        EveryCallerIsAnswered(trial, workers, Staying(events[..n]));
        SameAfterLeave(trial, s, u, events[n].batch);
        assert Staying(events) == Staying(events[..n]);
      } else {
        SameAfter(trial, s, u, events[n]);
        OneMoreEvent(trial, workers, Staying(events[..n]), events[n]);
      }
    }
  }

  lemma SameAtStart(workers: nat)
    ensures SameButAnswers(Init(workers), Init(workers))
  {
  }

  // ---------------------------------------------------------------- what is answered when nothing fails

  /** Requests of 1 to 64 ranges with bytes, at most 2^53 in all, split only beyond a first prefix. */
  lemma AcceptedRequests(key: Key)
    ensures Accepted(key) <==>
              && 1 <= |key| <= 64 && TotalBytes(key) <= 9_007_199_254_740_992
              && forall i :: 0 <= i < |key| ==> key[i].bytes > 0 && (key[i].split ==> key[i].bytes > 8192)
  {
  }

  /** A request is answered from the cache at once; a late one, or one that is not accepted, is answered with nothing. */
  lemma AskedAgain(trial: Trial, s: State, estimator: nat, key: Key, expired: bool)
    ensures var found := Cached(Cache(s.caches, estimator), key);
            var t := Next(trial, s, Ask(estimator, key, expired));
            && t == s.(answers := t.answers)
            && (expired || !Accepted(key) ==> t.answers == s.answers + [Answer(None, estimator, key, None)])
            && (!expired && Accepted(key) && found.Some? ==> t.answers == s.answers + [Answer(None, estimator, key, found)])
            && (!expired && Accepted(key) && found.None? ==> t.answers == s.answers)
  {
    hide Accepted, Cached, Cache;
    var e := Ask(estimator, key, expired);
    StayedOfOne(Answers(s, e), s.left);
  }

  /** A batch is started exactly by a caller who gets the permit in time and still finds nothing in the cache. */
  lemma WhenABatchStarts(trial: Trial, s: State, estimator: nat, key: Key, expired: bool)
    requires s.next !in s.batches
    ensures var t := Next(trial, s, Acquire(estimator, key, expired));
            (s.next in t.batches <==>
               s.holder.None? && Accepted(key) && !expired && Cached(Cache(s.caches, estimator), key).None?)
            && (s.next in t.batches ==>
                  t.holder == Some(s.next) && t.batches[s.next] == Batch(estimator, key, [], 0, [], true))
  {
    hide Accepted, Cached, Cache;
  }

  /** All workers live, and no reply of the batch is lost. */
  ghost predicate Healthy(s: State) {
    && (forall w :: 0 <= w < |s.alive| ==> s.alive[w])
    && (forall id :: id in s.batches ==> s.batches[id].complete && NoneLost(s.batches[id].replies))
  }

  ghost predicate NoneLost(replies: seq<Reply>) {
    forall i :: 0 <= i < |replies| ==> !replies[i].Lost?
  }

  /** The same batch for the same callers, a step further. */
  ghost predicate SameRequest(s: State, t: State, id: nat) {
    && id in s.batches && id in t.batches && t.batches[id].estimator == s.batches[id].estimator
    && t.batches[id].key == s.batches[id].key && t.answers == s.answers && t.left == s.left && t.caches == s.caches
    && t.holder == s.holder
  }

  lemma HealthyDispatch(trial: Trial, workers: nat, s: State, id: nat)
    requires Inv(trial, workers, s) && Healthy(s) && s.holder == Some(id) && Enabled(s, Dispatch(id))
    ensures Healthy(Apply(trial, s, Dispatch(id))) && SameRequest(s, Apply(trial, s, Dispatch(id)), id)
  {
    hide Cached, Cache, Accepted, Slice, GoodCache, Collected;
    assert GoodBatch(trial, workers, s.batches[id]) && Worker(s, |s.batches[id].replies|);
  }

  lemma HealthyFinish(trial: Trial, workers: nat, s: State, worker: nat, id: nat)
    requires Inv(trial, workers, s) && Healthy(s) && s.holder == Some(id) && Enabled(s, Finish(worker, false))
    ensures Healthy(Apply(trial, s, Finish(worker, false))) && SameRequest(s, Apply(trial, s, Finish(worker, false)), id)
  {
    hide Cached, Cache, Accepted, Slice, GoodCache, Collected, GoodBatch;
    assert Worker(s, worker);
  }

  lemma HealthyDrain(trial: Trial, workers: nat, s: State, id: nat)
    requires Inv(trial, workers, s) && Healthy(s) && s.holder == Some(id) && Enabled(s, Drain(id))
    ensures Healthy(Apply(trial, s, Drain(id))) && SameRequest(s, Apply(trial, s, Drain(id)), id)
  {
    hide Cached, Cache, Accepted, Slice, GoodCache, Collected, Worker;
    assert GoodBatch(trial, workers, s.batches[id]);
  }

  lemma HealthyStep(trial: Trial, workers: nat, s: State, e: Event, id: nat)
    requires Inv(trial, workers, s) && Healthy(s) && s.holder == Some(id) && Enabled(s, e)
    requires Progress(e) && (e.Finish? ==> !e.panicked)
    ensures Healthy(Next(trial, s, e)) && SameRequest(s, Next(trial, s, e), id)
  {
    hide Cached, Cache, Accepted, Slice, GoodCache, Collected, GoodBatch, Worker;
    HolderBounds(trial, workers, s);
    assert Answers(s, e) == [];
    StayedOfOne([], s.left);
    match e
    case Dispatch(batch) => HealthyDispatch(trial, workers, s, batch);
    case Finish(w, _) => HealthyFinish(trial, workers, s, w, id);
    case Drain(batch) => HealthyDrain(trial, workers, s, batch);
    case _ =>
  }

  /** A batch that loses nothing collects all its trials. */
  lemma HealthyClose(trial: Trial, workers: nat, s: State, id: nat)
    requires Inv(trial, workers, s) && Healthy(s) && s.holder == Some(id) && Enabled(s, Close(id))
    ensures var batch, t := s.batches[id], Next(trial, s, Close(id));
            && t.holder.None? && t.left == s.left
            && t.answers == s.answers + Stayed([Answer(Some(id), batch.estimator, batch.key,
                                                       Some(Extra(trial, batch.estimator, batch.key)))], s.left)
            && Cache(t.caches, batch.estimator)
               == Remember(Cache(s.caches, batch.estimator), Entry(batch.key, Extra(trial, batch.estimator, batch.key)))
  {
    hide Cached, Accepted, Slice, GoodCache, Remember, Extra, Median, Stayed, Worker;
    var batch := s.batches[id];
    assert GoodBatch(trial, workers, batch);
    AllCollected(trial, workers, batch);
    SuccessIsExtra(trial, workers, batch);
  }

  lemma AllCollected(trial: Trial, workers: nat, batch: Batch)
    requires workers > 0 && GoodBatch(trial, workers, batch) && batch.complete && batch.drained == workers
    ensures Succeeds(batch)
  {
    hide Slice;
    SlicesInOrder(workers - 1, workers);
  }

  /**
   * Unless a worker dies or panics, the caller who started a batch is answered with the value of its
   * trials, and the value is remembered.
   */
  lemma {:induction false} HealthyBatchSucceeds(trial: Trial, workers: nat, events: seq<Event>, id: nat)
    returns (more: seq<Event>)
    requires workers > 0 && Run(trial, workers, events).holder == Some(id) && Healthy(Run(trial, workers, events))
    ensures var s, t := Run(trial, workers, events), Run(trial, workers, events + more);
            && id in s.batches && t.holder.None?
            && var Batch(estimator, key, _, _, _, _) := s.batches[id];
               && t.answers == s.answers + Stayed([Answer(Some(id), estimator, key, Some(Extra(trial, estimator, key)))], s.left)
               && Cache(t.caches, estimator)
                  == Remember(Cache(s.caches, estimator), Entry(key, Extra(trial, estimator, key)))
    decreases StepsLeft(Run(trial, workers, events))
  {
    hide Run, Next, StepsLeft, Enabled, Inv, Remember, Extra, Stayed, Cache, Healthy;
    var s := Run(trial, workers, events);
    EveryRunKeeps(trial, workers, events);
    HolderBounds(trial, workers, s);
    StepsLeftInOrder(trial, workers, events);
    var e := NeverStuck(trial, workers, events);
    OneMoreEvent(trial, workers, events, e);
    if e == Close(id) {
      more := [e];
      HealthyClose(trial, workers, s, id);
    } else {
      ProgressKeepsHolder(trial, s, e);
      ProgressEnds(trial, workers, events, e);
      HealthyStep(trial, workers, s, e, id);
      var rest := HealthyBatchSucceeds(trial, workers, events + [e], id);
      more := [e] + rest;
      assert events + more == events + [e] + rest;
    }
  }

  /** A remembered value is found again; of 128 others only the oldest is forgotten. */
  lemma RememberedIsFound(cache: seq<Entry>, key: Key, extra: real)
    requires Cached(cache, key).None?
    ensures var after := Remember(cache, Entry(key, extra));
            && Cached(after, key) == Some(extra)
            && (|cache| != 128 ==> forall i :: 0 <= i < |cache| ==> cache[i] in after)
            && (|cache| == 128 ==> forall i :: 1 <= i < |cache| ==> cache[i] in after)
  {
    hide Cached;
    var after := Remember(cache, Entry(key, extra));
    var n := |after| - 1;
    assert after[n] == Entry(key, extra);
    forall i | 0 <= i < n
      ensures after[i].key != key
    {
      NotCached(cache, key);
      assert after[i] in cache;
    }
    FoundLast(after, key);
    forall i | 1 <= i < |cache|
      ensures cache[i] in after
    {
      assert if |cache| == CACHE_ENTRIES then after[i - 1] == cache[i] else after[i] == cache[i];
    }
    if |cache| != 128 && cache != [] {
      assert after[0] == cache[0];
    }
  }

  lemma NotCached(cache: seq<Entry>, key: Key)
    requires Cached(cache, key).None?
    ensures forall entry :: entry in cache ==> entry.key != key
  {
  }

  lemma {:induction false} FoundLast(cache: seq<Entry>, key: Key)
    requires cache != [] && cache[|cache| - 1].key == key
    requires forall i :: 0 <= i < |cache| - 1 ==> cache[i].key != key
    ensures Cached(cache, key) == Some(cache[|cache| - 1].extra)
  {
    if |cache| > 1 {
      FoundLast(cache[1..], key);
    }
  }

  // ---------------------------------------------------------------- the simulator behind the trials

  const DURATIONS: nat := 192

  const MAX_DURATION: nat := 10_000_000_000

  datatype Calibration = Calibration(bytesPerSecond: nat, durations: seq<nat>) {
    predicate Valid() {
      && bytesPerSecond > 0 && |durations| == DURATIONS
      && forall i :: 0 <= i < |durations| ==> 0 < durations[i] <= MAX_DURATION
    }
  }

  /** Only valid calibrations make an estimator. */
  type Profile = c: Calibration | c.Valid() witness Calibration(1, seq(DURATIONS, _ => 1))

  /** The pool's trials are the simulator's, each estimator with its own profile. */
  ghost function SimulatedTrial(mix: Mix, profiles: nat -> Profile): Trial
  {
    (e: nat, key: Key, t: nat) =>
      if Accepted(key) then TrialCost(mix, profiles(e).durations, key, Bandwidth(profiles(e).bytesPerSecond), t) else 0.0
  }

  ghost function TrialCosts(mix: Mix, profile: Profile, key: Key): (r: seq<real>)
    requires Accepted(key)
    ensures |r| == TRIALS
  {
    seq(TRIALS, t requires 0 <= t < TRIALS =>
      TrialCost(mix, profile.durations, key, Bandwidth(profile.bytesPerSecond), t))
  }

  /** What a worker computes for a job is the slice that the pool expects of it. */
  method WorkerReply(mix: Mix, profiles: nat -> Profile, job: Job, worker: nat, workers: nat) returns (costs: seq<real>)
    requires worker < workers && Accepted(job.key)
    ensures costs == Slice(SimulatedTrial(mix, profiles), job.estimator, job.key, worker, workers)
  {
    hide TrialCost, Accepted, Bandwidth, SliceStart;
    assert ValidRequests(job.key) by { AcceptedIsValid(job.key); }
    SlicesInOrder(worker, workers);
    var profile := profiles(job.estimator);
    var first := SliceStart(worker, workers);
    costs := ExtraCosts.ExtraCosts(mix, profile.durations, job.key, profile.bytesPerSecond, first,
                                   SliceStart(worker + 1, workers) - first);
  }

  lemma AcceptedIsValid(key: Key)
    requires Accepted(key)
    ensures ValidRequests(key)
  {
  }

  lemma ExtraIsSimulated(mix: Mix, profiles: nat -> Profile, estimator: nat, key: Key)
    requires Accepted(key)
    ensures Extra(SimulatedTrial(mix, profiles), estimator, key) == Median(TrialCosts(mix, profiles(estimator), key))
  {
    hide Median, TrialCost, Accepted, Bandwidth;
    AcceptedIsValid(key);
    assert Trials(SimulatedTrial(mix, profiles), estimator, key, 0, TRIALS) == TrialCosts(mix, profiles(estimator), key);
  }

  /** Every value that a caller receives is the median of the simulated costs of its own ranges and profile. */
  lemma AnswersAreSimulated(mix: Mix, profiles: nat -> Profile, workers: nat, events: seq<Event>, i: nat)
    requires workers > 0
    requires i < |Run(SimulatedTrial(mix, profiles), workers, events).answers|
    ensures var a := Run(SimulatedTrial(mix, profiles), workers, events).answers[i];
            a.extra.Some? ==>
              Accepted(a.key) && a.extra.value == Median(TrialCosts(mix, profiles(a.estimator), a.key))
  {
    hide Median, Extra, TrialCosts, SimulatedTrial, Run, Accepted;
    var trial := SimulatedTrial(mix, profiles);
    EveryCallerIsAnswered(trial, workers, events);
    var a := Run(trial, workers, events).answers[i];
    assert RightAnswer(trial, a);
    if a.extra.Some? {
      ExtraIsSimulated(mix, profiles, a.estimator, a.key);
    }
  }
}
