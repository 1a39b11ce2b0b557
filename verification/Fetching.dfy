/** Extending the known prefix of one page: the cache, the budget shared with other pages, and the store. */
module Fetching {
  import opened Bytes
  import opened ObjectStore
  import opened ProbeBudgets
  import opened Spans

  /** Consecutive, non-empty extensions from `start` to `end`. */
  ghost predicate Consecutive(fetched: seq<Span>, start: nat, end: nat) {
    if fetched == [] then start == end
    else
      var last := fetched[|fetched| - 1];
      last.start < last.end == end && Consecutive(fetched[..|fetched| - 1], start, last.start)
  }

  lemma NoFetches(at: nat)
    ensures Consecutive([], at, at)
  {
  }

  lemma OneMoreFetch(fetched: seq<Span>, start: nat, held: nat, end: nat)
    requires Consecutive(fetched, start, held) && held < end
    ensures Consecutive(fetched + [Span(held, end)], start, end)
  {
    assert (fetched + [Span(held, end)])[..|fetched|] == fetched;
  }

  /** Reservation `log[at]` was granted, for exactly the bytes of `span` in round `round`. */
  ghost predicate ChargedAt(terms: Terms, start: Account, log: seq<Reservation>, at: nat, round: nat, span: Span) {
    && at < |log| && log[at] == Reservation(round, Length(span), 1)
    && Granted(terms, AfterAll(terms, start, log[..at]), log[at])
  }

  /** Extension `k` of the page is charged to round `k + 1`. */
  ghost predicate AllCharged(terms: Terms, start: Account, log: seq<Reservation>, fetched: seq<Span>, places: seq<nat>) {
    |places| == |fetched|
    && forall k :: 0 <= k < |fetched| ==> ChargedAt(terms, start, log, places[k], k + 1, fetched[k])
  }

  lemma StillCharged(terms: Terms, start: Account, log: seq<Reservation>, more: seq<Reservation>, fetched: seq<Span>,
                     places: seq<nat>)
    requires AllCharged(terms, start, log, fetched, places)
    ensures AllCharged(terms, start, log + more, fetched, places)
  {
    forall k | 0 <= k < |fetched|
      ensures ChargedAt(terms, start, log + more, places[k], k + 1, fetched[k])
    {
      assert ChargedAt(terms, start, log, places[k], k + 1, fetched[k]);
      assert (log + more)[..places[k]] == log[..places[k]];
    }
  }

  lemma OneMoreCharged(terms: Terms, start: Account, log: seq<Reservation>, fetched: seq<Span>, places: seq<nat>,
                       span: Span)
    requires AllCharged(terms, start, log, fetched, places)
    requires Granted(terms, AfterAll(terms, start, log), Reservation(|fetched| + 1, Length(span), 1))
    ensures AllCharged(terms, start, log + [Reservation(|fetched| + 1, Length(span), 1)], fetched + [span],
                       places + [|log|])
  {
    hide Granted, AfterAll;
    var own := Reservation(|fetched| + 1, Length(span), 1);
    StillCharged(terms, start, log, [own], fetched, places);
    assert (log + [own])[..|log|] == log;
    assert ChargedAt(terms, start, log + [own], |log|, |fetched| + 1, span);
  }

  /** Every charged round exists in the budget. */
  lemma ChargedRounds(terms: Terms, start: Account, log: seq<Reservation>, fetched: seq<Span>, places: seq<nat>)
    requires AllCharged(terms, start, log, fetched, places) && |start.rounds| == ROUNDS && Affordable(terms, start)
    ensures |fetched| < 9
  {
    if fetched != [] {
      var k := |fetched| - 1;
      assert ChargedAt(terms, start, log, places[k], k + 1, fetched[k]);
      AnyOrderIsSafe(terms, start, log[..places[k]]);
    }
  }

  lemma AfterOneMore(terms: Terms, start: Account, log: seq<Reservation>, r: Reservation)
    ensures AfterAll(terms, start, log + [r]) == After(terms, AfterAll(terms, start, log), r)
  {
    assert (log + [r])[..|log|] == log;
  }

  /** The extensions of one page, everything that was asked of the budget meanwhile, and where they stand in that. */
  datatype Trace = Trace(fetched: seq<Span>, log: seq<Reservation>, places: seq<nat>)

  /**
   * The page grew from `initial` to `held` bytes by consecutive extensions, extension `k` of them was
   * granted and charged to round `k + 1`, and the budget is at `end` after everything asked of it.
   */
  ghost predicate Paid(terms: Terms, start: Account, end: Account, t: Trace, initial: nat, held: nat) {
    && Consecutive(t.fetched, initial, held) && AllCharged(terms, start, t.log, t.fetched, t.places)
    && end == AfterAll(terms, start, t.log) && |t.fetched| < 9
  }

  /** The last thing asked of the budget was refused. */
  ghost predicate Refused(terms: Terms, start: Account, log: seq<Reservation>) {
    log != [] && !Granted(terms, AfterAll(terms, start, log[..|log| - 1]), log[|log| - 1])
  }

  /** What one page's discovery remembers between its requests. */
  class Fetcher {
    const store: Store
    const at: nat // where the page body starts in the file
    const budget: ProbeBudget
    const others: nat -> seq<Reservation> // what other pages ask of the budget before each request of this one
    var cached: seq<Byte>
    var rounds: nat
    ghost const initial: seq<Byte>
    ghost const start: Account // the budget at the beginning
    ghost var fetched: seq<Span> // the extensions so far
    ghost var log: seq<Reservation> // everything asked of the budget since the beginning
    ghost var places: seq<nat> // where in the log the extensions were charged

    ghost predicate Valid()
      reads this, budget, budget.rounds
    {
      && budget.Valid() && |start.rounds| == ROUNDS && Affordable(budget.terms, start)
      && budget.Contents() == AfterAll(budget.terms, start, log)
      && rounds == |fetched| + 1
      && initial <= cached && Consecutive(fetched, |initial|, |cached|)
      && AllCharged(budget.terms, start, log, fetched, places)
    }

    constructor (store: Store, at: nat, budget: ProbeBudget, others: nat -> seq<Reservation>, initial: seq<Byte>)
      requires budget.Valid()
      ensures Valid() && this.store == store && this.at == at && this.budget == budget && this.others == others
      ensures cached == this.initial == initial && fetched == [] && start == old(budget.Contents())
    {
      this.store, this.at, this.budget, this.others := store, at, budget, others;
      this.cached, this.rounds := initial, 1;
      this.initial, this.start := initial, budget.Contents();
      this.fetched, this.log, this.places := [], [], [];
      new;
      NoFetches(|initial|);
    }

    ghost function History(): Trace
      reads this
    {
      Trace(fetched, log, places)
    }

    /** Extensions are charged to the rounds 1, 2, ..., all of which the budget has. */
    lemma RoundsExist()
      requires Valid()
      ensures budget.Valid() && initial <= cached
      ensures Paid(budget.terms, start, budget.Contents(), History(), |initial|, |cached|)
    {
      ChargedRounds(budget.terms, start, log, fetched, places);
    }

    /** Other pages' turns at the shared budget. */
    method OthersReserve(turns: seq<Reservation>)
      requires Valid()
      modifies this`log, budget, budget.rounds
      ensures Valid() && log == old(log) + turns
    {
      hide Consecutive, Affordable, Granted, After, AfterAll, ProbeBudget.Valid, AllCharged;
      for i := 0 to |turns|
        invariant Valid() && log == old(log) + turns[..i]
      {
        var granted := Turn(turns[i].round, turns[i].bytes, turns[i].requests);
        assert turns[..i + 1] == turns[..i] + [turns[i]];
      }
      assert turns[..|turns|] == turns;
    }

    /** One reservation, by this page or another one. */
    method Turn(round: nat, bytes: nat, requests: nat) returns (granted: bool)
      requires Valid()
      modifies this`log, budget, budget.rounds
      ensures Valid() && log == old(log) + [Reservation(round, bytes, requests)]
      ensures granted <==>
                Granted(budget.terms, AfterAll(budget.terms, start, old(log)), Reservation(round, bytes, requests))
    {
      hide Consecutive, Affordable, Granted, After, AfterAll, AllCharged;
      granted := budget.Reserve(round, bytes, requests);
      AfterOneMore(budget.terms, start, log, Reservation(round, bytes, requests));
      StillCharged(budget.terms, start, log, [Reservation(round, bytes, requests)], fetched, places);
      log := log + [Reservation(round, bytes, requests)];
    }

    /**
     * Answers a request for `from..end` of the page body. What the cache does not reach is reserved in
     * the next round, read from where the cache ends, and added to it; otherwise the cache answers alone.
     */
    method Fetch(from: nat, end: nat) returns (r: Result<seq<Byte>>)
      requires Valid() && from <= end
      modifies this, budget, budget.rounds
      ensures Valid() && old(cached) <= cached
      ensures r.Ok? ==> end <= |cached| && r.value == cached[from..end]
      ensures end <= old(|cached|) ==>
                r.Ok? && cached == old(cached) && fetched == old(fetched) && log == old(log)
                && budget.Contents() == old(budget.Contents())
      ensures r.Ok? && end > old(|cached|) ==>
                && ReadFrom(store, at, old(|cached|), end) == Ok(cached[old(|cached|)..]) && |cached| == end
                && fetched == old(fetched) + [Span(old(|cached|), end)]
      ensures r.Err? ==> cached == old(cached) && fetched == old(fetched)
      ensures r.Err? ==>
                || (r == Err(Fallback(ModeledBudget)) && Refused(budget.terms, start, log))
                || (r == Err(Io) && ReadFrom(store, at, old(|cached|), end).Err?)
    {
      hide Consecutive, Affordable, Granted, After, AfterAll, ProbeBudget.Valid, AllCharged, ReadFrom;
      var begin := |cached|;
      if end > begin {
        OthersReserve(others(rounds));
        ghost var before := log;
        assert AllCharged(budget.terms, start, before, fetched, places);
        var granted := Turn(rounds, end - begin, 1);
        if !granted {
          assert log[..|log| - 1] == before;
          return Err(Fallback(ModeledBudget));
        }
        var bytes := ReadFrom(store, at, begin, end);
        if bytes.Err? {
          return bytes;
        }
        ghost var span := Span(begin, end);
        OneMoreCharged(budget.terms, start, before, fetched, places, span);
        OneMoreFetch(fetched, |initial|, begin, end);
        cached := cached + bytes.value;
        rounds := rounds + 1;
        fetched := fetched + [span];
        places := places + [|before|];
        assert cached[begin..] == bytes.value;
      }
      r := Ok(cached[from..end]);
    }
  }
}
