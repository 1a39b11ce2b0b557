/** Bounded discovery: parse a growing prefix of a page body until its structure is known. */
module Discovery {
  import opened Bytes
  import opened ExactRanges
  import opened Fetching
  import opened Numbers
  import opened ObjectStore
  import opened PageValues
  import opened ProbeBudgets
  import opened Spans

  const MAX_PAGE_BYTES: nat := 8 * 1024 * 1024
  const MAX_ROWS: nat := 1024 * 1024
  const MAX_PREFIX_BYTES: nat := 1024 * 1024
  const MAX_PROBES: nat := 9
  const INITIAL_PREFIX: nat := 4096

  datatype Plan = Plan(prefix: seq<Byte>, ranges: seq<Span>, payloadStart: nat, selectedBytes: nat, probes: nat)

  /** Responses of the requested size hold the bytes of the body, which starts at `at`. */
  ghost predicate Honest(store: Store, at: nat, body: seq<Byte>) {
    forall start: nat, end: nat :: start <= end <= |body| && ReadFrom(store, at, start, end).Ok? ==>
      ReadFrom(store, at, start, end).value == body[start..end]
  }

  /** What is left of a range once the first `held` bytes are there. */
  function Trimmed(span: Span, held: nat): Span {
    Span(Min(Max(span.start, held), span.end), span.end)
  }

  function Rest(spans: seq<Span>, held: nat): (r: seq<Span>)
    ensures |r| <= |spans|
  {
    if spans == [] then []
    else
      var last := Trimmed(spans[|spans| - 1], held);
      Rest(spans[..|spans| - 1], held) + (if last.start < last.end then [last] else [])
  }

  /** The rest covers exactly the bytes of the ranges that are not held yet. */
  lemma {:induction false} RestCovers(spans: seq<Span>, held: nat, b: int)
    ensures Covered(Rest(spans, held), b) <==> Covered(spans, b) && b >= held
  {
    if spans != [] {
      var n := |spans| - 1;
      RestCovers(spans[..n], held, b);
      assert spans == spans[..n] + [spans[n]];
      CoveredByEither(spans[..n], [spans[n]], b);
      var last := Trimmed(spans[n], held);
      CoveredByEither(Rest(spans[..n], held), if last.start < last.end then [last] else [], b);
      CoveredAlone(spans[n], b);
      CoveredAlone(last, b);
    }
  }

  lemma {:induction false} RestEndsBefore(spans: seq<Span>, held: nat, low: nat, high: nat)
    requires Separated(spans, low, high) && spans != []
    ensures forall i :: 0 <= i < |Rest(spans, held)| ==> Rest(spans, held)[i].end <= spans[|spans| - 1].end
  {
    var n := |spans| - 1;
    if n > 0 {
      RestEndsBefore(spans[..n], held, low, high);
      assert spans[..n][n - 1].end < spans[n].start;
    }
  }

  lemma SeparatedBeforeLast(spans: seq<Span>, low: nat, high: nat)
    requires Separated(spans, low, high) && spans != []
    ensures var n := |spans| - 1;
            && Separated(spans[..n], low, high) && low <= spans[n].start < spans[n].end <= high
            && (n > 0 ==> spans[n - 1].end < spans[n].start)
  {
  }

  lemma NoneSeparated(low: nat, high: nat)
    ensures Separated([], low, high)
  {
  }

  lemma {:induction false} RestSeparated(spans: seq<Span>, held: nat, low: nat, high: nat)
    requires Separated(spans, low, high)
    ensures Separated(Rest(spans, held), Max(low, held), high)
  {
    hide Separated;
    if spans == [] {
      NoneSeparated(Max(low, held), high);
    } else {
      var n := |spans| - 1;
      SeparatedBeforeLast(spans, low, high);
      RestSeparated(spans[..n], held, low, high);
      if n > 0 {
        RestEndsBefore(spans[..n], held, low, high);
        assert spans[..n][n - 1] == spans[n - 1];
      }
      var before, last := Rest(spans[..n], held), Trimmed(spans[n], held);
      if last.start < last.end {
        SeparatedPlus(before, last, Max(low, held), high);
      } else {
        assert before + [] == before;
      }
    }
  }

  lemma SeparatedPlus(spans: seq<Span>, last: Span, low: nat, high: nat)
    requires Separated(spans, low, high) && low <= last.start < last.end <= high
    requires forall i :: 0 <= i < |spans| ==> spans[i].end < last.start
    ensures Separated(spans + [last], low, high)
  {
  }

  // ---------------------------------------------------------------- the program

  /** Some request inside the page fails at the store. */
  ghost predicate FetchFails(store: Store, at: nat, pageBytes: nat) {
    exists start: nat, end: nat :: start <= end <= pageBytes && ReadFrom(store, at, start, end).Err?
  }

  /** How far a prefix of `held` bytes grows when a parse asks for `end` bytes. */
  function Target(held: nat, end: nat, pageBytes: nat): nat {
    Min(Min(Max(Max(end, INITIAL_PREFIX), 2 * held), pageBytes), MAX_PREFIX_BYTES)
  }

  /** The parse of what is held asks for a byte beyond 1 MiB, or the nine probes are used up. */
  ghost predicate Exhausted(initial: nat, fetches: nat, cached: seq<Byte>, pageBytes: nat, rows: nat, nullable: bool,
                            selected: seq<nat>) {
    || initial > 1_048_576
    || match ValueRanges(cached, pageBytes, rows, nullable, selected)
       case Err(NeedBytes(end)) =>
         end <= pageBytes
         && (end > 1_048_576
             || (fetches + (if initial == 0 then 0 else 1) == 9 && 0 < initial < 4096 && pageBytes > 524_288))
       case _ => false
  }

  /**
   * Why a page is turned away: it is outside the limits, discovery is exhausted, the budget refused the last
   * extension, or the parse of what is held says so.
   */
  ghost predicate TurnedAway(reason: Reason, initial: nat, cached: seq<Byte>, t: Trace, terms: Terms, start: Account,
                             pageBytes: nat, rows: nat, nullable: bool, selected: seq<nat>) {
    || (reason == PageSizeOrRowCount && (pageBytes > 8_388_608 || rows > 1_048_576))
    || (reason == DiscoveryBudget && Exhausted(initial, |t.fetched|, cached, pageBytes, rows, nullable, selected))
    || (reason == ModeledBudget && Refused(terms, start, t.log))
    || ValueRanges(cached, pageBytes, rows, nullable, selected) == Err(Fallback(reason))
  }

  /** Bytes held after `fetches` fetches, at the least. */
  function Least(initial: nat, fetches: nat, pageBytes: nat): nat {
    var doublings := if initial >= INITIAL_PREFIX then fetches else if fetches == 0 then 0 else fetches - 1;
    if initial < INITIAL_PREFIX && fetches == 0 then initial
    else Min(Min(INITIAL_PREFIX * Pow2(doublings), pageBytes), MAX_PREFIX_BYTES)
  }

  /** The page's own bytes are what is held at first and what fetches deliver. */
  ghost predicate Faithful(pageBytes: nat, initial: seq<Byte>, store: Store, at: nat, body: seq<Byte>) {
    |body| == pageBytes && initial <= body && Honest(store, at, body)
  }

  predicate WellFormed(pageBytes: nat, rows: nat, selected: seq<nat>) {
    pageBytes <= MAX_PAGE_BYTES && rows <= MAX_ROWS && Ascending(selected)
    && (selected != [] ==> selected[|selected| - 1] < rows)
  }

  /** Every probe grows the prefix and at least doubles it, within the page and the limit. */
  lemma TargetGrows(initial: nat, fetches: nat, held: nat, end: nat, pageBytes: nat)
    requires held < end <= pageBytes && end <= MAX_PREFIX_BYTES
    requires held >= Least(initial, fetches, pageBytes)
    ensures held < Target(held, end, pageBytes) <= pageBytes
    ensures end <= Target(held, end, pageBytes) <= MAX_PREFIX_BYTES
    ensures Target(held, end, pageBytes) >= Min(Min(2 * held, pageBytes), MAX_PREFIX_BYTES)
    ensures Target(held, end, pageBytes) <= Max(Max(4096, 2 * held), end)
    ensures Target(held, end, pageBytes) >= Least(initial, fetches + 1, pageBytes)
  {
    assert Pow2(0) == 1;
  }

  lemma {:induction false} AdjacentAscend(selected: seq<nat>, k: nat)
    requires k <= |selected| && forall i :: 0 < i < |selected| ==> selected[i - 1] < selected[i]
    ensures forall i, j :: 0 <= i < j < k ==> selected[i] < selected[j]
    ensures k == |selected| ==> Ascending(selected)
  {
    if k > 0 {
      AdjacentAscend(selected, k - 1);
      assert k > 1 ==> selected[k - 2] < selected[k - 1];
    }
  }

  lemma AscendingAdjacent(selected: seq<nat>)
    ensures Ascending(selected) ==> forall i :: 0 < i < |selected| ==> selected[i - 1] < selected[i]
  {
  }

  /** Within the limits, the two checks of the selection are all that is left to check. */
  lemma SelectionChecked(pageBytes: nat, rows: nat, selected: seq<nat>)
    ensures WellFormed(pageBytes, rows, selected) <==>
              && pageBytes <= MAX_PAGE_BYTES && rows <= MAX_ROWS
              && !(selected != [] && selected[|selected| - 1] >= rows)
              && !(exists i :: 0 < i < |selected| && selected[i - 1] >= selected[i])
  {
    hide Ascending;
    AscendingAdjacent(selected);
    if forall i :: 0 < i < |selected| ==> selected[i - 1] < selected[i] {
      AdjacentAscend(selected, |selected|);
    }
  }

  lemma FaithfulAtStart(pageBytes: nat, initial: seq<Byte>, store: Store, at: nat, body: seq<Byte>)
    ensures Faithful(pageBytes, initial, store, at, body) ==> |body| == pageBytes && initial <= body
  {
  }

  /** What a faithful store delivers extends the held prefix of the body. */
  lemma FaithfulFetch(pageBytes: nat, initial: seq<Byte>, store: Store, at: nat, body: seq<Byte>, held: seq<Byte>, end: nat)
    requires |held| <= end <= pageBytes
    ensures Faithful(pageBytes, initial, store, at, body) && held <= body && ReadFrom(store, at, |held|, end).Ok? ==>
              held + ReadFrom(store, at, |held|, end).value <= body
  {
  }

  lemma FailedFetch(store: Store, at: nat, pageBytes: nat, start: nat, end: nat)
    requires start <= end <= pageBytes && ReadFrom(store, at, start, end).Err?
    ensures FetchFails(store, at, pageBytes)
  {
  }

  lemma LeastAtStart(initial: nat, pageBytes: nat)
    requires initial <= Min(pageBytes, MAX_PREFIX_BYTES)
    ensures initial >= Least(initial, 0, pageBytes)
  {
    assert Pow2(0) == 1;
  }

  lemma LeastAtLimit(initial: nat, fetches: nat, pageBytes: nat)
    requires fetches == (if initial == 0 then 9 else 8)
    ensures initial == 0 || initial >= INITIAL_PREFIX ==>
              Least(initial, fetches, pageBytes) == Min(pageBytes, MAX_PREFIX_BYTES)
    ensures Least(initial, fetches, pageBytes) >= Min(pageBytes, MAX_PREFIX_BYTES / 2)
  {
    assert Pow2(8) == 256 && Pow2(7) == 128;
  }

  /**
   * The extension was made because the bytes held then asked for more, and it went no further than to 4096,
   * to twice what was held, or to what was asked for.
   */
  ghost predicate Needed(span: Span, cached: seq<Byte>, pageBytes: nat, rows: nat, nullable: bool, selected: seq<nat>) {
    && span.start <= |cached|
    && match ValueRanges(cached[..span.start], pageBytes, rows, nullable, selected)
       case Err(NeedBytes(end)) => end <= span.end <= Max(Max(4096, 2 * span.start), end)
       case _ => false
  }

  ghost predicate AllNeeded(fetched: seq<Span>, cached: seq<Byte>, pageBytes: nat, rows: nat, nullable: bool,
                            selected: seq<nat>) {
    forall k :: 0 <= k < |fetched| ==> Needed(fetched[k], cached, pageBytes, rows, nullable, selected)
  }

  lemma OneMoreNeeded(fetched: seq<Span>, held: seq<Byte>, cached: seq<Byte>, end: nat, asked: nat, pageBytes: nat, rows: nat,
                      nullable: bool, selected: seq<nat>)
    requires AllNeeded(fetched, held, pageBytes, rows, nullable, selected) && held <= cached
    requires ValueRanges(held, pageBytes, rows, nullable, selected) == Err(NeedBytes(asked))
    requires asked <= end <= Max(Max(4096, 2 * |held|), asked)
    ensures AllNeeded(fetched + [Span(|held|, end)], cached, pageBytes, rows, nullable, selected)
  {
    hide ValueRanges;
    var more := fetched + [Span(|held|, end)];
    forall k | 0 <= k < |more|
      ensures Needed(more[k], cached, pageBytes, rows, nullable, selected)
    {
      if k < |fetched| {
        assert Needed(fetched[k], held, pageBytes, rows, nullable, selected);
        assert cached[..fetched[k].start] == held[..fetched[k].start];
      } else {
        assert cached[..|held|] == held;
      }
    }
  }

  /** No more than twice the levels and lengths is ever held, beyond what was held at first and 4096 bytes. */
  lemma LittleIsHeld(fetched: seq<Span>, initial: nat, cached: seq<Byte>, pageBytes: nat, rows: nat, nullable: bool,
                     selected: seq<nat>)
    requires Consecutive(fetched, initial, |cached|)
    requires AllNeeded(fetched, cached, pageBytes, rows, nullable, selected)
    requires ValueRanges(cached, pageBytes, rows, nullable, selected).Ok?
    ensures |cached| <= Max(Max(initial, 4096), 2 * ValueRanges(cached, pageBytes, rows, nullable, selected).value.start)
  {
    hide ValueRanges;
    if fetched != [] {
      var last := fetched[|fetched| - 1];
      assert Needed(last, cached, pageBytes, rows, nullable, selected);
      ValueRangesAgree(cached[..last.start], cached, pageBytes, rows, nullable, selected);
    }
  }

  /** The parse of the held prefix, which is all that was fetched, and no more than twice its levels and lengths. */
  ghost predicate PlanOf(plan: Plan, initial: nat, fetches: nat, cached: seq<Byte>, pageBytes: nat, rows: nat, nullable: bool,
                         selected: seq<nat>)
  {
    && plan.prefix == cached && |cached| <= Min(pageBytes, 1_048_576)
    && plan.probes == fetches + (if initial == 0 then 0 else 1)
    && |cached| <= Max(Max(initial, 4096), 2 * plan.payloadStart)
    && var whole := ValueRanges(cached, pageBytes, rows, nullable, selected);
       whole.Ok? && plan.payloadStart == whole.value.start
       && plan.ranges == Rest(whole.value.spans, |cached|)
       && plan.selectedBytes == SpanBytes(whole.value.spans)
  }

  lemma PlanFound(fetched: seq<Span>, initial: nat, cached: seq<Byte>, pageBytes: nat, rows: nat, nullable: bool,
                  selected: seq<nat>, probes: nat)
    requires Consecutive(fetched, initial, |cached|) && |cached| <= Min(pageBytes, 1_048_576)
    requires AllNeeded(fetched, cached, pageBytes, rows, nullable, selected)
    requires probes == |fetched| + (if initial == 0 then 0 else 1)
    requires ValueRanges(cached, pageBytes, rows, nullable, selected).Ok?
    ensures var Payload(start, spans) := ValueRanges(cached, pageBytes, rows, nullable, selected).value;
            PlanOf(Plan(cached, Rest(spans, |cached|), start, SpanBytes(spans), probes), initial, |fetched|, cached, pageBytes,
                   rows, nullable, selected)
  {
    hide ValueRanges, Consecutive, AllNeeded;
    LittleIsHeld(fetched, initial, cached, pageBytes, rows, nullable, selected);
  }

  lemma OutsideLimits(initial: nat, cached: seq<Byte>, t: Trace, terms: Terms, start: Account, pageBytes: nat, rows: nat,
                      nullable: bool, selected: seq<nat>)
    ensures pageBytes > 8_388_608 || rows > 1_048_576 ==>
              TurnedAway(PageSizeOrRowCount, initial, cached, t, terms, start, pageBytes, rows, nullable, selected)
    ensures initial > 1_048_576 ==>
              TurnedAway(DiscoveryBudget, initial, cached, t, terms, start, pageBytes, rows, nullable, selected)
  {
  }

  lemma ParseSays(initial: nat, cached: seq<Byte>, t: Trace, terms: Terms, start: Account, pageBytes: nat, rows: nat,
                  nullable: bool, selected: seq<nat>)
    ensures var parsed := ValueRanges(cached, pageBytes, rows, nullable, selected);
            parsed.Err? && parsed.error.Fallback? ==>
              TurnedAway(parsed.error.reason, initial, cached, t, terms, start, pageBytes, rows, nullable, selected)
  {
  }

  lemma ExhaustedAt(initial: nat, cached: seq<Byte>, t: Trace, terms: Terms, start: Account, pageBytes: nat, rows: nat,
                    nullable: bool, selected: seq<nat>, asked: nat)
    requires ValueRanges(cached, pageBytes, rows, nullable, selected) == Err(NeedBytes(asked)) && asked <= pageBytes
    requires asked <= MAX_PREFIX_BYTES ==>
               |t.fetched| + (if initial == 0 then 0 else 1) == MAX_PROBES
               && |cached| < asked && |cached| >= Least(initial, |t.fetched|, pageBytes)
    ensures TurnedAway(DiscoveryBudget, initial, cached, t, terms, start, pageBytes, rows, nullable, selected)
  {
    hide ValueRanges, Least;
    if asked <= MAX_PREFIX_BYTES {
      LeastAtLimit(initial, |t.fetched|, pageBytes);
    }
  }

  lemma BudgetRefused(initial: nat, cached: seq<Byte>, t: Trace, terms: Terms, start: Account, pageBytes: nat, rows: nat,
                      nullable: bool, selected: seq<nat>)
    ensures Refused(terms, start, t.log) ==>
              TurnedAway(ModeledBudget, initial, cached, t, terms, start, pageBytes, rows, nullable, selected)
  {
  }

  lemma NoneNeeded(cached: seq<Byte>, pageBytes: nat, rows: nat, nullable: bool, selected: seq<nat>)
    ensures AllNeeded([], cached, pageBytes, rows, nullable, selected)
  {
  }

  /** One more probe: the held prefix grows to its next size, unless the budget or the store says no. */
  method Extend(prefix: seq<Byte>, asked: nat, pageBytes: nat, rows: nat, nullable: bool, selected: seq<nat>,
                fetcher: Fetcher, ghost body: seq<Byte>)
    returns (r: Result<seq<Byte>>)
    requires fetcher.Valid() && prefix == fetcher.cached && |prefix| < asked <= Min(pageBytes, MAX_PREFIX_BYTES)
    requires ValueRanges(prefix, pageBytes, rows, nullable, selected) == Err(NeedBytes(asked))
    requires |prefix| >= Least(|fetcher.initial|, |fetcher.fetched|, pageBytes)
    requires AllNeeded(fetcher.fetched, prefix, pageBytes, rows, nullable, selected)
    modifies fetcher, fetcher.budget, fetcher.budget.rounds
    ensures fetcher.Valid()
    ensures r.Ok? ==>
              && r.value == fetcher.cached && asked <= |r.value| <= Min(pageBytes, MAX_PREFIX_BYTES)
              && |fetcher.fetched| == |old(fetcher.fetched)| + 1
              && |r.value| >= Least(|fetcher.initial|, |fetcher.fetched|, pageBytes)
    ensures r.Err? ==> fetcher.cached == prefix && fetcher.fetched == old(fetcher.fetched)
    ensures r.Err? ==>
              || (r == Err(Fallback(ModeledBudget)) && Refused(fetcher.budget.terms, fetcher.start, fetcher.log))
              || (r == Err(Io) && FetchFails(fetcher.store, fetcher.at, pageBytes))
    ensures AllNeeded(fetcher.fetched, fetcher.cached, pageBytes, rows, nullable, selected)
    ensures Faithful(pageBytes, fetcher.initial, fetcher.store, fetcher.at, body) && prefix <= body ==>
              fetcher.cached <= body
  {
    hide ValueRanges, Target, Least, Faithful, FetchFails, ReadFrom, Fetcher.Valid, AllNeeded;
    ghost var before := fetcher.fetched;
    TargetGrows(|fetcher.initial|, |before|, |prefix|, asked, pageBytes);
    var end := Target(|prefix|, asked, pageBytes);
    FaithfulFetch(pageBytes, fetcher.initial, fetcher.store, fetcher.at, body, prefix, end);
    var bytes := fetcher.Fetch(|prefix|, end);
    if bytes.Err? {
      if bytes.error.Io? {
        FailedFetch(fetcher.store, fetcher.at, pageBytes, |prefix|, end);
      }
      return Fail(bytes);
    }
    if |bytes.value| != end - |prefix| {
      return Err(Invalid(ShortPrefixRead));
    }
    assert fetcher.cached == prefix + bytes.value;
    OneMoreNeeded(before, prefix, prefix + bytes.value, end, asked, pageBytes, rows, nullable, selected);
    r := Ok(prefix + bytes.value);
  }

  /**
   * The fetcher's cache starts with the bytes held at first and ends as the plan's prefix, also on
   * an error.
   */
  method Discover(pageBytes: nat, rows: nat, nullable: bool, selected: seq<nat>, initial: seq<Byte>, fetcher: Fetcher,
                  ghost body: seq<Byte>)
    returns (r: Result<Plan>)
    requires fetcher.Valid() && fetcher.cached == fetcher.initial == initial && fetcher.fetched == []
    modifies fetcher, fetcher.budget, fetcher.budget.rounds
    ensures fetcher.Valid()
    ensures |fetcher.fetched| + (if initial == [] then 0 else 1) <= 9
    ensures |fetcher.cached| <= Max(|initial|, Min(pageBytes, 1_048_576))
    ensures !WellFormed(pageBytes, rows, selected) ==> r.Err?
    ensures AllNeeded(fetcher.fetched, fetcher.cached, pageBytes, rows, nullable, selected)
    ensures r.Ok? ==>
              PlanOf(r.value, |initial|, |fetcher.fetched|, fetcher.cached, pageBytes, rows, nullable, selected)
    ensures r.Err? && r.error.Fallback? ==>
              TurnedAway(r.error.reason, |initial|, fetcher.cached, fetcher.History(), fetcher.budget.terms, fetcher.start,
                         pageBytes, rows, nullable, selected)
    ensures pageBytes > 8_388_608 || rows > 1_048_576 ==> r == Err(Fallback(PageSizeOrRowCount))
    ensures Faithful(pageBytes, initial, fetcher.store, fetcher.at, body) ==>
              && fetcher.cached <= body
              && (r.Ok? ==> ValueRanges(body, pageBytes, rows, nullable, selected)
                            == ValueRanges(fetcher.cached, pageBytes, rows, nullable, selected))
              && (r.Err? && !r.error.Fallback? && WellFormed(pageBytes, rows, selected) ==>
                    || ValueRanges(body, pageBytes, rows, nullable, selected).Err?
                    || (r.error.Io? && FetchFails(fetcher.store, fetcher.at, pageBytes)))
    ensures r.Err? && r.error.NeedBytes? ==> !Faithful(pageBytes, initial, fetcher.store, fetcher.at, body)
  {
    hide ValueRanges, Target, Least, Rest, SpanBytes, Faithful, Ascending, FetchFails, ReadFrom, Fetcher.Valid, AllNeeded,
         Consecutive, TurnedAway, Refused, Exhausted, WellFormed, PlanOf;
    FaithfulAtStart(pageBytes, initial, fetcher.store, fetcher.at, body);
    NoneNeeded(initial, pageBytes, rows, nullable, selected);
    OutsideLimits(|initial|, fetcher.cached, fetcher.History(), fetcher.budget.terms, fetcher.start, pageBytes,
                  rows, nullable, selected);
    var prefix := initial;
    if pageBytes > MAX_PAGE_BYTES || rows > MAX_ROWS {
      return Err(Fallback(PageSizeOrRowCount));
    }
    if |prefix| > pageBytes {
      return Err(Invalid(PrefixExceedsPage));
    }
    if |prefix| > MAX_PREFIX_BYTES {
      return Err(Fallback(DiscoveryBudget));
    }
    SelectionChecked(pageBytes, rows, selected);
    if (selected != [] && selected[|selected| - 1] >= rows)
       || (exists i :: 0 < i < |selected| && selected[i - 1] >= selected[i])
    {
      return Err(Invalid(RowSelection));
    }
    LeastAtStart(|initial|, pageBytes);
    var probes := if prefix == [] then 0 else 1;
    r := Err(Fallback(DiscoveryBudget));
    while probes <= MAX_PROBES
      invariant fetcher.Valid() && prefix == fetcher.cached
      invariant probes == |fetcher.fetched| + (if initial == [] then 0 else 1) <= MAX_PROBES
      invariant |prefix| <= Min(pageBytes, MAX_PREFIX_BYTES)
      invariant |prefix| >= Least(|initial|, |fetcher.fetched|, pageBytes)
      invariant Faithful(pageBytes, initial, fetcher.store, fetcher.at, body) ==> prefix <= body
      invariant AllNeeded(fetcher.fetched, prefix, pageBytes, rows, nullable, selected)
      decreases MAX_PROBES + 1 - probes
    {
      var parsed := ReadValueRanges(prefix, pageBytes, rows, nullable, selected);
      if Faithful(pageBytes, initial, fetcher.store, fetcher.at, body) {
        ValueRangesAgree(prefix, body, pageBytes, rows, nullable, selected);
      }
      if parsed.Ok? {
        var spans := parsed.value.spans;
        fetcher.RoundsExist();
        PlanFound(fetcher.fetched, |initial|, prefix, pageBytes, rows, nullable, selected, probes);
        r := Ok(Plan(prefix, Rest(spans, |prefix|), parsed.value.start, SpanBytes(spans), probes));
        return;
      }
      if !parsed.error.NeedBytes? {
        ParseSays(|initial|, fetcher.cached, fetcher.History(), fetcher.budget.terms, fetcher.start, pageBytes,
                  rows, nullable, selected);
        r := Fail(parsed);
        return;
      }
      var end := parsed.error.end;
      if end > pageBytes || end <= |prefix| {
        r := Err(Invalid(NoProgress));
        return;
      }
      if end > MAX_PREFIX_BYTES || probes == MAX_PROBES {
        ExhaustedAt(|initial|, fetcher.cached, fetcher.History(), fetcher.budget.terms, fetcher.start, pageBytes,
                    rows, nullable, selected, end);
        r := Err(Fallback(DiscoveryBudget));
        return;
      }
      var longer := Extend(prefix, end, pageBytes, rows, nullable, selected, fetcher, body);
      if longer.Err? {
        BudgetRefused(|initial|, fetcher.cached, fetcher.History(), fetcher.budget.terms, fetcher.start, pageBytes,
                      rows, nullable, selected);
        r := Fail(longer);
        return;
      }
      prefix := longer.value;
      probes := probes + 1;
    }
    assert false; // the last probe has returned a plan or an error
  }
}
