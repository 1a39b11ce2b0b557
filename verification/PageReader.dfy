/** Reading a page sparsely: the buffer must look like the stored page wherever a selected row is decoded. */
module PageReader {
  import opened Bytes
  import opened Costs
  import opened CoveringPlans
  import opened Discovery
  import opened ExactRanges
  import opened Fetching
  import opened Limits
  import opened Numbers
  import opened ObjectStore
  import opened Options
  import opened PageValues
  import opened PayloadPlan
  import opened ProbeBudgets
  import opened RangePlanner
  import opened Sets
  import opened Spans

  datatype Page = Page(range: Span, rows: nat, nullable: bool, selected: seq<nat>)

  /** How many bytes of a prefix the page header takes; None for a layout that is not read sparsely. */
  type HeaderSize = seq<Byte> -> Result<Option<nat>>

  ghost predicate InPrefix(header: HeaderSize) {
    forall prefix: seq<Byte> :: header(prefix).Ok? && header(prefix).value.Some? ==> header(prefix).value.value <= |prefix|
  }

  lemma StoreIsHonest(store: Store, file: seq<Byte>, at: nat, end: nat)
    requires Stores(store, file) && at <= end <= |file|
    ensures Honest(store, at, file[at..end])
  {
    var body := file[at..end];
    forall a: nat, b: nat | a <= b <= |body| && ReadFrom(store, at, a, b).Ok?
      ensures ReadFrom(store, at, a, b).value == body[a..b]
    {
      SliceOfSlice(file, at, end, a, b);
      assert at + a <= at + b <= |file|;
    }
  }

  /** Behind a reliable store no request inside the page fails. */
  lemma ReliableFetches(store: Store, file: seq<Byte>, at: nat, end: nat)
    requires Reliable(store, file) && at <= end <= |file|
    ensures !FetchFails(store, at, end - at)
  {
    forall a: nat, b: nat | a <= b <= end - at
      ensures ReadFrom(store, at, a, b).Ok?
    {
      ReliableReads(store, file, at + a, at + b);
    }
  }

  // ---------------------------------------------------------------- what a sparse page must keep

  /** The same structure, the same bytes up to the payload, and the same bytes in every selected row. */
  ghost predicate Readable(out: seq<Byte>, body: seq<Byte>, rows: nat, nullable: bool, selected: seq<nat>) {
    var s := StructureOf(body, |body|, rows, nullable);
    && |out| == |body|
    && s.Ok? && StructureOf(out, |body|, rows, nullable) == s
    && ValueRanges(out, |body|, rows, nullable, selected) == ValueRanges(body, |body|, rows, nullable, selected)
    && out[..s.value.payloadStart] == body[..s.value.payloadStart]
    && forall row, b :: 0 <= row < rows && row in selected && InRow(s.value, row, b) ==>
         0 <= b < |body| && out[b] == body[b]
  }

  ghost predicate SparsePage(out: seq<Byte>, stored: seq<Byte>, header: nat, page: Page) {
    && |out| == |stored| && header <= |stored| && out[..header] == stored[..header]
    && Readable(out[header..], stored[header..], page.rows, page.nullable, page.selected)
  }

  lemma {:induction false} OmittedRows(s: Structure, row: nat)
    requires Trues(s.valid) == 0 == |s.lengths| && row <= |s.valid|
    ensures RowStart(s, row) == s.payloadStart
  {
    if row > 0 {
      OmittedRows(s, row - 1);
      if s.valid[row - 1] {
        LengthIndex(s, row - 1);
      }
    }
  }

  /** The bytes of a selected row lie in the ranges of the page. */
  lemma SelectedRowCovered(body: seq<Byte>, rows: nat, nullable: bool, selected: seq<nat>, row: nat, b: int)
    requires ValueRanges(body, |body|, rows, nullable, selected).Ok? && Ascending(selected)
    requires row < rows && row in selected
    ensures StructureOf(body, |body|, rows, nullable).Ok?
    ensures InRow(StructureOf(body, |body|, rows, nullable).value, row, b) ==>
              Covered(ValueRanges(body, |body|, rows, nullable, selected).value.spans, b)
  {
    hide Covered, StructureOf, PlaceRows, Separated;
    var s := StructureOf(body, |body|, rows, nullable).value;
    if s.omitted {
      OmittedRows(s, row);
      OmittedRows(s, row + 1);
    } else {
      RangesAreExact(s, |body|, selected, ValueRanges(body, |body|, rows, nullable, selected).value);
    }
  }

  lemma SpansInside(body: seq<Byte>, rows: nat, nullable: bool, selected: seq<nat>)
    requires ValueRanges(body, |body|, rows, nullable, selected).Ok? && Ascending(selected)
    ensures var payload := ValueRanges(body, |body|, rows, nullable, selected).value;
            payload.start <= |body| && Separated(payload.spans, payload.start, |body|)
    ensures StructureOf(body, |body|, rows, nullable).Ok?
    ensures StructureOf(body, |body|, rows, nullable).value.payloadStart
         == ValueRanges(body, |body|, rows, nullable, selected).value.start
  {
    hide Covered, StructureOf, PlaceRows;
    var s := StructureOf(body, |body|, rows, nullable).value;
    if !s.omitted {
      RangesAreExact(s, |body|, selected, ValueRanges(body, |body|, rows, nullable, selected).value);
    }
  }

  /** A buffer that has the held prefix and the bytes of the ranges is as good as the body. */
  lemma SparseIsReadable(out: seq<Byte>, body: seq<Byte>, held: seq<Byte>, rows: nat, nullable: bool, selected: seq<nat>)
    requires |out| == |body| && held <= out && held <= body && Ascending(selected)
    requires ValueRanges(held, |body|, rows, nullable, selected).Ok?
    requires forall b :: Covered(ValueRanges(held, |body|, rows, nullable, selected).value.spans, b) && 0 <= b < |body| ==>
               out[b] == body[b]
    ensures Readable(out, body, rows, nullable, selected)
  {
    hide Covered, StructureOf, PlaceRows, Separated;
    ValueRangesAgree(held, body, |body|, rows, nullable, selected);
    ValueRangesAgree(held, out, |body|, rows, nullable, selected);
    StructureAgrees(held, body, |body|, rows, nullable);
    StructureAgrees(held, out, |body|, rows, nullable);
    SpansInside(body, rows, nullable, selected);
    var s := StructureOf(body, |body|, rows, nullable).value;
    assert s.payloadStart <= |held|;
    assert out[..s.payloadStart] == held[..s.payloadStart] == body[..s.payloadStart];
    forall row, b | 0 <= row < rows && row in selected && InRow(s, row, b)
      ensures 0 <= b < |body| && out[b] == body[b]
    {
      SelectedRowCovered(body, rows, nullable, selected, row, b);
      InSeparated(ValueRanges(body, |body|, rows, nullable, selected).value.spans, s.payloadStart, |body|, b);
    }
  }

  lemma InSeparated(spans: seq<Span>, low: nat, high: nat, b: int)
    requires Separated(spans, low, high) && Covered(spans, b)
    ensures low <= b < high
  {
  }

  // ---------------------------------------------------------------- the program

  /** Destinations that can be split off a buffer of `size` bytes one after the other. */
  ghost predicate Carved(ranges: seq<Span>, size: nat) {
    Disjoint(ranges) && forall i :: 0 <= i < |ranges| ==> ranges[i].end <= size
  }

  method Carve(ranges: seq<Span>, size: nat) returns (ok: bool)
    ensures ok <==> Carved(ranges, size)
  {
    var cursor: nat := 0;
    for k := 0 to |ranges|
      invariant cursor == (if k == 0 then 0 else ranges[k - 1].end) && cursor <= size
      invariant forall i :: 0 <= i < k ==> ranges[i].start <= ranges[i].end <= cursor
      invariant forall i, j :: 0 <= i < j < k ==> ranges[i].end <= ranges[j].start
    {
      if ranges[k].start < cursor || ranges[k].end < ranges[k].start || ranges[k].end > size {
        return false;
      }
      cursor := ranges[k].end;
    }
    ok := true;
  }

  lemma CoveredPrefix(ranges: seq<Span>, k: nat, b: int)
    requires k < |ranges|
    ensures Covered(ranges[..k + 1], b) <==> Covered(ranges[..k], b) || ranges[k].start <= b < ranges[k].end
  {
    CoveredWithLast(ranges[..k + 1], b);
    assert ranges[..k + 1][..k] == ranges[..k];
  }

  /** Reads `start..end` of the file into the buffer at `destination`. */
  method ReadInto(store: Store, output: array<Byte>, destination: nat, start: nat, end: nat) returns (ok: bool)
    requires start <= end && destination + (end - start) <= output.Length
    modifies output
    ensures ok <==> Read(store, start, end).Ok?
    ensures forall i :: 0 <= i < output.Length && !(destination <= i < destination + (end - start)) ==>
              output[i] == old(output[i])
    ensures ok ==> forall i :: 0 <= i < end - start ==> output[destination + i] == Read(store, start, end).value[i]
    ensures !ok ==> output[..] == old(output[..])
  {
    var response := Read(store, start, end);
    if response.Err? {
      return false;
    }
    for i: nat := 0 to end - start
      invariant forall j :: 0 <= j < output.Length && !(destination <= j < destination + i) ==> output[j] == old(output[j])
      invariant forall j :: 0 <= j < i ==> output[destination + j] == response.value[j]
    {
      output[destination + i] := response.value[i];
    }
    ok := true;
  }

  lemma StoredPart(store: Store, file: seq<Byte>, start: nat, end: nat, i: nat)
    requires Stores(store, file) && start <= end <= |file| && Read(store, start, end).Ok? && i < end - start
    ensures Read(store, start, end).value[i] == file[start + i]
  {
  }

  /** Reads every range into its own part of the buffer; nothing else in the buffer changes. */
  method FillPayload(store: Store, output: array<Byte>, header: nat, at: nat, ranges: seq<Span>, ghost file: seq<Byte>)
    returns (ok: bool)
    requires header <= output.Length && Carved(ranges, output.Length - header)
    modifies output
    ensures forall i :: 0 <= i < output.Length && (i < header || !Covered(ranges, i - header)) ==>
              output[i] == old(output[i])
    ensures ok && Stores(store, file) && at + output.Length - header <= |file| ==>
              forall i :: header <= i < output.Length && Covered(ranges, i - header) ==> output[i] == file[at + i - header]
    ensures Reliable(store, file) && at + output.Length - header <= |file| ==> ok
  {
    hide Stores, Covered, Read, Reliable;
    ghost var faithful := Stores(store, file) && at + output.Length - header <= |file|;
    forall b
      ensures !Covered(ranges[..0], b)
    {
      assert ranges[..0] == [];
      CoveredAlone(Span(0, 0), b);
    }
    for k := 0 to |ranges|
      invariant forall i :: 0 <= i < output.Length && (i < header || !Covered(ranges[..k], i - header)) ==>
                  output[i] == old(output[i])
      invariant faithful ==>
                  forall i :: header <= i < output.Length && Covered(ranges[..k], i - header) ==>
                    output[i] == file[at + i - header]
    {
      var range := ranges[k];
      ghost var before := output[..];
      ghost var done := ranges[..k + 1];
      forall b
        ensures Covered(done, b) <==> Covered(ranges[..k], b) || range.start <= b < range.end
      {
        CoveredPrefix(ranges, k, b);
      }
      if Reliable(store, file) && at + output.Length - header <= |file| {
        ReliableReads(store, file, at + range.start, at + range.end);
      }
      var read := ReadInto(store, output, header + range.start, at + range.start, at + range.end);
      if !read {
        assert forall i :: 0 <= i < output.Length ==> output[i] == before[i];
        StillUncovered(ranges, k);
        return false;
      }
      forall i | faithful && header <= i < output.Length && Covered(done, i - header)
        ensures output[i] == file[at + i - header]
      {
        if range.start <= i - header < range.end {
          var j := i - header - range.start;
          StoredPart(store, file, at + range.start, at + range.end, j);
          assert output[header + range.start + j] == Read(store, at + range.start, at + range.end).value[j];
        } else {
          assert output[i] == before[i];
        }
      }
    }
    assert ranges[..|ranges|] == ranges;
    ok := true;
  }

  lemma StillUncovered(ranges: seq<Span>, k: nat)
    requires k <= |ranges|
    ensures forall b :: !Covered(ranges, b) ==> !Covered(ranges[..k], b)
  {
    assert ranges == ranges[..k] + ranges[k..];
    forall b
      ensures !Covered(ranges, b) ==> !Covered(ranges[..k], b)
    {
      CoveredByEither(ranges[..k], ranges[k..], b);
    }
  }

  /** Completes a page of which the first bytes are held. */
  method FinishPage(store: Store, page: Page, prefix: seq<Byte>, ghost file: seq<Byte>) returns (r: Result<seq<Byte>>)
    requires |prefix| <= Length(page.range) && page.range.start <= page.range.end
    ensures r.Ok? ==> |r.value| == Length(page.range)
    ensures r.Ok? && Stores(store, file) && page.range.end <= |file|
            && prefix == file[page.range.start..page.range.start + |prefix|] ==>
              r.value == file[page.range.start..page.range.end]
    ensures Reliable(store, file) && page.range.end <= |file| ==> r.Ok?
  {
    hide Stores, Reliable;
    var start := page.range.start + |prefix|;
    if Reliable(store, file) && start <= page.range.end <= |file| {
      ReliableReads(store, file, start, page.range.end);
    }
    if start < page.range.end {
      var rest := Read(store, start, page.range.end);
      if rest.Err? {
        return rest;
      }
      r := Ok(prefix + rest.value);
      WholePage(store, page.range, prefix, rest.value, file);
    } else {
      r := Ok(prefix);
    }
  }

  lemma WholePage(store: Store, range: Span, prefix: seq<Byte>, rest: seq<Byte>, file: seq<Byte>)
    requires range.start + |prefix| < range.end && Read(store, range.start + |prefix|, range.end) == Ok(rest)
    ensures Stores(store, file) && range.end <= |file| && prefix == file[range.start..range.start + |prefix|] ==>
              prefix + rest == file[range.start..range.end]
  {
  }

  /** What a finished page is: the stored page itself, or a buffer that reads like it after its header. */
  ghost predicate LikeStored(out: seq<Byte>, stored: seq<Byte>, header: nat, page: Page) {
    out == stored || SparsePage(out, stored, header, page)
  }

  /** The same, with the header that the stored page itself reports. */
  ghost predicate LikePage(out: seq<Byte>, stored: seq<Byte>, header: HeaderSize, page: Page)
    requires PREFIX_BYTES <= |stored|
  {
    out == stored
    || match header(stored[..PREFIX_BYTES])
       case Ok(Some(n)) => SparsePage(out, stored, n, page)
       case _ => false
  }

  /** The ranges still to be read, given what is cached. */
  function Missing(plan: Discovery.Plan, cached: nat): seq<Span> { Rest(plan.ranges, cached) }

  lemma {:induction false} SeparatedFew(spans: seq<Span>, low: nat, high: nat)
    requires Separated(spans, low, high)
    ensures |spans| <= high
  {
    if spans != [] {
      var n := |spans| - 1;
      assert spans[n].start < spans[n].end <= high;
      if n > 0 {
        assert spans[n - 1].end < spans[n].start;
        assert Separated(spans[..n], low, spans[n - 1].end);
        SeparatedFew(spans[..n], low, spans[n - 1].end);
      }
    }
  }

  /** The missing ranges lie between the held prefix and the end of the body. */
  lemma MissingRanges(held: seq<Byte>, pageBytes: nat, rows: nat, nullable: bool, selected: seq<nat>, plan: Discovery.Plan)
    requires ValueRanges(held, pageBytes, rows, nullable, selected).Ok? && Ascending(selected)
    requires |held| <= pageBytes
    requires plan.ranges == Rest(ValueRanges(held, pageBytes, rows, nullable, selected).value.spans, |held|)
    ensures var missing := Missing(plan, |held|);
            && Forward(missing) && NonEmpty(missing) && |missing| <= pageBytes && Within(missing, |held|, pageBytes)
            && forall b :: Covered(missing, b) <==>
                 Covered(ValueRanges(held, pageBytes, rows, nullable, selected).value.spans, b) && b >= |held|
  {
    hide Covered, StructureOf, PlaceRows, Rest;
    var payload := ValueRanges(held, pageBytes, rows, nullable, selected).value;
    var s := StructureOf(held, pageBytes, rows, nullable).value;
    if !s.omitted {
      RangesAreExact(s, pageBytes, selected, payload);
    }
    RestSeparated(payload.spans, |held|, payload.start, pageBytes);
    RestSeparated(plan.ranges, |held|, Max(payload.start, |held|), pageBytes);
    SeparatedFew(Missing(plan, |held|), Max(payload.start, |held|), pageBytes);
    forall b
      ensures Covered(Missing(plan, |held|), b) <==> Covered(payload.spans, b) && b >= |held|
    {
      RestCovers(payload.spans, |held|, b);
      RestCovers(plan.ranges, |held|, b);
    }
  }

  lemma HeaderFits(header: HeaderSize, prefix: seq<Byte>)
    requires InPrefix(header) && header(prefix).Ok? && header(prefix).value.Some?
    ensures header(prefix).value.value <= |prefix|
  {
  }

  /** The header and what discovery has cached are the page's first bytes. */
  lemma HeldBytes(file: seq<Byte>, start: nat, end: nat, prefix: seq<Byte>, n: nat, cached: seq<Byte>)
    requires start + PREFIX_BYTES <= end <= |file| && n <= PREFIX_BYTES
    requires prefix == file[start..start + PREFIX_BYTES] && cached <= file[start + n..end]
    ensures prefix[..n] + cached == file[start..start + |prefix[..n] + cached|]
  {
    var held := prefix[..n] + cached;
    forall i | 0 <= i < |held|
      ensures held[i] == file[start + i]
    {
      if i < n {
        assert held[i] == prefix[i];
      } else {
        assert held[i] == cached[i - n] == file[start + n..end][i - n];
      }
    }
  }

  lemma FirstBytes(store: Store, file: seq<Byte>, start: nat, end: nat, prefix: seq<Byte>, n: nat)
    requires start + PREFIX_BYTES <= end <= |file| && n <= PREFIX_BYTES
    requires Read(store, start, start + PREFIX_BYTES) == Ok(prefix)
    ensures Stores(store, file) ==>
              && prefix == file[start..start + PREFIX_BYTES]
              && Faithful(end - start - n, prefix[n..], store, start + n, file[start + n..end])
  {
    if Stores(store, file) {
      StoreIsHonest(store, file, start + n, end);
      assert prefix[n..] <= file[start + n..end];
    }
  }

  lemma WellFormedPage(pageBytes: nat, rows: nat, selected: seq<nat>)
    requires WellFormed(pageBytes, rows, selected)
    ensures pageBytes <= USIZE_MAX && Ascending(selected)
  {
  }

  /** The filled buffer: the header, the cached bytes, then the chosen reads. */
  lemma FilledIsLikeStored(out: seq<Byte>, stored: seq<Byte>, n: nat, cached: seq<Byte>, ranges: seq<Span>, page: Page,
                           missing: seq<Span>)
    requires |out| == |stored| && n + |cached| <= |stored| && Ascending(page.selected)
    requires out[..n] == stored[..n] && out[n..n + |cached|] == cached && cached <= stored[n..]
    requires ValueRanges(cached, |stored| - n, page.rows, page.nullable, page.selected).Ok?
    requires forall b :: Covered(missing, b) <==>
               Covered(ValueRanges(cached, |stored| - n, page.rows, page.nullable, page.selected).value.spans, b)
               && b >= |cached|
    requires Covers(ranges, missing)
    requires forall i :: n <= i < |out| && Covered(ranges, i - n) ==> out[i] == stored[i]
    ensures LikeStored(out, stored, n, page)
  {
    hide Covered, ValueRanges, Readable, Ascending;
    var o, body := out[n..], stored[n..];
    assert cached <= o;
    forall b | Covered(ValueRanges(cached, |body|, page.rows, page.nullable, page.selected).value.spans, b) && 0 <= b < |body|
      ensures o[b] == body[b]
    {
      if b < |cached| {
        assert o[b] == cached[b] == body[b];
      } else {
        assert Covered(missing, b);
        assert out[n + b] == stored[n + b];
      }
    }
    SparseIsReadable(o, body, cached, page.rows, page.nullable, page.selected);
  }

  lemma FilledFromFile(out: seq<Byte>, file: seq<Byte>, prefix: seq<Byte>, n: nat, cached: seq<Byte>, ranges: seq<Span>,
                       page: Page, missing: seq<Span>)
    requires page.range.start + PREFIX_BYTES <= page.range.end <= |file| && n <= PREFIX_BYTES
    requires prefix == file[page.range.start..page.range.start + PREFIX_BYTES]
    requires cached <= file[page.range.start + n..page.range.end]
    requires |out| == Length(page.range) && n + |cached| <= |out| && Ascending(page.selected)
    requires out[..n] == prefix[..n] && out[n..n + |cached|] == cached
    requires ValueRanges(cached, |out| - n, page.rows, page.nullable, page.selected).Ok?
    requires forall b :: Covered(missing, b) <==>
               Covered(ValueRanges(cached, |out| - n, page.rows, page.nullable, page.selected).value.spans, b)
               && b >= |cached|
    requires Covers(ranges, missing)
    requires forall i :: n <= i < |out| && Covered(ranges, i - n) ==> out[i] == file[page.range.start + i]
    ensures LikeStored(out, file[page.range.start..page.range.end], n, page)
  {
    hide Covered, Covers, ValueRanges, LikeStored, Ascending;
    var stored := file[page.range.start..page.range.end];
    SliceOfSlice(file, page.range.start, page.range.end, n, |stored|);
    assert out[..n] == stored[..n];
    assert stored[n..] == file[page.range.start + n..page.range.end];
    FilledIsLikeStored(out, stored, n, cached, ranges, page, missing);
  }

  /** The reads chosen by a good plan can be carved out of the buffer, after the cached bytes. */
  lemma GoodPlanFits(model: CostModel, missing: seq<Span>, cached: nat, body: nat, plan: seq<Span>)
    requires GoodPlan(model, missing, cached, body, plan) && Within(missing, cached, body)
    ensures Carved(plan, body) && Within(plan, cached, body) && Covers(plan, missing)
  {
    hide Covered, Saves;
    OrderedIsDisjoint(plan);
  }

  lemma OutsideCached(ranges: seq<Span>, cached: nat, body: nat, b: int)
    requires Within(ranges, cached, body) && b < cached
    ensures !Covered(ranges, b)
  {
  }

  /** Copies bytes into a buffer. */
  method CopyInto(output: array<Byte>, at: nat, bytes: seq<Byte>)
    requires at + |bytes| <= output.Length
    modifies output
    ensures output[..at] == old(output[..at]) && output[at..at + |bytes|] == bytes
    ensures output[at + |bytes|..] == old(output[at + |bytes|..])
  {
    for i := 0 to |bytes|
      invariant output[..at] == old(output[..at]) && output[at..at + i] == bytes[..i]
      invariant output[at + i..] == old(output[at + i..])
    {
      output[at + i] := bytes[i];
    }
  }

  /** Outside the chosen reads the buffer keeps the header and the cached bytes. */
  lemma KeepsHeld(out: seq<Byte>, before: seq<Byte>, n: nat, cached: seq<Byte>, ranges: seq<Span>, body: nat)
    requires |out| == |before| && n + |cached| <= |out| && before[n..n + |cached|] == cached
    requires Within(ranges, |cached|, body)
    requires forall i :: 0 <= i < |out| && (i < n || !Covered(ranges, i - n)) ==> out[i] == before[i]
    ensures out[..n] == before[..n] && out[n..n + |cached|] == cached
  {
    forall i | 0 <= i < n + |cached|
      ensures out[i] == before[i]
    {
      if i >= n {
        OutsideCached(ranges, |cached|, body, i - n);
      }
    }
    assert out[n..n + |cached|] == before[n..n + |cached|];
  }

  /** What was neither held nor read is zero. */
  ghost predicate ZeroElsewhere(out: seq<Byte>, n: nat, held: nat, ranges: seq<Span>) {
    forall i :: n + held <= i < |out| && !Covered(ranges, i - n) ==> out[i] == 0
  }

  lemma StaysZero(out: seq<Byte>, before: seq<Byte>, n: nat, held: nat, ranges: seq<Span>)
    requires |out| == |before| && forall i :: n + held <= i < |before| ==> before[i] == 0
    requires forall i :: 0 <= i < |out| && (i < n || !Covered(ranges, i - n)) ==> out[i] == before[i]
    ensures ZeroElsewhere(out, n, held, ranges)
  {
    hide Covered;
  }

  /** Reads the chosen ranges into a buffer that starts with the header and the cached bytes. */
  method FillPage(page: Page, prefix: seq<Byte>, n: nat, cached: seq<Byte>, ranges: seq<Span>, store: Store,
                  ghost file: seq<Byte>)
    returns (r: Result<seq<Byte>>)
    requires n <= |prefix| && n + |cached| <= Length(page.range) && page.range.start <= page.range.end <= |file|
    requires Within(ranges, |cached|, Length(page.range) - n)
    ensures r == Err(Invalid(PayloadDestination)) <==> !Carved(ranges, Length(page.range) - n)
    ensures r.Ok? ==>
              && |r.value| == Length(page.range)
              && r.value[..n] == prefix[..n] && r.value[n..n + |cached|] == cached
              && (Stores(store, file) ==> forall i :: n <= i < |r.value| && Covered(ranges, i - n) ==>
                                            r.value[i] == file[page.range.start + i])
              && ZeroElsewhere(r.value, n, |cached|, ranges)
    ensures Reliable(store, file) && Carved(ranges, Length(page.range) - n) ==> r.Ok?
  {
    hide Stores, Reliable, Covered, Carved, Within, ZeroElsewhere;
    var length := Length(page.range);
    var output := new Byte[length](_ => 0);
    CopyInto(output, 0, prefix[..n]);
    assert forall i :: n <= i < length ==> output[i] == output[n..][i - n] == 0;
    ghost var after := output[n + |cached|..];
    CopyInto(output, n, cached);
    assert forall i :: n + |cached| <= i < length ==> output[i] == after[i - n - |cached|] == 0;
    var fits := Carve(ranges, length - n);
    if !fits {
      return Err(Invalid(PayloadDestination));
    }
    ghost var before := output[..];
    var ok := FillPayload(store, output, n, page.range.start + n, ranges, file);
    if !ok {
      return Err(Io);
    }
    r := Ok(output[..]);
    KeepsHeld(r.value, before, n, cached, ranges, length - n);
    StaysZero(r.value, before, n, |cached|, ranges);
  }

  /** Bytes within a stretch are no more than the stretch. */
  lemma BytesWithin(spans: seq<Span>, low: nat, high: nat)
    requires Within(spans, low, high) && low <= high
    ensures RequestedBytes(spans) <= high - low
  {
    forall b | b in ByteSet(spans)
      ensures b in Interval(low, high)
    {
      InByteSet(spans, b);
      var i :| 0 <= i < |spans| && spans[i].start <= b < spans[i].end;
    }
    SubsetSize(ByteSet(spans), Interval(low, high));
  }

  /** A body that is outside the discovery limits, or does not parse as a whole. */
  ghost predicate BadBody(body: seq<Byte>, page: Page) {
    !WellFormed(|body|, page.rows, page.selected)
    || ValueRanges(body, |body|, page.rows, page.nullable, page.selected).Err?
  }

  /** A page whose header is rejected, or whose body is outside the limits or does not parse. */
  ghost predicate Unreadable(page: Page, header: HeaderSize, file: seq<Byte>)
    requires page.range.start + PREFIX_BYTES <= page.range.end <= |file|
  {
    match header(file[page.range.start..page.range.start + PREFIX_BYTES])
    case Err(_) => true
    case Ok(None) => false
    case Ok(Some(n)) => n <= PREFIX_BYTES && BadBody(file[page.range.start + n..page.range.end], page)
  }

  /** A plan made from the bytes cached of a page body: the missing parts of the selected rows' ranges. */
  ghost predicate Planned(plan: Discovery.Plan, cached: seq<Byte>, pageBytes: nat, page: Page) {
    var found := ValueRanges(cached, pageBytes, page.rows, page.nullable, page.selected);
    && WellFormed(pageBytes, page.rows, page.selected)
    && found.Ok? && plan.ranges == Rest(found.value.spans, |cached|)
  }

  /** The parts that are read are a plan that saves, and nothing else is; or no plan saves. */
  ghost predicate Decided(model: CostModel, missing: seq<Span>, held: nat, body: nat, n: nat, parts: Option<seq<Span>>,
                          out: seq<Byte>)
  {
    match parts
    case Some(plan) => GoodPlan(model, missing, held, body, plan) && ZeroElsewhere(out, n, held, plan)
    case None => NoneSaves(model, missing, held, body)
  }

  /** The payload of a page, as far as it is worth reading apart, once its structure is known. */
  method ReadPayload(page: Page, prefix: seq<Byte>, n: nat, cached: seq<Byte>, plan: Discovery.Plan, model: CostModel,
                     store: Store, ghost file: seq<Byte>)
    returns (r: Result<seq<Byte>>, ghost parts: Option<seq<Span>>)
    requires model.Valid() && page.range.start + PREFIX_BYTES <= page.range.end <= |file|
    requires n <= PREFIX_BYTES == |prefix| && n + |cached| <= Length(page.range)
    requires Planned(plan, cached, Length(page.range) - n, page)
    ensures r.Ok? && Stores(store, file) && prefix == file[page.range.start..page.range.start + PREFIX_BYTES]
            && cached <= file[page.range.start + n..page.range.end] ==>
              && LikeStored(r.value, file[page.range.start..page.range.end], n, page)
              && (parts.None? ==> r.value == file[page.range.start..page.range.end])
    ensures r.Ok? ==> |r.value| == Length(page.range)
    ensures r.Ok? ==> Decided(model, Missing(plan, |cached|), |cached|, Length(page.range) - n, n, parts, r.value)
    ensures Reliable(store, file) ==> r.Ok?
  {
    hide Stores, Reliable, ValueRanges, LikeStored, Missing, Within, Ascending, WellFormed, Covered, Read, GoodPlan, Carved,
         Covers, Forward, NonEmpty, RequestedBytes, NoneSaves, Rest, SpanBytes, ZeroElsewhere, Saves;
    parts := None;
    ghost var genuine := prefix == file[page.range.start..page.range.start + PREFIX_BYTES]
                         && cached <= file[page.range.start + n..page.range.end];
    var bodySize := Length(page.range) - n;
    WellFormedPage(bodySize, page.rows, page.selected);
    MissingRanges(cached, bodySize, page.rows, page.nullable, page.selected, plan);
    var missing := Missing(plan, |cached|);
    BytesWithin(missing, |cached|, bodySize);
    var ranges, first := PayloadRanges(model, missing, |cached|, bodySize);
    match ranges
    case Err(error) =>
      r := Err(error);
    case Ok(None) =>
      if genuine {
        HeldBytes(file, page.range.start, page.range.end, prefix, n, cached);
        WholeIsLikeStored(file[page.range.start..page.range.end], n, page);
      }
      r := FinishPage(store, page, prefix[..n] + cached, file);
    case Ok(Some(chosen)) =>
      parts := Some(chosen);
      GoodPlanFits(model, missing, |cached|, bodySize, chosen);
      r := FillPage(page, prefix, n, cached, chosen, store, file);
      if r.Ok? && Stores(store, file) && genuine {
        FilledFromFile(r.value, file, prefix, n, cached, chosen, page, missing);
      }
  }

  /** How a page came to be read: why discovery turned it away, or which parts of its payload were read. */
  datatype Outcome = Outcome(held: seq<Byte>, trace: Trace, turned: Option<Reason>, parts: Option<seq<Span>>)

  /** A page is read whole only if discovery turns it away or no plan saves; a plan that is used saves. */
  ghost predicate Justified(o: Outcome, page: Page, n: nat, initial: nat, model: CostModel, terms: Terms, start: Account,
                            out: seq<Byte>)
    requires n <= Length(page.range)
  {
    var body := Length(page.range) - n;
    match o.turned
    case Some(reason) =>
      o.parts.None? && TurnedAway(reason, initial, o.held, o.trace, terms, start, body, page.rows, page.nullable, page.selected)
    case None =>
      var found := ValueRanges(o.held, body, page.rows, page.nullable, page.selected);
      found.Ok? && |o.held| <= Max(Max(initial, 4096), 2 * found.value.start)
      && Decided(model, Rest(Rest(found.value.spans, |o.held|), |o.held|), |o.held|, body, n, o.parts, out)
  }

  /**
   * Discovery for one page: `cached` is everything fetched of its body, each extension of it charged
   * to a round of the budget, and it is the prefix of the plan.
   */
  method DiscoverPage(page: Page, prefix: seq<Byte>, n: nat, store: Store, budget: ProbeBudget,
                      others: nat -> seq<Reservation>, ghost file: seq<Byte>)
    returns (plan: Result<Discovery.Plan>, cached: seq<Byte>, ghost trace: Trace)
    requires page.range.start + PREFIX_BYTES <= page.range.end <= |file| && n <= PREFIX_BYTES
    requires Read(store, page.range.start, page.range.start + PREFIX_BYTES) == Ok(prefix) && budget.Valid()
    modifies budget, budget.rounds
    ensures budget.Valid()
    ensures Paid(budget.terms, old(budget.Contents()), budget.Contents(), trace, |prefix| - n, |cached|)
    ensures prefix[n..] <= cached && n + |cached| <= Length(page.range)
    ensures plan.Ok? ==>
              && plan.value.prefix == cached && Planned(plan.value, cached, Length(page.range) - n, page)
              && plan.value.probes == |trace.fetched| + (if n == PREFIX_BYTES then 0 else 1)
    ensures plan.Ok? ==> |cached| <= Max(Max(|prefix| - n, 4096), 2 * plan.value.payloadStart)
    ensures plan.Ok? ==>
              var found := ValueRanges(cached, Length(page.range) - n, page.rows, page.nullable, page.selected);
              found.Ok? && plan.value.payloadStart == found.value.start
    ensures plan.Err? && plan.error.Fallback? ==>
              TurnedAway(plan.error.reason, |prefix| - n, cached, trace, budget.terms, old(budget.Contents()),
                         Length(page.range) - n, page.rows, page.nullable, page.selected)
    ensures Stores(store, file) ==> cached <= file[page.range.start + n..page.range.end]
    ensures Reliable(store, file) && plan.Err? && !plan.error.Fallback? ==>
              BadBody(file[page.range.start + n..page.range.end], page)
  {
    hide Stores, Reliable, FetchFails, Honest, Faithful, ValueRanges, WellFormed, Read, Rest, SpanBytes, ProbeBudget.Valid,
         Paid, Fetcher.Valid, TurnedAway, AllNeeded;
    var start, end := page.range.start, page.range.end;
    FirstBytes(store, file, start, end, prefix, n);
    ReliableStores(store, file);
    if Reliable(store, file) {
      ReliableFetches(store, file, start + n, end);
    }
    var fetcher := new Fetcher(store, start + n, budget, others, prefix[n..]);
    plan := Discover(end - start - n, page.rows, page.nullable, page.selected, prefix[n..], fetcher,
                           file[start + n..end]);
    fetcher.RoundsExist();
    cached := fetcher.cached;
    trace := fetcher.History();
  }

  /** Discovery and the payload of a page whose header takes the first `n` bytes of the prefix. */
  method ReadBody(page: Page, prefix: seq<Byte>, n: nat, model: CostModel, store: Store, budget: ProbeBudget,
                  others: nat -> seq<Reservation>, ghost file: seq<Byte>)
    returns (r: Result<seq<Byte>>, ghost log: seq<Reservation>, ghost outcome: Outcome)
    requires model.Valid() && page.range.start + PREFIX_BYTES <= page.range.end <= |file| && n <= PREFIX_BYTES
    requires Read(store, page.range.start, page.range.start + PREFIX_BYTES) == Ok(prefix) && budget.Valid()
    modifies budget, budget.rounds
    ensures budget.Valid() && budget.Contents() == AfterAll(budget.terms, old(budget.Contents()), log)
    ensures r.Ok? && Stores(store, file) ==>
              && LikeStored(r.value, file[page.range.start..page.range.end], n, page)
              && (outcome.parts.None? ==> r.value == file[page.range.start..page.range.end])
    ensures r.Ok? ==> |r.value| == Length(page.range)
    ensures r.Ok? ==>
              Justified(outcome, page, n, PREFIX_BYTES - n, model, budget.terms, old(budget.Contents()), r.value)
    ensures Reliable(store, file) && r.Err? ==> BadBody(file[page.range.start + n..page.range.end], page)
  {
    hide Stores, Reliable, Faithful, ValueRanges, LikeStored, WellFormed, Planned, Read, Rest, ProbeBudget.Valid, BadBody,
         Paid, TurnedAway, Decided;
    var start, end := page.range.start, page.range.end;
    WholeIsLikeStored(file[start..end], n, page);
    FirstBytes(store, file, start, end, prefix, n);
    ReliableStores(store, file);
    var plan, cached, trace := DiscoverPage(page, prefix, n, store, budget, others, file);
    log := trace.log;
    PaidInOrder(budget.terms, old(budget.Contents()), budget.Contents(), trace, |prefix| - n, |cached|);
    outcome := Outcome(cached, trace, None, None);
    if plan.Ok? {
      assert plan.value.prefix <= cached;
      ghost var parts;
      r, parts := ReadPayload(page, prefix, n, cached, plan.value, model, store, file);
      outcome := outcome.(parts := parts);
      assert Planned(plan.value, cached, end - start - n, page);
      PlannedMissing(plan.value, cached, end - start - n, page);
    } else if plan.error.Fallback? {
      outcome := outcome.(turned := Some(plan.error.reason));
      if Stores(store, file) {
        HeldBytes(file, start, end, prefix, n, cached);
      }
      r := FinishPage(store, page, prefix[..n] + cached, file);
    } else {
      r := Fail(plan);
    }
  }

  /**
   * A page's bytes, read whole or only where rows are selected. What is cached at the end is all
   * that discovery has fetched, and reading the payload neither repeats nor overwrites it.
   */
  method ReadPage(page: Page, header: HeaderSize, model: CostModel, store: Store, budget: ProbeBudget,
                  others: nat -> seq<Reservation>, ghost file: seq<Byte>)
    returns (r: Result<seq<Byte>>, ghost log: seq<Reservation>, ghost outcome: Outcome)
    requires model.Valid() && InPrefix(header) && budget.Valid()
    requires page.range.start + PREFIX_BYTES <= page.range.end <= |file|
    modifies budget, budget.rounds
    ensures budget.Valid() && budget.Contents() == AfterAll(budget.terms, old(budget.Contents()), log)
    ensures r.Ok? && Stores(store, file) ==>
              && LikePage(r.value, file[page.range.start..page.range.end], header, page)
              && (outcome.parts.None? ==> r.value == file[page.range.start..page.range.end])
    ensures r.Ok? ==> |r.value| == Length(page.range)
    ensures r.Ok? ==>
              var prefix := Read(store, page.range.start, page.range.start + PREFIX_BYTES);
              && prefix.Ok? && header(prefix.value).Ok?
              && match header(prefix.value).value
                 case Some(n) =>
                   n <= PREFIX_BYTES
                   && Justified(outcome, page, n, PREFIX_BYTES - n, model, budget.terms, old(budget.Contents()), r.value)
                 case None => outcome.parts.None?
    ensures Reliable(store, file) && r.Err? ==> Unreadable(page, header, file)
  {
    hide Stores, Reliable, InPrefix, Faithful, SparsePage, Read, BadBody, ProbeBudget.Valid, Justified;
    log, outcome := [], Outcome([], Trace([], [], []), None, None);
    var start := page.range.start;
    ghost var stored := file[start..page.range.end];
    assert stored[..PREFIX_BYTES] == file[start..start + PREFIX_BYTES] by {
      SliceOfSlice(file, start, page.range.end, 0, PREFIX_BYTES);
    }
    if Reliable(store, file) {
      ReliableReads(store, file, start, start + PREFIX_BYTES);
    }
    var prefix := Read(store, start, start + PREFIX_BYTES);
    if prefix.Err? {
      r := Fail(prefix);
      return;
    }
    FirstBytes(store, file, start, page.range.end, prefix.value, 0);
    var found := header(prefix.value);
    if found.Err? {
      r := Fail(found);
      return;
    }
    if found.value.None? {
      r := FinishPage(store, page, prefix.value, file);
      return;
    }
    HeaderFits(header, prefix.value);
    r, log, outcome := ReadBody(page, prefix.value, found.value.value, model, store, budget, others, file);
  }

  lemma PlannedMissing(plan: Discovery.Plan, cached: seq<Byte>, pageBytes: nat, page: Page)
    requires Planned(plan, cached, pageBytes, page)
    ensures var found := ValueRanges(cached, pageBytes, page.rows, page.nullable, page.selected);
            found.Ok? && Missing(plan, |cached|) == Rest(Rest(found.value.spans, |cached|), |cached|)
  {
    hide ValueRanges;
  }

  lemma PaidInOrder(terms: Terms, start: Account, end: Account, trace: Trace, initial: nat, held: nat)
    requires Paid(terms, start, end, trace, initial, held)
    ensures end == AfterAll(terms, start, trace.log)
  {
  }

  lemma WholeIsLikeStored(stored: seq<Byte>, n: nat, page: Page)
    ensures LikeStored(stored, stored, n, page)
  {
  }
}
