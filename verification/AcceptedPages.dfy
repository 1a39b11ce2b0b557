/** The pages that are accepted are exactly the pages that some writer laid out. */
module AcceptedPages {
  import opened AcceptedStreams
  import opened Bytes
  import opened DefinitionLevels
  import opened ExactRanges
  import opened LengthCodec
  import opened LengthStream
  import opened Options
  import opened PageValues
  import opened WrittenPages

  // ---------------------------------------------------------------- levels

  lemma SizeOfLevels(bytes: seq<Byte>)
    requires |bytes| == 4
    ensures Number(bytes) < 0x1_0000_0000 && LittleEndian(Number(bytes), 4) == bytes
  {
    hide Number, LittleEndian, Pow2;
    NumberBound(bytes);
    Pow2Of32();
    LittleEndianOfNumber(bytes);
  }

  /** Accepted levels are the runs of some writer behind their size, or nothing at all. */
  lemma AcceptedRowLevels(body: seq<Byte>, rows: nat, nullable: bool) returns (runs: seq<LevelRun>)
    requires RowLevels(body, rows, nullable).Ok?
    ensures var Parsed(valid, at) := RowLevels(body, rows, nullable).value;
            && at <= |body|
            && (!nullable ==> at == 0 && valid == AllValid(rows))
            && (nullable ==>
                  && Fits(runs, valid) && |RunsBytes(runs, valid)| < 0x1_0000_0000
                  && LittleEndian(|RunsBytes(runs, valid)|, 4) + RunsBytes(runs, valid) == body[..at])
  {
    hide Definitions, Number, LittleEndian, Fits, RunsBytes;
    if nullable {
      var at := RowLevels(body, rows, nullable).value.at;
      SizeOfLevels(body[..4]);
      runs := AcceptedDefinitions(body[4..at], rows);
      assert body[..at] == body[..4] + body[4..at];
    } else {
      runs := [];
    }
  }

  // ---------------------------------------------------------------- values

  /** Rows one after the other, which end where the page ends. */
  ghost predicate Filled(body: seq<Byte>, s: Structure) {
    && |s.lengths| == Trues(s.valid) && s.payloadStart <= |body|
    && (forall row :: 0 <= row < |s.valid| ==> RowLength(s, row) >= 0)
    && RowStart(s, |s.valid|) == |body|
  }

  lemma {:induction false} StartsInOrder(body: seq<Byte>, s: Structure, k: nat)
    requires Filled(body, s) && k <= |s.valid|
    ensures s.payloadStart <= RowStart(s, k) <= |body|
    ensures k < |s.valid| ==> RowStart(s, k) <= RowStart(s, k + 1) <= |body|
    decreases |s.valid| - k
  {
    hide RowLength, Trues;
    if k < |s.valid| {
      StartsInOrder(body, s, k + 1);
      StartAfterPayloadStart(body, s, k);
    } else {
      StartAfterPayloadStart(body, s, k);
    }
  }

  lemma {:induction false} StartAfterPayloadStart(body: seq<Byte>, s: Structure, k: nat)
    requires Filled(body, s) && k <= |s.valid|
    ensures s.payloadStart <= RowStart(s, k)
  {
    hide RowLength, Trues;
    if k > 0 {
      StartAfterPayloadStart(body, s, k - 1);
    }
  }

  /** The value of a row: the bytes up to the next row, or null. */
  ghost function ValueAt(body: seq<Byte>, s: Structure, row: nat): Value
    requires Filled(body, s) && row < |s.valid|
  {
    StartsInOrder(body, s, row);
    if s.valid[row] then Some(body[RowStart(s, row)..RowStart(s, row + 1)]) else None
  }

  ghost function ValuesOf(body: seq<Byte>, s: Structure, k: nat): (r: seq<Value>)
    requires Filled(body, s) && k <= |s.valid|
    ensures |r| == k
  {
    if k == 0 then [] else ValuesOf(body, s, k - 1) + [ValueAt(body, s, k - 1)]
  }

  lemma NextLength(s: Structure, row: nat)
    requires row < |s.valid| && |s.lengths| == Trues(s.valid)
    ensures Trues(s.valid[..row]) <= Trues(s.valid[..row + 1]) <= |s.lengths|
    ensures s.valid[row] ==> s.lengths[..Trues(s.valid[..row + 1])] == s.lengths[..Trues(s.valid[..row])] + [RowLength(s, row)]
    ensures !s.valid[row] ==> Trues(s.valid[..row + 1]) == Trues(s.valid[..row]) && RowLength(s, row) == 0
  {
    assert s.valid[..row + 1][..row] == s.valid[..row];
    assert s.valid[..|s.valid|] == s.valid;
    if row + 1 < |s.valid| {
      TruesUpTo(s.valid, row + 1, |s.valid|);
    }
  }

  lemma OneMoreValue(values: seq<Value>, last: Value)
    ensures Flags(values + [last]) == Flags(values) + [last.Some?]
    ensures Lengths(values + [last]) == Lengths(values) + (if last.Some? then [|last.value|] else [])
    ensures WrittenPages.Payload(values + [last]) == WrittenPages.Payload(values) + BytesOf(last)
  {
    assert (values + [last])[..|values|] == values;
  }

  lemma OneMoreFlag(flags: seq<bool>, k: nat)
    requires k < |flags|
    ensures flags[..k + 1] == flags[..k] + [flags[k]]
  {
  }

  lemma Adjacent(body: seq<Byte>, a: nat, b: nat, c: nat)
    requires a <= b <= c <= |body|
    ensures body[a..c] == body[a..b] + body[b..c]
  {
  }

  lemma NoValue()
    ensures Flags([]) == [] && Lengths([]) == [] && WrittenPages.Payload([]) == [] && Trues([]) == 0
  {
  }

  /** Cutting the payload at the rows gives values with the levels, the lengths and the bytes of the page. */
  lemma {:induction false} ValuesMatch(body: seq<Byte>, s: Structure, k: nat)
    requires Filled(body, s) && k <= |s.valid|
    ensures Flags(ValuesOf(body, s, k)) == s.valid[..k]
    ensures Trues(s.valid[..k]) <= |s.lengths| && Lengths(ValuesOf(body, s, k)) == s.lengths[..Trues(s.valid[..k])]
    ensures s.payloadStart <= RowStart(s, k) <= |body|
    ensures WrittenPages.Payload(ValuesOf(body, s, k)) == body[s.payloadStart..RowStart(s, k)]
  {
    hide RowLength, Filled, Flags, Lengths, WrittenPages.Payload, Trues, BytesOf, RowStart;
    StartsInOrder(body, s, k);
    LengthForEach(body, s);
    if k == 0 {
      NoValue();
      FirstStart(body, s);
      assert s.valid[..0] == [];
    } else {
      ValuesMatch(body, s, k - 1);
      StartsInOrder(body, s, k - 1);
      NextLength(s, k - 1);
      LastValue(body, s, k - 1);
      OneMoreValue(ValuesOf(body, s, k - 1), ValueAt(body, s, k - 1));
      OneMoreFlag(s.valid, k - 1);
      Adjacent(body, s.payloadStart, RowStart(s, k - 1), RowStart(s, k));
    }
  }

  lemma FirstStart(body: seq<Byte>, s: Structure)
    requires Filled(body, s)
    ensures RowStart(s, 0) == s.payloadStart
  {
  }

  lemma LastValue(body: seq<Byte>, s: Structure, row: nat)
    requires Filled(body, s) && row < |s.valid|
    ensures s.payloadStart <= RowStart(s, row) <= RowStart(s, row + 1) <= |body|
    ensures RowStart(s, row + 1) == RowStart(s, row) + RowLength(s, row)
    ensures var last := ValueAt(body, s, row);
            && (last.Some? <==> s.valid[row])
            && BytesOf(last) == body[RowStart(s, row)..RowStart(s, row + 1)]
            && (last.Some? ==> |last.value| == RowLength(s, row))
  {
    StartsInOrder(body, s, row);
  }

  lemma LengthForEach(body: seq<Byte>, s: Structure)
    requires Filled(body, s)
    ensures |s.lengths| == Trues(s.valid)
  {
  }

  lemma LastLength(body: seq<Byte>, s: Structure, row: nat)
    requires Filled(body, s) && row < |s.valid|
    ensures RowStart(s, row + 1) == RowStart(s, row) + RowLength(s, row)
    ensures |BytesOf(ValueAt(body, s, row))| == RowLength(s, row)
    ensures s.valid[row] ==> RowLength(s, row) in s.lengths
  {
    StartsInOrder(body, s, row);
    if s.valid[row] {
      LengthIndex(s, row);
      assert s.lengths[Trues(s.valid[..row])] == RowLength(s, row);
    }
  }

  // ---------------------------------------------------------------- pages

  /** `body` is the page that this writer lays out for these values. */
  ghost predicate PageOf(body: seq<Byte>, nullable: bool, runs: seq<LevelRun>, layout: Layout, values: seq<Value>) {
    Written(nullable, runs, layout, values) && PageBody(nullable, runs, layout, values) == body
  }

  /** The lengths of an accepted page were laid out by some writer. */
  lemma AcceptedLayout(body: seq<Byte>, at: nat, s: Structure) returns (layout: Layout)
    requires at <= |body| && LengthsAt(body, at, s.valid) == Ok(s)
    ensures at <= s.payloadStart <= |body| && layout.Stream?
    ensures Encodes(layout, s.lengths) && LayoutBytes(layout, s.lengths) == body[at..s.payloadStart]
    ensures forall i :: 0 <= i < |s.lengths| ==> s.lengths[i] <= MAX_LENGTH
  {
    hide LengthStreamEnd, DecodeLengths, BlocksFit, BlocksBytes, HeaderFits, HeaderBytes, Accumulate, Leads, Trues;
    var count := Trues(s.valid);
    var end := LengthStreamEnd(body[at..], count).value;
    var stream := body[at..][..end];
    StreamOfSlice(body[at..], end, count);
    var integers, header, blocks, deltas := AcceptedStream(stream, count);
    assert stream[..end] == stream;
    assert body[at..s.payloadStart] == stream;
    layout := Stream(integers, header, blocks, deltas);
    if count != 0 {
      AccumulateLeads(header.first, deltas);
      AccumulateStarts(header.first, deltas);
    }
  }

  lemma AccumulateStarts(first: int, deltas: seq<int>)
    ensures Accumulate(first, deltas)[0] == first
  {
  }

  lemma PageFilled(body: seq<Byte>, rows: nat, nullable: bool, selected: seq<nat>, s: Structure)
    requires Ascending(selected) && ValueRanges(body, |body|, rows, nullable, selected).Ok?
    requires StructureOf(body, |body|, rows, nullable) == Ok(s)
    ensures Filled(body, s)
  {
    hide StructureOf, PlaceRows, RowLength, Stretches;
    if s.omitted {
      NothingFilled(s, |s.valid|);
    } else {
      PlacementSucceeds(s, |body|, selected);
    }
  }

  lemma {:induction false} NothingFilled(s: Structure, k: nat)
    requires s.lengths == [] && Trues(s.valid) == 0 && k <= |s.valid|
    ensures RowStart(s, k) == s.payloadStart && forall row :: 0 <= row < k ==> RowLength(s, row) == 0
  {
    if k > 0 {
      NothingFilled(s, k - 1);
      if s.valid[k - 1] {
        LengthIndex(s, k - 1);
      }
    }
  }

  lemma {:induction false} LongestValue(body: seq<Byte>, s: Structure, k: nat)
    requires Filled(body, s) && k <= |s.valid|
    requires forall i :: 0 <= i < |s.lengths| ==> s.lengths[i] <= MAX_LENGTH
    ensures Writable(ValuesOf(body, s, k))
  {
    hide Filled, RowStart, RowLength;
    if k > 0 {
      LongestValue(body, s, k - 1);
      LengthForEach(body, s);
      LastLength(body, s, k - 1);
      LastFits(body, s, k - 1);
    }
  }

  lemma LastFits(body: seq<Byte>, s: Structure, row: nat)
    requires Filled(body, s) && row < |s.valid|
    requires forall i :: 0 <= i < |s.lengths| ==> s.lengths[i] <= MAX_LENGTH
    ensures ValueAt(body, s, row).Some? ==> |ValueAt(body, s, row).value| <= MAX_LENGTH
  {
    hide Filled, RowStart, RowLength;
    LengthForEach(body, s);
    LastLength(body, s, row);
  }

  /** The parts of a page, put together. */
  lemma PageFromParts(body: seq<Byte>, nullable: bool, runs: seq<LevelRun>, layout: Layout, values: seq<Value>,
                      at: nat, start: nat)
    requires Writable(values) && at <= start <= |body|
    requires nullable ==> Fits(runs, Flags(values)) && |RunsBytes(runs, Flags(values))| < 0x1_0000_0000
    requires !nullable ==> Flags(values) == AllValid(|values|)
    requires LevelBytes(nullable, runs, values) == body[..at]
    requires Encodes(layout, Lengths(values)) && LayoutBytes(layout, Lengths(values)) == body[at..start]
    requires WrittenPages.Payload(values) == body[start..]
    ensures PageOf(body, nullable, runs, layout, values)
  {
    hide LevelBytes, LayoutBytes, Encodes, Fits, RunsBytes, Lengths, WrittenPages.Payload, Writable;
    forall i | 0 <= i < |values| && !nullable
      ensures values[i].Some?
    {
      assert Flags(values)[i] == AllValid(|values|)[i];
    }
    assert body == body[..at] + (body[at..start] + body[start..]);
  }

  /** The levels and the lengths that an accepted page is made of. */
  lemma AcceptedParts(body: seq<Byte>, rows: nat, nullable: bool, selected: seq<nat>)
    requires ValueRanges(body, |body|, rows, nullable, selected).Ok?
    ensures StructureOf(body, |body|, rows, nullable).Ok? && RowLevels(body, rows, nullable).Ok?
    ensures var s, levels := StructureOf(body, |body|, rows, nullable).value, RowLevels(body, rows, nullable).value;
            && |s.valid| == rows && s.valid == levels.value && levels.at <= |body|
            && (s.omitted ==> s.payloadStart == levels.at && s.lengths == [])
            && (!s.omitted ==> LengthsAt(body, levels.at, s.valid) == Ok(s))
  {
    hide RowLevels, LengthsAt, PlaceRows, Trues;
  }

  lemma WholeStructure(body: seq<Byte>, s: Structure)
    requires Filled(body, s)
    ensures var values := ValuesOf(body, s, |s.valid|);
            && Flags(values) == s.valid && Lengths(values) == s.lengths && s.payloadStart <= |body|
            && WrittenPages.Payload(values) == body[s.payloadStart..]
  {
    hide Flags, Lengths, WrittenPages.Payload, Trues, RowLength, RowStart, Filled, ValuesOf;
    var n := |s.valid|;
    ValuesMatch(body, s, n);
    LengthForEach(body, s);
    assert s.valid[..n] == s.valid;
    assert s.lengths[..Trues(s.valid)] == s.lengths;
    WholePayload(body, s);
  }

  /** Every page that is accepted was laid out by some writer for some values. */
  lemma AcceptedPageIsWritten(body: seq<Byte>, rows: nat, nullable: bool, selected: seq<nat>)
    returns (runs: seq<LevelRun>, layout: Layout, values: seq<Value>)
    requires Ascending(selected) && ValueRanges(body, |body|, rows, nullable, selected).Ok?
    ensures |values| == rows && PageOf(body, nullable, runs, layout, values)
  {
    hide RowLevels, StructureOf, ValueRanges, ValuesOf, Flags, Lengths, WrittenPages.Payload, Fits, RunsBytes, LayoutBytes,
         Encodes, LengthsAt, Filled, LittleEndian, Number, Writable, PageOf, Ascending, AllValid;
    AcceptedParts(body, rows, nullable, selected);
    var s := StructureOf(body, |body|, rows, nullable).value;
    var at := RowLevels(body, rows, nullable).value.at;
    PageFilled(body, rows, nullable, selected, s);
    runs := AcceptedRowLevels(body, rows, nullable);
    values := ValuesOf(body, s, rows);
    WholeStructure(body, s);
    if s.omitted {
      layout := Omitted;
      NothingLaidOut();
      LongestValue(body, s, rows);
    } else {
      layout := AcceptedLayout(body, at, s);
      LongestValue(body, s, rows);
    }
    PageFromParts(body, nullable, runs, layout, values, at, s.payloadStart);
  }

  lemma WholePayload(body: seq<Byte>, s: Structure)
    requires Filled(body, s)
    ensures RowStart(s, |s.valid|) == |body| && s.payloadStart <= |body| && body[s.payloadStart..|body|] == body[s.payloadStart..]
  {
  }

  lemma NothingLaidOut()
    ensures Encodes(Omitted, []) && LayoutBytes(Omitted, []) == []
  {
  }

  /** What a reader finds in the page of a writer. */
  ghost function StructureOfPage(body: seq<Byte>, layout: Layout, values: seq<Value>): Structure
    requires |WrittenPages.Payload(values)| <= |body|
  {
    Structure(Flags(values), Lengths(values), |body| - |WrittenPages.Payload(values)|, layout.Omitted?)
  }

  /** The page of a writer, whose selected rows lie in at most 8192 separate places. */
  ghost predicate ReadablePage(body: seq<Byte>, nullable: bool, runs: seq<LevelRun>, layout: Layout, values: seq<Value>,
                               selected: seq<nat>)
  {
    && PageOf(body, nullable, runs, layout, values)
    && |WrittenPages.Payload(values)| <= |body| && |Lengths(values)| == Trues(Flags(values))
    && Stretches(StructureOfPage(body, layout, values), selected, |values|) <= 8192
  }

  /** A page is accepted exactly when some writer laid it out for some values, but for too many places to read. */
  lemma AcceptedExactlyWritten(body: seq<Byte>, rows: nat, nullable: bool, selected: seq<nat>)
    requires |body| <= USIZE_MAX && Ascending(selected)
    ensures ValueRanges(body, |body|, rows, nullable, selected).Ok?
       <==> exists runs, layout, values ::
              |values| == rows && ReadablePage(body, nullable, runs, layout, values, selected)
  {
    hide ValueRanges, PageBody, Written, Flags, Lengths, WrittenPages.Payload, Stretches, Ascending, Trues, RowHolds, Wanted;
    if ValueRanges(body, |body|, rows, nullable, selected).Ok? {
      var runs, layout, values := AcceptedPageIsWritten(body, rows, nullable, selected);
      PayloadAtEnd(nullable, runs, layout, values);
      LengthsCount(values);
      WrittenPageIsRead(nullable, runs, layout, values, selected);
      assert ReadablePage(body, nullable, runs, layout, values, selected);
    }
    forall runs, layout, values | |values| == rows && ReadablePage(body, nullable, runs, layout, values, selected)
      ensures ValueRanges(body, |body|, rows, nullable, selected).Ok?
    {
      WrittenPageIsRead(nullable, runs, layout, values, selected);
    }
  }

  /** Whoever laid a page out, it means the same values. */
  lemma OneMeaning(body: seq<Byte>, nullable: bool, runs: seq<LevelRun>, layout: Layout, values: seq<Value>,
                   otherRuns: seq<LevelRun>, otherLayout: Layout, others: seq<Value>)
    requires PageOf(body, nullable, runs, layout, values) && PageOf(body, nullable, otherRuns, otherLayout, others)
    requires |values| == |others| && |body| <= USIZE_MAX
    ensures values == others
  {
    hide PageBody, Written, Lengths, WrittenPages.Payload, RowStart, Trues, ValueRanges, Stretches, Wanted, StructureOf;
    StructureFound(nullable, runs, layout, values);
    StructureFound(nullable, otherRuns, otherLayout, others);
    WrittenPageIsRead(nullable, runs, layout, values, []);
    WrittenPageIsRead(nullable, otherRuns, otherLayout, others, []);
    PayloadAtEnd(nullable, runs, layout, values);
    PayloadAtEnd(nullable, otherRuns, otherLayout, others);
    var s := StructureOfPage(body, layout, values);
    assert s == StructureOfPage(body, otherLayout, others);
    forall row | 0 <= row < |values|
      ensures values[row] == others[row]
    {
      assert RowHolds(body, s, row, values[row]) && RowHolds(body, s, row, others[row]);
      assert Flags(values)[row] == Flags(others)[row];
    }
  }
}
