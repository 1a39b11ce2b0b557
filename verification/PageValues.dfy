/** From the levels and lengths of a page body to the byte ranges of its selected rows. */
module PageValues {
  import opened Bytes
  import opened DefinitionLevels
  import opened LengthCodec
  import opened LengthStream
  import opened Spans

  const MAX_RANGES: nat := 8192

  // ---------------------------------------------------------------- levels and lengths

  function AllValid(rows: nat): seq<bool> { seq(rows, _ => true) }

  /** Which rows hold a value, and where the length stream starts. */
  function RowLevels(body: seq<Byte>, rows: nat, nullable: bool): (r: Result<Parsed<seq<bool>>>)
    ensures r.Ok? ==> |r.value.value| == rows && r.value.at <= |body|
  {
    if !nullable then Ok(Parsed(AllValid(rows), 0))
    else
      var size := Take(body, 0, 4);
      if size.Err? then Fail(size)
      else
        var levels := Take(body, 4, Number(body[..4]));
        if levels.Err? then Fail(levels)
        else
          var valid := Definitions(body[4..levels.value], rows);
          if valid.Ok? then Ok(Parsed(valid.value, levels.value))
          else if valid.error.NeedBytes? then Err(Invalid(TruncatedDefinitionLevels))
          else Fail(valid)
  }

  function Trues(flags: seq<bool>): nat {
    if flags == [] then 0 else Trues(flags[..|flags| - 1]) + (if flags[|flags| - 1] then 1 else 0)
  }

  /** The rows' levels, the lengths of the valid ones and the offset of the payload. */
  datatype Structure = Structure(valid: seq<bool>, lengths: seq<int>, payloadStart: nat, omitted: bool)

  /** The lengths of the valid rows, whose stream starts at `at`. */
  function LengthsAt(body: seq<Byte>, at: nat, valid: seq<bool>): (r: Result<Structure>)
    requires at <= |body|
    ensures r.Ok? ==> r.value.valid == valid && at <= r.value.payloadStart <= |body| && !r.value.omitted
    ensures r.Ok? ==> |r.value.lengths| == Trues(valid)
  {
    var count := Trues(valid);
    var end := LengthStreamEnd(body[at..], count);
    if end.Ok? then
      StreamOfSlice(body[at..], end.value, count);
      Ok(Structure(valid, DecodeLengths(body[at..][..end.value], count).value, at + end.value, false))
    else if end.error.NeedBytes? then Err(NeedBytes(at + end.error.end))
    else Fail(end)
  }

  function StructureOf(body: seq<Byte>, pageBytes: nat, rows: nat, nullable: bool): (r: Result<Structure>)
    ensures r.Ok? ==> |r.value.valid| == rows && r.value.payloadStart <= |body|
    ensures r.Ok? ==> |r.value.lengths| == Trues(r.value.valid)
    ensures r.Ok? && r.value.omitted ==> r.value.payloadStart == pageBytes && r.value.lengths == []
  {
    var levels := RowLevels(body, rows, nullable);
    if levels.Err? then Fail(levels)
    else
      var Parsed(valid, at) := levels.value;
      // A page of nulls may end with its levels, without any length stream.
      if Trues(valid) == 0 && at == pageBytes then Ok(Structure(valid, [], at, true))
      else LengthsAt(body, at, valid)
  }

  /** The stream found in `bytes` is also found in the exact slice handed to the decoder. */
  lemma StreamOfSlice(bytes: seq<Byte>, end: nat, count: nat)
    requires LengthStreamEnd(bytes, count) == Ok(end)
    ensures end <= |bytes| && LengthStreamEnd(bytes[..end], count) == Ok(end)
  {
    hide LengthStreamEnd;
    LengthStreamAgrees(bytes[..end], bytes, count);
  }

  // ---------------------------------------------------------------- placing the rows

  datatype Placement = Placement(offset: nat, spans: seq<Span>, nextLength: nat, nextSelected: nat)

  /** The length of a row's value, or an error; a null row takes no bytes. */
  function LengthOf(s: Structure, row: nat, nextLength: nat): (r: Result<nat>)
    requires row < |s.valid|
    ensures r.Err? ==> r.error.Invalid?
  {
    if !s.valid[row] then Ok(0)
    else if nextLength >= |s.lengths| then Err(Invalid(MissingLength))
    else if s.lengths[nextLength] < 0 then Err(Invalid(NegativeLength))
    else Ok(s.lengths[nextLength])
  }

  /** Adds `start..end`, joining it to a range that ends where it starts. */
  function AddSpan(spans: seq<Span>, start: nat, end: nat): (r: Result<seq<Span>>)
    ensures r.Err? ==> r.error == Fallback(SelectedRanges)
  {
    if start >= end then Ok(spans)
    else if spans != [] && spans[|spans| - 1].end == start
    then Ok(spans[|spans| - 1 := Span(spans[|spans| - 1].start, end)])
    else if |spans| == MAX_RANGES then Err(Fallback(SelectedRanges))
    else Ok(spans + [Span(start, end)])
  }

  function PlaceRow(s: Structure, pageBytes: nat, selected: seq<nat>, row: nat, p: Placement): (r: Result<Placement>)
    requires row < |s.valid|
    ensures r.Err? ==> r.error.Invalid? || r.error == Fallback(SelectedRanges)
  {
    var length := LengthOf(s, row, p.nextLength);
    if length.Err? then Fail(length)
    else
      var end := p.offset + length.value;
      if end > pageBytes then Err(Invalid(PayloadLength))
      else
        var isSelected := p.nextSelected < |selected| && selected[p.nextSelected] == row;
        var spans := if isSelected then AddSpan(p.spans, p.offset, end) else Ok(p.spans);
        if spans.Err? then Fail(spans)
        else Ok(Placement(end, spans.value, p.nextLength + (if s.valid[row] then 1 else 0),
                          p.nextSelected + (if isSelected then 1 else 0)))
  }

  /** The first `k` rows placed one after the other. */
  function PlaceUpTo(s: Structure, pageBytes: nat, selected: seq<nat>, k: nat): (r: Result<Placement>)
    requires k <= |s.valid|
    ensures r.Err? ==> r.error.Invalid? || r.error == Fallback(SelectedRanges)
  {
    if k == 0 then Ok(Placement(s.payloadStart, [], 0, 0))
    else
      var before := PlaceUpTo(s, pageBytes, selected, k - 1);
      if before.Err? then before else PlaceRow(s, pageBytes, selected, k - 1, before.value)
  }

  /** The payload's start and the byte ranges of the selected rows. */
  datatype Payload = Payload(start: nat, spans: seq<Span>)

  function PlaceRows(s: Structure, pageBytes: nat, selected: seq<nat>): (r: Result<Payload>) {
    var placed := PlaceUpTo(s, pageBytes, selected, |s.valid|);
    if placed.Err? then Fail(placed)
    else if placed.value.offset != pageBytes then Err(Invalid(PayloadLengthSum))
    else Ok(Payload(s.payloadStart, placed.value.spans))
  }

  function ValueRanges(body: seq<Byte>, pageBytes: nat, rows: nat, nullable: bool, selected: seq<nat>): (r: Result<Payload>) {
    var s := StructureOf(body, pageBytes, rows, nullable);
    if s.Err? then Fail(s)
    else if s.value.omitted then Ok(Payload(s.value.payloadStart, []))
    else PlaceRows(s.value, pageBytes, selected)
  }

  // ---------------------------------------------------------------- the program's loop

  lemma {:induction false} ErrorStays(s: Structure, pageBytes: nat, selected: seq<nat>, j: nat, k: nat)
    requires j <= k <= |s.valid| && PlaceUpTo(s, pageBytes, selected, j).Err?
    ensures PlaceUpTo(s, pageBytes, selected, k) == PlaceUpTo(s, pageBytes, selected, j)
  {
    if j < k {
      ErrorStays(s, pageBytes, selected, j, k - 1);
    }
  }

  /** Places one more row after the rows before it. */
  method ReadRow(s: Structure, pageBytes: nat, selected: seq<nat>, row: nat, p: Placement) returns (r: Result<Placement>)
    requires row < |s.valid|
    ensures r == PlaceRow(s, pageBytes, selected, row, p)
  {
    var Placement(offset, spans, nextLength, nextSelected) := p;
    var length: nat := 0;
    if s.valid[row] {
      if nextLength >= |s.lengths| {
        return Err(Invalid(MissingLength));
      }
      if s.lengths[nextLength] < 0 {
        return Err(Invalid(NegativeLength));
      }
      length := s.lengths[nextLength];
      nextLength := nextLength + 1;
    }
    var end := offset + length;
    if end > pageBytes {
      return Err(Invalid(PayloadLength));
    }
    if nextSelected < |selected| && selected[nextSelected] == row {
      nextSelected := nextSelected + 1;
      if offset < end {
        if spans != [] && spans[|spans| - 1].end == offset {
          spans := spans[|spans| - 1 := Span(spans[|spans| - 1].start, end)];
        } else {
          if |spans| == MAX_RANGES {
            return Err(Fallback(SelectedRanges));
          }
          spans := spans + [Span(offset, end)];
        }
      }
    }
    r := Ok(Placement(end, spans, nextLength, nextSelected));
  }

  method ReadPlacement(s: Structure, pageBytes: nat, selected: seq<nat>) returns (r: Result<Payload>)
    ensures r == PlaceRows(s, pageBytes, selected)
  {
    hide PlaceRow;
    var placed := Placement(s.payloadStart, [], 0, 0);
    for row := 0 to |s.valid|
      invariant PlaceUpTo(s, pageBytes, selected, row) == Ok(placed)
    {
      var next := ReadRow(s, pageBytes, selected, row, placed);
      if next.Err? {
        ErrorStays(s, pageBytes, selected, row + 1, |s.valid|);
        return Fail(next);
      }
      placed := next.value;
    }
    if placed.offset != pageBytes {
      return Err(Invalid(PayloadLengthSum));
    }
    r := Ok(Payload(s.payloadStart, placed.spans));
  }

  method ReadRowLevels(body: seq<Byte>, rows: nat, nullable: bool) returns (r: Result<Parsed<seq<bool>>>)
    ensures r == RowLevels(body, rows, nullable)
  {
    if !nullable {
      return Ok(Parsed(AllValid(rows), 0));
    }
    var size := Take(body, 0, 4);
    if size.Err? { return Fail(size); }
    var levels := Take(body, 4, Number(body[..4]));
    if levels.Err? { return Fail(levels); }
    var valid := ReadDefinitions(body[4..levels.value], rows);
    if valid.Err? {
      return if valid.error.NeedBytes? then Err(Invalid(TruncatedDefinitionLevels)) else Fail(valid);
    }
    r := Ok(Parsed(valid.value, levels.value));
  }

  method ReadLengthsAt(body: seq<Byte>, at: nat, valid: seq<bool>) returns (r: Result<Structure>)
    requires at <= |body|
    ensures r == LengthsAt(body, at, valid)
  {
    hide LengthStreamEnd, DecodeLengths, Trues;
    var count := Trues(valid);
    var end := ReadLengthStreamEnd(body[at..], count);
    if end.Err? {
      return if end.error.NeedBytes? then Err(NeedBytes(at + end.error.end)) else Fail(end);
    }
    StreamOfSlice(body[at..], end.value, count);
    var decoded := DecodeLengths(body[at..][..end.value], count);
    assert |decoded.value| == count && decoded.at == end.value; // the decoder's own checks
    r := Ok(Structure(valid, decoded.value, at + end.value, false));
  }

  method ReadStructure(body: seq<Byte>, pageBytes: nat, rows: nat, nullable: bool) returns (r: Result<Structure>)
    ensures r == StructureOf(body, pageBytes, rows, nullable)
  {
    hide RowLevels, LengthsAt;
    var levels := ReadRowLevels(body, rows, nullable);
    if levels.Err? { return Fail(levels); }
    var valid, at := levels.value.value, levels.value.at;
    if Trues(valid) == 0 && at == pageBytes {
      return Ok(Structure(valid, [], at, true));
    }
    r := ReadLengthsAt(body, at, valid);
  }

  method ReadValueRanges(body: seq<Byte>, pageBytes: nat, rows: nat, nullable: bool, selected: seq<nat>)
    returns (r: Result<Payload>)
    ensures r == ValueRanges(body, pageBytes, rows, nullable, selected)
  {
    var s := ReadStructure(body, pageBytes, rows, nullable);
    if s.Err? { return Fail(s); }
    if s.value.omitted {
      return Ok(Payload(s.value.payloadStart, []));
    }
    r := ReadPlacement(s.value, pageBytes, selected);
  }

  // ---------------------------------------------------------------- more bytes do not matter

  lemma LevelsAgree(part: seq<Byte>, whole: seq<Byte>, rows: nat, nullable: bool)
    requires part <= whole
    ensures Agrees(RowLevels(part, rows, nullable), RowLevels(whole, rows, nullable), |part|, |whole|)
    ensures var w := RowLevels(whole, rows, nullable);
            StopsLater(RowLevels(part, rows, nullable), w.Ok?, if w.Ok? then w.value.at else 0)
  {
    hide Definitions;
    if nullable && |part| >= 4 {
      assert part[..4] == whole[..4];
      var levels := Take(part, 4, Number(part[..4]));
      if levels.Ok? {
        assert part[4..levels.value] == whole[4..levels.value];
      }
    }
  }

  lemma LengthsAgree(part: seq<Byte>, whole: seq<Byte>, at: nat, valid: seq<bool>)
    requires part <= whole && at <= |part|
    ensures Agrees(LengthsAt(part, at, valid), LengthsAt(whole, at, valid), |part|, |whole|)
    ensures var w := LengthsAt(whole, at, valid);
            StopsLater(LengthsAt(part, at, valid), w.Ok?, if w.Ok? then w.value.payloadStart else 0)
  {
    hide LengthStreamEnd, DecodeLengths, Trues;
    assert part[at..] <= whole[at..];
    LengthStreamAgrees(part[at..], whole[at..], Trues(valid));
    var end := LengthStreamEnd(part[at..], Trues(valid));
    if end.Ok? {
      assert part[at..][..end.value] == whole[at..][..end.value];
    }
  }

  lemma StructureAgrees(part: seq<Byte>, whole: seq<Byte>, pageBytes: nat, rows: nat, nullable: bool)
    requires part <= whole
    ensures Agrees(StructureOf(part, pageBytes, rows, nullable), StructureOf(whole, pageBytes, rows, nullable),
                   |part|, |whole|)
    ensures var w := StructureOf(whole, pageBytes, rows, nullable);
            StopsLater(StructureOf(part, pageBytes, rows, nullable), w.Ok?, if w.Ok? then w.value.payloadStart else 0)
  {
    hide RowLevels, LengthsAt, Trues;
    LevelsAgree(part, whole, rows, nullable);
    var levels := RowLevels(part, rows, nullable);
    if levels.Ok? {
      LengthsAgree(part, whole, levels.value.at, levels.value.value);
    }
  }

  /**
   * Parsing a prefix either asks for bytes beyond it, though for none of the payload, or already gives the
   * whole body's result.
   */
  lemma ValueRangesAgree(part: seq<Byte>, whole: seq<Byte>, pageBytes: nat, rows: nat, nullable: bool, selected: seq<nat>)
    requires part <= whole
    ensures Agrees(ValueRanges(part, pageBytes, rows, nullable, selected),
                   ValueRanges(whole, pageBytes, rows, nullable, selected), |part|, |whole|)
    ensures var w := ValueRanges(whole, pageBytes, rows, nullable, selected);
            StopsLater(ValueRanges(part, pageBytes, rows, nullable, selected), w.Ok?, if w.Ok? then w.value.start else 0)
  {
    hide StructureOf, PlaceUpTo;
    StructureAgrees(part, whole, pageBytes, rows, nullable);
  }
}
