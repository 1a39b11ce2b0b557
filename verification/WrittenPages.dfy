/** Pages as a writer lays them out: what is read from the ranges of a row is the row's own value. */
module WrittenPages {
  import opened Base128
  import opened Bytes
  import opened DefinitionLevels
  import opened ExactRanges
  import opened LengthCodec
  import opened LengthStream
  import opened Options
  import opened PageValues
  import opened Spans

  const MAX_LENGTH: nat := 0x7fff_ffff

  /** A row's value; None is null. */
  type Value = Option<seq<Byte>>

  function Flags(values: seq<Value>): (r: seq<bool>)
    ensures |r| == |values|
  {
    seq(|values|, i requires 0 <= i < |values| => values[i].Some?)
  }

  function BytesOf(value: Value): seq<Byte> {
    match value
    case Some(bytes) => bytes
    case None => []
  }

  /** The lengths of the values that are not null, in row order. */
  function Lengths(values: seq<Value>): seq<int> {
    if values == [] then []
    else
      var last := values[|values| - 1];
      Lengths(values[..|values| - 1]) + (if last.Some? then [|last.value|] else [])
  }

  /** The values one after the other. */
  function Payload(values: seq<Value>): seq<Byte> {
    if values == [] then [] else Payload(values[..|values| - 1]) + BytesOf(values[|values| - 1])
  }

  ghost predicate Writable(values: seq<Value>) {
    forall i :: 0 <= i < |values| && values[i].Some? ==> |values[i].value| <= MAX_LENGTH
  }

  lemma {:induction false} LengthsInRange(values: seq<Value>)
    requires Writable(values)
    ensures forall i :: 0 <= i < |Lengths(values)| ==> 0 <= Lengths(values)[i] <= MAX_LENGTH
  {
    if values != [] {
      LengthsInRange(values[..|values| - 1]);
    }
  }

  /** A length for each value that is not null. */
  lemma {:induction false} LengthsCount(values: seq<Value>)
    ensures |Lengths(values)| == Trues(Flags(values))
  {
    if values != [] {
      var n := |values| - 1;
      LengthsCount(values[..n]);
      assert Flags(values)[..n] == Flags(values[..n]);
    }
  }

  /** The levels of a nullable column take four bytes of size, then the runs. */
  ghost function LevelBytes(nullable: bool, runs: seq<LevelRun>, values: seq<Value>): seq<Byte>
    requires nullable ==> Fits(runs, Flags(values))
  {
    if nullable then LittleEndian(|RunsBytes(runs, Flags(values))|, 4) + RunsBytes(runs, Flags(values)) else []
  }

  /** How a writer lays out the lengths; after nothing but nulls it may leave them out. */
  datatype Layout =
    | Omitted
    | Stream(integers: Integers, header: Header, blocks: seq<DeltaBlock>, deltas: seq<int>)

  /**
   * Any block geometry that readers support, any widths and padding, deltas that may have wrapped, and integers
   * written out in any way.
   */
  ghost predicate Encodes(layout: Layout, lengths: seq<int>) {
    match layout
    case Omitted => lengths == []
    case Stream(integers, header, blocks, deltas) =>
      && Supported(header) && HeaderFits(integers, header, |lengths|) && BlocksFit(blocks, header, deltas) && |deltas| == Deltas(|lengths|)
      && (lengths != [] ==> header.first == lengths[0] && Leads(lengths, deltas))
  }

  ghost function LayoutBytes(layout: Layout, lengths: seq<int>): seq<Byte>
    requires Encodes(layout, lengths)
  {
    match layout
    case Omitted => []
    case Stream(integers, _, blocks, _) => HeaderBytes(integers) + BlocksBytes(blocks)
  }

  ghost predicate Written(nullable: bool, runs: seq<LevelRun>, layout: Layout, values: seq<Value>) {
    && Writable(values)
    && (nullable ==> Fits(runs, Flags(values)) && |RunsBytes(runs, Flags(values))| < 0x1_0000_0000)
    && (!nullable ==> forall i :: 0 <= i < |values| ==> values[i].Some?)
    && Encodes(layout, Lengths(values))
  }

  ghost function PageBody(nullable: bool, runs: seq<LevelRun>, layout: Layout, values: seq<Value>): seq<Byte>
    requires Written(nullable, runs, layout, values)
  {
    LevelBytes(nullable, runs, values) + (LayoutBytes(layout, Lengths(values)) + Payload(values))
  }

  // ---------------------------------------------------------------- every page can be written

  /** Every list of values has a layout; if there are lengths, they have a plain stream. */
  lemma PlainLayout(values: seq<Value>) returns (layout: Layout)
    requires Writable(values) && |Lengths(values)| < U64
    ensures Encodes(layout, Lengths(values)) && layout.Stream?
    ensures (LengthsInRange(values); LayoutBytes(layout, Lengths(values)) == PlainStream(Lengths(values)))
  {
    hide Lengths, PlainBlocks, HeaderBytes, HeaderFits, PlainIntegers, Differences;
    LengthsInRange(values);
    var lengths := Lengths(values);
    PlainIntegersFit(lengths);
    if lengths == [] {
      layout := Stream(PlainIntegers([]), PlainHeader([]), [], []);
      NoBlocks();
    } else {
      var deltas := Differences(lengths);
      DifferencesAreSmall(lengths);
      DifferencesLead(lengths);
      PlainBlocksFit(PlainHeader(lengths), deltas);
      layout := Stream(PlainIntegers(lengths), PlainHeader(lengths), PlainBlocks(deltas), deltas);
    }
  }

  // ---------------------------------------------------------------- the structure is found

  /** The size of the levels is read back from its four bytes. */
  lemma LevelSize(size: nat, rest: seq<Byte>)
    requires size < 0x1_0000_0000
    ensures |LittleEndian(size, 4)| == 4 && Number((LittleEndian(size, 4) + rest)[..4]) == size
  {
    hide Number, LittleEndian, Pow2;
    Pow2Of32();
    NumberOfLittleEndian(size, 4);
    assert (LittleEndian(size, 4) + rest)[..4] == LittleEndian(size, 4);
  }

  lemma SizedLevels(size: seq<Byte>, bytes: seq<Byte>, rest: seq<Byte>)
    requires |size| == 4
    ensures var body := size + bytes + rest;
            body[4..4 + |bytes|] == bytes && body == size + (bytes + rest)
  {
  }

  lemma LevelsFound(nullable: bool, runs: seq<LevelRun>, values: seq<Value>, rest: seq<Byte>)
    requires nullable ==> Fits(runs, Flags(values)) && |RunsBytes(runs, Flags(values))| < 0x1_0000_0000
    requires !nullable ==> forall i :: 0 <= i < |values| ==> values[i].Some?
    requires |LevelBytes(nullable, runs, values) + rest| <= USIZE_MAX
    ensures RowLevels(LevelBytes(nullable, runs, values) + rest, |values|, nullable)
         == Ok(Parsed(Flags(values), |LevelBytes(nullable, runs, values)|))
  {
    hide Fits, Definitions, LittleEndian, Number, RunsBytes;
    if nullable {
      var bytes := RunsBytes(runs, Flags(values));
      LevelSize(|bytes|, bytes + rest);
      SizedLevels(LittleEndian(|bytes|, 4), bytes, rest);
      DefinitionsInvertRuns(runs, Flags(values));
    } else {
      assert AllValid(|values|) == Flags(values);
    }
  }

  lemma HeldAtStart(part: seq<Byte>, rest: seq<Byte>)
    ensures Holds(part + rest, 0, part) && part + [] == part
  {
  }

  /** The stream ends where the writer ended it and decodes to the lengths, whatever follows it. */
  lemma LayoutDecodes(layout: Layout, lengths: seq<int>, rest: seq<Byte>)
    requires layout.Stream? && Encodes(layout, lengths)
    requires forall i :: 0 <= i < |lengths| ==> 0 <= lengths[i] <= MAX_LENGTH
    requires |LayoutBytes(layout, lengths) + rest| <= USIZE_MAX
    ensures var stream := LayoutBytes(layout, lengths);
            && LengthStreamEnd(stream + rest, |lengths|) == Ok(|stream|)
            && DecodeLengths(stream + rest, |lengths|).value == lengths
  {
    hide LengthStreamEnd, DecodeLengths, HeaderBytes, HeaderFits, BlocksBytes, BlocksFit, Supported, Holds, Leads, Accumulate;
    var Stream(integers, header, blocks, deltas) := layout;
    HeldAtStart(LayoutBytes(layout, lengths), rest);
    StreamDecodes(LayoutBytes(layout, lengths) + rest, integers, header, |lengths|, blocks, deltas);
    if lengths != [] {
      AccumulateInvertsDifferences(lengths, deltas);
    }
  }

  lemma LengthsFound(body: seq<Byte>, at: nat, values: seq<Value>, layout: Layout)
    requires layout.Stream? && Encodes(layout, Lengths(values))
    requires Writable(values) && at <= |body| <= USIZE_MAX
    requires body[at..] == LayoutBytes(layout, Lengths(values)) + Payload(values)
    ensures LengthsAt(body, at, Flags(values))
         == Ok(Structure(Flags(values), Lengths(values), at + |LayoutBytes(layout, Lengths(values))|, false))
  {
    hide LengthStreamEnd, DecodeLengths, LayoutBytes, Encodes, Lengths, Payload, Flags, Trues;
    LengthsInRange(values);
    LengthsCount(values);
    LayoutDecodes(layout, Lengths(values), Payload(values));
    LayoutDecodes(layout, Lengths(values), []);
    var stream := LayoutBytes(layout, Lengths(values));
    assert stream + [] == stream;
    assert body[at..][..|stream|] == stream;
  }

  /** Without lengths there are no values, and so no bytes of values. */
  lemma {:induction false} OnlyNulls(values: seq<Value>)
    requires Lengths(values) == []
    ensures Payload(values) == []
  {
    if values != [] {
      OnlyNulls(values[..|values| - 1]);
    }
  }

  /** Every stream has its four header integers. */
  lemma StreamNotEmpty(layout: Layout, lengths: seq<int>)
    requires layout.Stream? && Encodes(layout, lengths)
    ensures LayoutBytes(layout, lengths) != []
  {
    hide Groups, BlocksBytes, BlocksFit, Leads;
  }

  /** What a writer laid out is what a reader finds. */
  lemma StructureFound(nullable: bool, runs: seq<LevelRun>, layout: Layout, values: seq<Value>)
    requires Written(nullable, runs, layout, values) && |PageBody(nullable, runs, layout, values)| <= USIZE_MAX
    ensures var body := PageBody(nullable, runs, layout, values);
            && |Payload(values)| <= |body|
            && StructureOf(body, |body|, |values|, nullable)
               == Ok(Structure(Flags(values), Lengths(values), |body| - |Payload(values)|, layout.Omitted?))
  {
    hide LevelBytes, LayoutBytes, RowLevels, LengthsAt, Payload, Fits, Encodes, Lengths, Flags, Trues;
    var body, levels := PageBody(nullable, runs, layout, values), LevelBytes(nullable, runs, values);
    var stream := LayoutBytes(layout, Lengths(values));
    LevelsFound(nullable, runs, values, stream + Payload(values));
    LengthsCount(values);
    match layout
    case Omitted =>
      NoLengths(layout, values);
    case Stream(_, _, _, _) =>
      StreamNotEmpty(layout, Lengths(values));
      assert body[|levels|..] == stream + Payload(values);
      LengthsFound(body, |levels|, values, layout);
  }

  lemma NoLengths(layout: Layout, values: seq<Value>)
    requires layout.Omitted? && Encodes(layout, Lengths(values))
    ensures Lengths(values) == [] && LayoutBytes(layout, Lengths(values)) == [] && Payload(values) == []
  {
    OnlyNulls(values);
  }

  // ---------------------------------------------------------------- the rows are found

  lemma {:induction false} PrefixLengths(values: seq<Value>, k: nat)
    requires k <= |values|
    ensures Lengths(values[..k]) <= Lengths(values) && Payload(values[..k]) <= Payload(values)
  {
    if k == |values| {
      assert values[..k] == values;
    } else {
      var n := |values| - 1;
      PrefixLengths(values[..n], k);
      assert values[..n][..k] == values[..k];
    }
  }

  /** The length at a row's own index is the length of its value. */
  lemma LengthOfRow(values: seq<Value>, row: nat, s: Structure)
    requires row < |values| && s.valid == Flags(values) && s.lengths == Lengths(values)
    ensures |s.lengths| == Trues(s.valid) && RowLength(s, row) == |BytesOf(values[row])|
  {
    hide Payload, Trues;
    LengthsCount(values);
    if values[row].Some? {
      LengthsCount(values[..row]);
      assert Flags(values)[..row] == Flags(values[..row]);
      PrefixLengths(values, row + 1);
      assert values[..row + 1][..row] == values[..row];
      assert Lengths(values[..row + 1])[|Lengths(values[..row])|] == |values[row].value|;
    }
  }

  /** The values up to a row are those before it, then its own. */
  lemma PayloadOfRow(values: seq<Value>, row: nat)
    requires row < |values|
    ensures Payload(values[..row + 1]) == Payload(values[..row]) + BytesOf(values[row])
    ensures Payload(values[..row + 1]) <= Payload(values)
  {
    PrefixLengths(values, row + 1);
    assert values[..row + 1][..row] == values[..row];
  }

  lemma NoPayload()
    ensures Payload([]) == []
  {
  }

  /** Every row starts after the values of the rows before it. */
  lemma {:induction false} StartOfRow(values: seq<Value>, row: nat, s: Structure)
    requires row <= |values| && s.valid == Flags(values) && s.lengths == Lengths(values)
    ensures |s.lengths| == Trues(s.valid) && RowStart(s, row) == s.payloadStart + |Payload(values[..row])|
  {
    hide Lengths, Payload, RowLength, BytesOf, Trues;
    LengthsCount(values);
    if row == 0 {
      assert values[..0] == [] && Payload([]) == [] by { NoPayload(); }
    } else {
      StartOfRow(values, row - 1, s);
      LengthOfRow(values, row - 1, s);
      PayloadOfRow(values, row - 1);
    }
  }

  /** The bytes of `body` between the row's start and the next row's start are `value`. */
  ghost predicate RowHolds(body: seq<Byte>, s: Structure, row: nat, value: Value)
    requires row < |s.valid| && |s.lengths| == Trues(s.valid)
  {
    && 0 <= RowStart(s, row) <= RowStart(s, row + 1) <= |body|
    && body[RowStart(s, row)..RowStart(s, row + 1)] == BytesOf(value)
  }

  lemma Middle(body: seq<Byte>, start: nat, all: seq<Byte>, before: seq<Byte>, part: seq<Byte>)
    requires start <= |body| && body[start..] == all && before + part <= all
    ensures start + |before| + |part| <= |body|
    ensures body[start + |before|..start + |before| + |part|] == part
  {
    var slice := body[start + |before|..start + |before| + |part|];
    forall i | 0 <= i < |part|
      ensures slice[i] == part[i]
    {
      assert slice[i] == body[start..][|before| + i] == (before + part)[|before| + i];
    }
  }

  lemma HoldsRow(body: seq<Byte>, s: Structure, row: nat, value: Value, start: nat)
    requires row < |s.valid| && |s.lengths| == Trues(s.valid)
    requires RowStart(s, row) == start && RowStart(s, row + 1) == start + |BytesOf(value)| <= |body|
    requires body[start..start + |BytesOf(value)|] == BytesOf(value)
    ensures RowHolds(body, s, row, value)
  {
    hide RowStart, RowLength, BytesOf, Trues;
  }

  lemma ValueOfRow(body: seq<Byte>, values: seq<Value>, row: nat, s: Structure)
    requires row < |values| && s.valid == Flags(values) && s.lengths == Lengths(values)
    requires s.payloadStart <= |body| && body[s.payloadStart..] == Payload(values)
    ensures |s.lengths| == Trues(s.valid) && RowHolds(body, s, row, values[row])
  {
    hide Flags, Lengths, RowStart, RowLength, BytesOf, Trues, Payload, RowHolds;
    assert |s.valid| == |values|;
    StartOfRow(values, row, s);
    StartOfRow(values, row + 1, s);
    PayloadOfRow(values, row);
    Middle(body, s.payloadStart, Payload(values), Payload(values[..row]), BytesOf(values[row]));
    HoldsRow(body, s, row, values[row], s.payloadStart + |Payload(values[..row])|);
  }

  /**
   * For any values, any runs for their levels and any layout of their lengths: the page's ranges cover
   * exactly the bytes of the selected rows, and the bytes of each row are its value. It is turned away
   * exactly when the selected rows lie in more than 8192 separate places.
   */
  lemma WrittenPageIsRead(nullable: bool, runs: seq<LevelRun>, layout: Layout, values: seq<Value>, selected: seq<nat>)
    requires Written(nullable, runs, layout, values) && |PageBody(nullable, runs, layout, values)| <= USIZE_MAX
    requires Ascending(selected)
    ensures var body := PageBody(nullable, runs, layout, values);
            var s := Structure(Flags(values), Lengths(values), |body| - |Payload(values)|, layout.Omitted?);
            var found := ValueRanges(body, |body|, |values|, nullable, selected);
            && |s.lengths| == Trues(s.valid)
            && (found.Ok? <==> Stretches(s, selected, |values|) <= 8192)
            && (found.Err? ==> found == Err(Fallback(SelectedRanges)))
            && (found.Ok? ==> forall b :: Covered(found.value.spans, b) <==> Wanted(s, selected, |values|, b))
            && forall row :: 0 <= row < |values| ==> RowHolds(body, s, row, values[row])
  {
    hide PageBody, Payload, Lengths, Flags, StructureOf, PlaceRows, Covered, Wanted, Written, RowLength, RowStart, RowHolds, Stretches;
    var body := PageBody(nullable, runs, layout, values);
    StructureFound(nullable, runs, layout, values);
    var start := |body| - |Payload(values)|;
    var s := Structure(Flags(values), Lengths(values), start, layout.Omitted?);
    PayloadAtEnd(nullable, runs, layout, values);
    LengthsCount(values);
    forall row | 0 <= row < |values|
      ensures RowLength(s, row) >= 0 && RowHolds(body, s, row, values[row])
    {
      LengthOfRow(values, row, s);
      ValueOfRow(body, values, row, s);
    }
    StartOfRow(values, |values|, s);
    assert values[..|values|] == values;
    if layout.Omitted? {
      assert Payload(values) == [] by { WrittenOmitted(nullable, runs, layout, values); }
      NothingWanted(s, selected);
      NoStretches(s, selected, |s.valid|);
    } else {
      PlacementSucceeds(s, |body|, selected);
      var found := PlaceRows(s, |body|, selected);
      if found.Ok? {
        RangesAreExact(s, |body|, selected, found.value);
      }
    }
  }

  lemma WrittenOmitted(nullable: bool, runs: seq<LevelRun>, layout: Layout, values: seq<Value>)
    requires Written(nullable, runs, layout, values) && layout.Omitted?
    ensures Lengths(values) == [] && Payload(values) == []
  {
    OnlyNulls(values);
  }

  /** Without lengths no row has a byte. */
  lemma NothingWanted(s: Structure, selected: seq<nat>)
    requires s.lengths == [] && Trues(s.valid) == 0
    ensures forall b :: Covered([], b) <==> Wanted(s, selected, |s.valid|, b)
  {
    forall row | 0 <= row < |s.valid|
      ensures RowLength(s, row) == 0
    {
      if s.valid[row] {
        LengthIndex(s, row);
      }
    }
  }

  lemma {:induction false} NoStretches(s: Structure, selected: seq<nat>, k: nat)
    requires s.lengths == [] && Trues(s.valid) == 0 && k <= |s.valid|
    ensures Stretches(s, selected, k) == 0
  {
    hide Wanted;
    if k > 0 {
      NoStretches(s, selected, k - 1);
      if s.valid[k - 1] {
        LengthIndex(s, k - 1);
      }
    }
  }

  lemma PayloadAtEnd(nullable: bool, runs: seq<LevelRun>, layout: Layout, values: seq<Value>)
    requires Written(nullable, runs, layout, values)
    ensures var body := PageBody(nullable, runs, layout, values);
            |Payload(values)| <= |body| && body[|body| - |Payload(values)|..] == Payload(values)
  {
    hide LevelBytes, LayoutBytes, Payload, Written;
  }
}
