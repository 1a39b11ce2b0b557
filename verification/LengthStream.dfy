/**
 * The DELTA_BINARY_PACKED stream of value lengths: where it ends, and what it decodes to
 * (Apache Parquet encodings, "Delta Encoding (DELTA_BINARY_PACKED = 5)").
 */
module LengthStream {
  import opened Base128
  import opened Bytes
  import opened Numbers

  const MAX_BLOCK_VALUES: nat := 32768
  const I32: int := 0x8000_0000

  predicate IsI32(value: int) { -I32 <= value < I32 }

  // ---------------------------------------------------------------- locating the end

  datatype Header = Header(miniblocks: nat, perMiniblock: nat, first: int) {
    predicate Valid() {
      0 < miniblocks && 0 < perMiniblock && perMiniblock % 32 == 0 && IsI32(first)
    }
  }

  function HeaderOf(block: nat, miniblocks: nat, encodedCount: nat, first: int, count: nat): (r: Result<Header>)
    ensures r.Ok? ==> r.value.Valid() && (count != 0 ==> first >= 0) && encodedCount == count
    ensures r.Err? ==> !r.error.NeedBytes?
  {
    if block == 0 || miniblocks == 0 || block % 128 != 0 || block % miniblocks != 0 || block / miniblocks % 32 != 0
    then Err(Invalid(DeltaBlockGeometry))
    else if block > MAX_BLOCK_VALUES then Err(Fallback(DeltaBlockSize))
    else if encodedCount != count || !IsI32(first) || (count != 0 && first < 0)
    then Err(Invalid(LengthCountOrFirstLength))
    else
      PositiveQuotient(block, miniblocks);
      Ok(Header(miniblocks, block / miniblocks, first))
  }

  lemma PositiveQuotient(x: nat, d: nat)
    requires x > 0 && d > 0 && x % d == 0
    ensures x / d > 0
  {
    assert x == d * (x / d) + x % d;
  }

  function ParseHeader(bytes: seq<Byte>, count: nat): (r: Result<Parsed<Header>>)
    ensures r.Ok? ==> r.value.value.Valid() && r.value.at <= |bytes|
  {
    var block := Varint(bytes, 0);
    if block.Err? then Fail(block)
    else
      var miniblocks := Varint(bytes, block.value.at);
      if miniblocks.Err? then Fail(miniblocks)
      else
        var encodedCount := Varint(bytes, miniblocks.value.at);
        if encodedCount.Err? then Fail(encodedCount)
        else
          var first := Varint(bytes, encodedCount.value.at);
          if first.Err? then Fail(first)
          else
            var header := HeaderOf(block.value.value, miniblocks.value.value, encodedCount.value.value,
                                   Signed(first.value.value), count);
            if header.Err? then Fail(header) else Ok(Parsed(header.value, first.value.at))
  }

  /** Bytes of one packed miniblock. */
  function PackedSize(perMiniblock: nat, width: nat): nat {
    perMiniblock * width / 8
  }

  /** The end of a block's used miniblocks, with the number of values still to come. */
  function MiniblocksEnd(bytes: seq<Byte>, at: nat, widths: seq<Byte>, perMiniblock: nat, remaining: nat)
    : (r: Result<Parsed<nat>>)
    requires at <= |bytes| && perMiniblock > 0
    ensures r.Ok? ==> at <= r.value.at <= |bytes| && r.value.value <= remaining
    ensures r.Ok? && widths != [] && remaining > 0 ==> r.value.value < remaining
    decreases |widths|
  {
    if widths == [] || remaining == 0 then Ok(Parsed(remaining, at))
    else if widths[0] > 32 then Err(Invalid(DeltaBitWidth))
    else
      var taken := Take(bytes, at, PackedSize(perMiniblock, widths[0]));
      if taken.Err? then Fail(taken)
      else MiniblocksEnd(bytes, taken.value, widths[1..], perMiniblock, remaining - Min(perMiniblock, remaining))
  }

  /** One block: its minimum delta, its bit widths and the used miniblocks. */
  datatype Block = Block(minDelta: int, widths: seq<Byte>, body: nat, left: nat)

  function BlockAt(bytes: seq<Byte>, at: nat, header: Header, remaining: nat): (r: Result<Parsed<Block>>)
    requires at <= |bytes| && header.Valid() && remaining > 0
    ensures r.Ok? ==> at <= r.value.value.body <= r.value.at <= |bytes|
    ensures r.Ok? ==> r.value.value.left < remaining
    ensures r.Ok? ==> |r.value.value.widths| == header.miniblocks
    ensures r.Ok? ==>
              (var Parsed(block, end) := r.value;
               MiniblocksEnd(bytes, block.body, block.widths, header.perMiniblock, remaining) == Ok(Parsed(block.left, end)))
  {
    var minDelta := Varint(bytes, at);
    if minDelta.Err? then Fail(minDelta)
    else if !IsI32(Signed(minDelta.value.value)) then Err(Invalid(MinimumDelta))
    else
      var taken := Take(bytes, minDelta.value.at, header.miniblocks);
      if taken.Err? then Fail(taken)
      else
        var widths := bytes[minDelta.value.at..taken.value];
        var end := MiniblocksEnd(bytes, taken.value, widths, header.perMiniblock, remaining);
        if end.Err? then Fail(end)
        else Ok(Parsed(Block(Signed(minDelta.value.value), widths, taken.value, end.value.value), end.value.at))
  }

  function BlocksEnd(bytes: seq<Byte>, at: nat, header: Header, remaining: nat): (r: Result<nat>)
    requires at <= |bytes| && header.Valid()
    ensures r.Ok? ==> at <= r.value <= |bytes|
    decreases remaining
  {
    if remaining == 0 then Ok(at)
    else
      var block := BlockAt(bytes, at, header, remaining);
      if block.Err? then Fail(block)
      else BlocksEnd(bytes, block.value.at, header, block.value.value.left)
  }

  /** Deltas follow the first of `count` values. */
  function Deltas(count: nat): nat { if count == 0 then 0 else count - 1 }

  function LengthStreamEnd(bytes: seq<Byte>, count: nat): (r: Result<nat>)
    ensures r.Ok? ==> r.value <= |bytes|
  {
    var header := ParseHeader(bytes, count);
    if header.Err? then Fail(header)
    else BlocksEnd(bytes, header.value.at, header.value.value, Deltas(count))
  }

  // ---------------------------------------------------------------- more bytes do not matter

  lemma HeaderAgrees(part: seq<Byte>, whole: seq<Byte>, count: nat)
    requires part <= whole
    ensures Agrees(ParseHeader(part, count), ParseHeader(whole, count), |part|, |whole|)
    ensures var w := ParseHeader(whole, count);
            StopsLater(ParseHeader(part, count), w.Ok?, if w.Ok? then w.value.at else 0)
  {
    hide Varint;
    VarintAgrees(part, whole, 0);
    var block := Varint(part, 0);
    if block.Ok? {
      VarintAgrees(part, whole, block.value.at);
      var miniblocks := Varint(part, block.value.at);
      if miniblocks.Ok? {
        VarintAgrees(part, whole, miniblocks.value.at);
        var encodedCount := Varint(part, miniblocks.value.at);
        if encodedCount.Ok? {
          VarintAgrees(part, whole, encodedCount.value.at);
        }
      }
    }
  }

  lemma {:induction false} MiniblocksAgree(part: seq<Byte>, whole: seq<Byte>, at: nat, widths: seq<Byte>,
                                           perMiniblock: nat, remaining: nat)
    requires part <= whole && at <= |part| && perMiniblock > 0
    ensures Agrees(MiniblocksEnd(part, at, widths, perMiniblock, remaining),
                   MiniblocksEnd(whole, at, widths, perMiniblock, remaining), |part|, |whole|)
    ensures var w := MiniblocksEnd(whole, at, widths, perMiniblock, remaining);
            StopsLater(MiniblocksEnd(part, at, widths, perMiniblock, remaining), w.Ok?, if w.Ok? then w.value.at else 0)
    decreases |widths|
  {
    if widths != [] && remaining > 0 && widths[0] <= 32 {
      var taken := Take(part, at, PackedSize(perMiniblock, widths[0]));
      if taken.Ok? {
        MiniblocksAgree(part, whole, taken.value, widths[1..], perMiniblock, remaining - Min(perMiniblock, remaining));
      }
    }
  }

  lemma BlockAgrees(part: seq<Byte>, whole: seq<Byte>, at: nat, header: Header, remaining: nat)
    requires part <= whole && at <= |part| && header.Valid() && remaining > 0
    ensures Agrees(BlockAt(part, at, header, remaining), BlockAt(whole, at, header, remaining), |part|, |whole|)
    ensures var w := BlockAt(whole, at, header, remaining);
            StopsLater(BlockAt(part, at, header, remaining), w.Ok?, if w.Ok? then w.value.at else 0)
  {
    hide Varint, MiniblocksEnd;
    VarintAgrees(part, whole, at);
    var minDelta := Varint(part, at);
    if minDelta.Ok? {
      var taken := Take(part, minDelta.value.at, header.miniblocks);
      if taken.Ok? {
        var widths := part[minDelta.value.at..taken.value];
        assert widths == whole[minDelta.value.at..taken.value];
        MiniblocksAgree(part, whole, taken.value, widths, header.perMiniblock, remaining);
      }
    }
  }

  lemma {:induction false} BlocksAgree(part: seq<Byte>, whole: seq<Byte>, at: nat, header: Header, remaining: nat)
    requires part <= whole && at <= |part| && header.Valid()
    ensures Agrees(BlocksEnd(part, at, header, remaining), BlocksEnd(whole, at, header, remaining), |part|, |whole|)
    ensures var w := BlocksEnd(whole, at, header, remaining);
            StopsLater(BlocksEnd(part, at, header, remaining), w.Ok?, if w.Ok? then w.value else 0)
    decreases remaining
  {
    hide BlockAt;
    if remaining > 0 {
      BlockAgrees(part, whole, at, header, remaining);
      var block := BlockAt(part, at, header, remaining);
      if block.Ok? {
        BlocksAgree(part, whole, block.value.at, header, block.value.value.left);
      }
    }
  }

  lemma LengthStreamAgrees(part: seq<Byte>, whole: seq<Byte>, count: nat)
    requires part <= whole
    ensures Agrees(LengthStreamEnd(part, count), LengthStreamEnd(whole, count), |part|, |whole|)
    ensures var w := LengthStreamEnd(whole, count);
            StopsLater(LengthStreamEnd(part, count), w.Ok?, if w.Ok? then w.value else 0)
  {
    hide ParseHeader, BlocksEnd;
    HeaderAgrees(part, whole, count);
    var header := ParseHeader(part, count);
    if header.Ok? {
      BlocksAgree(part, whole, header.value.at, header.value.value, Deltas(count));
    }
  }

  // ---------------------------------------------------------------- the program's loops

  method ReadMiniblocks(bytes: seq<Byte>, start: nat, widths: seq<Byte>, perMiniblock: nat, count: nat)
    returns (r: Result<Parsed<nat>>)
    requires start <= |bytes| && perMiniblock > 0
    ensures r == MiniblocksEnd(bytes, start, widths, perMiniblock, count)
  {
    var at: nat, remaining: nat := start, count;
    for j := 0 to |widths|
      invariant at <= |bytes|
      invariant MiniblocksEnd(bytes, start, widths, perMiniblock, count)
             == MiniblocksEnd(bytes, at, widths[j..], perMiniblock, remaining)
    {
      assert widths[j..][1..] == widths[j + 1..];
      if remaining == 0 {
        break; // Widths of unused miniblocks are arbitrary.
      }
      if widths[j] > 32 {
        return Err(Invalid(DeltaBitWidth));
      }
      var taken := Take(bytes, at, PackedSize(perMiniblock, widths[j]));
      if taken.Err? {
        return Fail(taken);
      }
      at := taken.value;
      remaining := remaining - Min(perMiniblock, remaining);
    }
    r := Ok(Parsed(remaining, at));
  }

  method ReadLengthStreamEnd(bytes: seq<Byte>, count: nat) returns (r: Result<nat>)
    ensures r == LengthStreamEnd(bytes, count)
  {
    hide MiniblocksEnd, HeaderOf, Varint;
    var block := ReadVarint(bytes, 0);
    if block.Err? { return Fail(block); }
    var miniblocks := ReadVarint(bytes, block.value.at);
    if miniblocks.Err? { return Fail(miniblocks); }
    var encodedCount := ReadVarint(bytes, miniblocks.value.at);
    if encodedCount.Err? { return Fail(encodedCount); }
    var first := ReadVarint(bytes, encodedCount.value.at);
    if first.Err? { return Fail(first); }
    var header := HeaderOf(block.value.value, miniblocks.value.value, encodedCount.value.value,
                           Signed(first.value.value), count);
    if header.Err? { return Fail(header); }
    var at: nat, remaining: nat := first.value.at, Deltas(count);
    while remaining != 0
      invariant at <= |bytes|
      invariant LengthStreamEnd(bytes, count) == BlocksEnd(bytes, at, header.value, remaining)
    {
      var minDelta := ReadVarint(bytes, at);
      if minDelta.Err? { return Fail(minDelta); }
      if !IsI32(Signed(minDelta.value.value)) {
        return Err(Invalid(MinimumDelta));
      }
      var taken := Take(bytes, minDelta.value.at, header.value.miniblocks);
      if taken.Err? { return Fail(taken); }
      var widths := bytes[minDelta.value.at..taken.value];
      var end := ReadMiniblocks(bytes, taken.value, widths, header.value.perMiniblock, remaining);
      if end.Err? { return Fail(end); }
      at, remaining := end.value.at, end.value.value;
    }
    r := Ok(at);
  }
}
