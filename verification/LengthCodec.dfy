/**
 * What a length stream means: the decoded values, and streams as a writer may lay them out
 * (Apache Parquet encodings, "Delta Encoding (DELTA_BINARY_PACKED = 5)").
 */
module LengthCodec {
  import opened Base128
  import opened Bytes
  import opened LengthStream
  import opened Numbers

  // ---------------------------------------------------------------- decoding

  /** 32-bit two's complement. */
  function Wrap32(value: int): (r: int)
    ensures IsI32(r)
  {
    (value + I32) % (2 * I32) - I32
  }

  function Quotient(a: nat, b: nat): nat
    requires b > 0
  {
    a / b
  }

  /** The first `count` values of `width` bits each, least significant first. */
  function Unpack(number: nat, width: nat, count: nat): (r: seq<nat>)
    ensures |r| == count
    decreases count
  {
    if count == 0 then [] else [number % Pow2(width)] + Unpack(Quotient(number, Pow2(width)), width, count - 1)
  }

  function PlusEach(minDelta: int, values: seq<nat>): (r: seq<int>)
    ensures |r| == |values|
  {
    seq(|values|, i requires 0 <= i < |values| => minDelta + values[i])
  }

  /** The deltas packed in a block's used miniblocks. */
  function MiniblockDeltas(bytes: seq<Byte>, at: nat, widths: seq<Byte>, perMiniblock: nat, remaining: nat, minDelta: int)
    : (r: Parsed<seq<int>>)
    requires at <= |bytes| && perMiniblock > 0
    requires MiniblocksEnd(bytes, at, widths, perMiniblock, remaining).Ok?
    ensures MiniblocksEnd(bytes, at, widths, perMiniblock, remaining) == Ok(Parsed(remaining - |r.value|, r.at))
    decreases |widths|
  {
    if widths == [] || remaining == 0 then Parsed([], at)
    else
      var n := Min(perMiniblock, remaining);
      var end := at + PackedSize(perMiniblock, widths[0]);
      var values := Unpack(Number(bytes[at..end]), widths[0], n);
      var rest := MiniblockDeltas(bytes, end, widths[1..], perMiniblock, remaining - n, minDelta);
      Parsed(PlusEach(minDelta, values) + rest.value, rest.at)
  }

  function BlockDeltas(bytes: seq<Byte>, at: nat, header: Header, remaining: nat): (r: Parsed<seq<int>>)
    requires at <= |bytes| && header.Valid()
    requires BlocksEnd(bytes, at, header, remaining).Ok?
    ensures |r.value| == remaining && BlocksEnd(bytes, at, header, remaining) == Ok(r.at)
    decreases remaining
  {
    if remaining == 0 then Parsed([], at)
    else
      var block := BlockAt(bytes, at, header, remaining).value.value;
      var here := MiniblockDeltas(bytes, block.body, block.widths, header.perMiniblock, remaining, block.minDelta);
      var rest := BlockDeltas(bytes, here.at, header, block.left);
      Parsed(here.value + rest.value, rest.at)
  }

  /** The values that start at `first` and differ by `deltas`, in 32-bit arithmetic. */
  function Accumulate(first: int, deltas: seq<int>): (r: seq<int>)
    ensures |r| == |deltas| + 1
    decreases |deltas|
  {
    [first] + if deltas == [] then [] else Accumulate(Wrap32(first + deltas[0]), deltas[1..])
  }

  /** The lengths of a stream found by `LengthStreamEnd`; the decoder stops exactly at that end. */
  function DecodeLengths(bytes: seq<Byte>, count: nat): (r: Parsed<seq<int>>)
    requires LengthStreamEnd(bytes, count).Ok?
    ensures |r.value| == count && LengthStreamEnd(bytes, count) == Ok(r.at)
  {
    var header := ParseHeader(bytes, count).value;
    var deltas := BlockDeltas(bytes, header.at, header.value, Deltas(count));
    Parsed(if count == 0 then [] else Accumulate(header.value.first, deltas.value), deltas.at)
  }

  // ---------------------------------------------------------------- encoding

  function PackNumber(values: seq<nat>, width: nat): nat {
    if values == [] then 0 else values[0] + Pow2(width) * PackNumber(values[1..], width)
  }

  predicate Fit(values: seq<nat>, width: nat) {
    forall i :: 0 <= i < |values| ==> values[i] < Pow2(width)
  }

  function PackedBytes(values: seq<nat>, width: nat): seq<Byte> {
    LittleEndian(PackNumber(values, width), PackedSize(|values|, width))
  }

  /**
   * A block as a writer may lay it out: `minimum` writes the least delta out, and `widths` also covers the
   * miniblocks it does not use.
   */
  datatype DeltaBlock = DeltaBlock(minimum: seq<Byte>, minDelta: int, widths: seq<Byte>, packed: seq<seq<nat>>)

  /** Used miniblocks carry `deltas`, the last one padded at will; unused widths are arbitrary. */
  ghost predicate MiniblocksFit(widths: seq<Byte>, packed: seq<seq<nat>>, perMiniblock: nat, minDelta: int, deltas: seq<int>)
    requires perMiniblock > 0
    decreases |widths|
  {
    if widths == [] || deltas == [] then packed == []
    else
      var n := Min(perMiniblock, |deltas|);
      && packed != [] && widths[0] <= 32 && |packed[0]| == perMiniblock && Fit(packed[0], widths[0])
      && deltas[..n] == PlusEach(minDelta, packed[0][..n])
      && MiniblocksFit(widths[1..], packed[1..], perMiniblock, minDelta, deltas[n..])
  }

  ghost function MiniblocksBytes(widths: seq<Byte>, packed: seq<seq<nat>>): seq<Byte> {
    if packed == [] || widths == [] then [] else PackedBytes(packed[0], widths[0]) + MiniblocksBytes(widths[1..], packed[1..])
  }

  /** The deltas of one block: as many as its miniblocks hold. */
  ghost function BlockSpan(header: Header, deltas: seq<int>): (r: nat)
    ensures r <= |deltas|
  {
    Min(|deltas|, Capacity(header.miniblocks, header.perMiniblock))
  }

  /** How many values `miniblocks` hold. */
  function Capacity(miniblocks: nat, perMiniblock: nat): nat { miniblocks * perMiniblock }

  ghost predicate BlockFits(block: DeltaBlock, header: Header, deltas: seq<int>)
    requires header.Valid()
  {
    && Denotes(block.minimum, Zigzag(block.minDelta)) && IsI32(block.minDelta)
    && |block.widths| == header.miniblocks
    && MiniblocksFit(block.widths, block.packed, header.perMiniblock, block.minDelta, deltas[..BlockSpan(header, deltas)])
  }

  ghost function BlockBytes(block: DeltaBlock): seq<Byte> {
    block.minimum + (block.widths + MiniblocksBytes(block.widths, block.packed))
  }

  ghost predicate BlocksFit(blocks: seq<DeltaBlock>, header: Header, deltas: seq<int>)
    requires header.Valid()
  {
    if blocks == [] then deltas == []
    else deltas != [] && BlockFits(blocks[0], header, deltas)
         && BlocksFit(blocks[1..], header, deltas[BlockSpan(header, deltas)..])
  }

  ghost function BlocksBytes(blocks: seq<DeltaBlock>): seq<Byte> {
    if blocks == [] then [] else BlockBytes(blocks[0]) + BlocksBytes(blocks[1..])
  }

  // ---------------------------------------------------------------- packing round trip

  lemma DivideUnique(low: nat, high: nat, base: nat)
    requires low < base
    ensures (low + base * high) % base == low
    ensures (low + base * high) / base == high
  {
    var x := low + base * high;
    var q := x / base;
    assert x == base * q + x % base;
    ProductOrder(high, q, base);
    ProductOrder(q, high, base);
  }

  lemma ProductOrder(a: int, b: int, base: int)
    requires base > 0
    ensures a < b ==> base * a + base <= base * b
  {
    if a < b {
      NonNegativeProduct(base, b - a - 1);
      ProductOfSum(base, a + 1, b - a - 1);
      ProductOfSum(base, a, 1);
    }
  }

  lemma NonNegativeProduct(x: int, y: int)
    requires x >= 0 && y >= 0
    ensures x * y >= 0
  {
  }

  lemma ProductOfSum(x: int, y: int, z: int)
    ensures x * (y + z) == x * y + x * z
  {
  }

  lemma {:induction false} UnpackInvertsPack(values: seq<nat>, width: nat, n: nat)
    requires Fit(values, width) && n <= |values|
    ensures Unpack(PackNumber(values, width), width, n) == values[..n]
  {
    if n > 0 {
      DivideUnique(values[0], PackNumber(values[1..], width), Pow2(width));
      UnpackInvertsPack(values[1..], width, n - 1);
      assert values[..n] == [values[0]] + values[1..][..n - 1];
    }
  }

  lemma {:induction false} PackBound(values: seq<nat>, width: nat)
    requires Fit(values, width)
    ensures PackNumber(values, width) < Pow2(width * |values|)
  {
    if values == [] {
      assert width * 0 == 0;
    } else {
      var rest := values[1..];
      PackBound(rest, width);
      var p, q, r := Pow2(width), PackNumber(rest, width), Pow2(width * |rest|);
      assert p * q + p <= p * r by { ProductOrder(q, r, p); }
      assert width * |values| == width + width * |rest|;
      Pow2Sum(width, width * |rest|);
    }
  }

  lemma PackedSizeExact(perMiniblock: nat, width: nat)
    requires perMiniblock % 32 == 0
    ensures 8 * PackedSize(perMiniblock, width) == width * perMiniblock
  {
    var q := perMiniblock / 32;
    assert perMiniblock == 32 * q;
    assert perMiniblock * width == 8 * (4 * q * width);
  }

  lemma PackedDecodes(values: seq<nat>, width: nat, n: nat)
    requires |values| % 32 == 0 && Fit(values, width) && n <= |values|
    ensures Unpack(Number(PackedBytes(values, width)), width, n) == values[..n]
  {
    PackBound(values, width);
    PackedSizeExact(|values|, width);
    NumberOfLittleEndian(PackNumber(values, width), PackedSize(|values|, width));
    UnpackInvertsPack(values, width, n);
  }

  // ---------------------------------------------------------------- stream round trip

  lemma HeldSlice(bytes: seq<Byte>, at: nat, part: seq<Byte>)
    requires Holds(bytes, at, part)
    ensures bytes[at..at + |part|] == part
  {
  }

  lemma NextSpan(widths: nat, perMiniblock: nat, remaining: nat)
    requires widths > 0
    ensures Min(remaining, Capacity(widths, perMiniblock)) - Min(perMiniblock, remaining)
         == Min(remaining - Min(perMiniblock, remaining), Capacity(widths - 1, perMiniblock))
    ensures Min(perMiniblock, remaining) <= Min(remaining, Capacity(widths, perMiniblock))
  {
    ProductOfSum(perMiniblock, widths - 1, 1);
    NonNegativeProduct(widths - 1, perMiniblock);
  }

  ghost predicate Laid(bytes: seq<Byte>, at: nat, widths: seq<Byte>, packed: seq<seq<nat>>,
                       perMiniblock: nat, remaining: nat, minDelta: int, deltas: seq<int>)
  {
    && perMiniblock > 0 && perMiniblock % 32 == 0 && |bytes| <= USIZE_MAX
    && |deltas| == Min(remaining, Capacity(|widths|, perMiniblock))
    && MiniblocksFit(widths, packed, perMiniblock, minDelta, deltas)
    && Holds(bytes, at, MiniblocksBytes(widths, packed))
  }

  lemma FirstMiniblock(bytes: seq<Byte>, at: nat, widths: seq<Byte>, packed: seq<seq<nat>>,
                       perMiniblock: nat, remaining: nat, minDelta: int, deltas: seq<int>)
    requires Laid(bytes, at, widths, packed, perMiniblock, remaining, minDelta, deltas)
    requires widths != [] && remaining > 0
    ensures |bytes| <= USIZE_MAX && widths[0] <= 32 && packed != [] && Min(perMiniblock, remaining) <= |deltas|
    ensures var n, end := Min(perMiniblock, remaining), at + PackedSize(perMiniblock, widths[0]);
            && end <= |bytes|
            && |MiniblocksBytes(widths, packed)| == end - at + |MiniblocksBytes(widths[1..], packed[1..])|
            && PlusEach(minDelta, Unpack(Number(bytes[at..end]), widths[0], n)) == deltas[..n]
            && Laid(bytes, end, widths[1..], packed[1..], perMiniblock, remaining - n, minDelta, deltas[n..])
  {
    hide Number, Unpack, PackedBytes, Holds, Capacity;
    var n := Min(perMiniblock, remaining);
    NextSpan(|widths|, perMiniblock, remaining);
    var first := PackedBytes(packed[0], widths[0]);
    PackedLength(packed[0], widths[0]);
    HoldsBoth(bytes, at, first, MiniblocksBytes(widths[1..], packed[1..]));
    HeldWithin(bytes, at, first);
    HeldSlice(bytes, at, first);
    PackedDecodes(packed[0], widths[0], n);
  }

  lemma NoMiniblock(bytes: seq<Byte>, at: nat, widths: seq<Byte>, packed: seq<seq<nat>>,
                    perMiniblock: nat, remaining: nat, minDelta: int, deltas: seq<int>)
    requires Laid(bytes, at, widths, packed, perMiniblock, remaining, minDelta, deltas)
    requires widths == [] || remaining == 0
    ensures deltas == [] && packed == [] && at <= |bytes|
  {
  }

  /** The used miniblocks of a block decode to its deltas and end where they were written. */
  lemma {:induction false} MiniblocksDecode(bytes: seq<Byte>, at: nat, widths: seq<Byte>, packed: seq<seq<nat>>,
                                            perMiniblock: nat, remaining: nat, minDelta: int, deltas: seq<int>)
    requires Laid(bytes, at, widths, packed, perMiniblock, remaining, minDelta, deltas)
    ensures at <= |bytes|
    ensures MiniblocksEnd(bytes, at, widths, perMiniblock, remaining)
         == Ok(Parsed(remaining - |deltas|, at + |MiniblocksBytes(widths, packed)|))
    ensures MiniblockDeltas(bytes, at, widths, perMiniblock, remaining, minDelta)
         == Parsed(deltas, at + |MiniblocksBytes(widths, packed)|)
    decreases |widths|
  {
    hide Laid, Number, Unpack, PackedBytes, MiniblocksBytes, PackedSize, PlusEach;
    if widths == [] || remaining == 0 {
      NoMiniblock(bytes, at, widths, packed, perMiniblock, remaining, minDelta, deltas);
      NoBytes(widths);
    } else {
      FirstMiniblock(bytes, at, widths, packed, perMiniblock, remaining, minDelta, deltas);
      var n, end := Min(perMiniblock, remaining), at + PackedSize(perMiniblock, widths[0]);
      MiniblocksDecode(bytes, end, widths[1..], packed[1..], perMiniblock, remaining - n, minDelta, deltas[n..]);
      assert deltas == deltas[..n] + deltas[n..];
    }
  }

  lemma NoBytes(widths: seq<Byte>)
    ensures MiniblocksBytes(widths, []) == []
  {
  }

  lemma PackedLength(values: seq<nat>, width: nat)
    ensures |PackedBytes(values, width)| == PackedSize(|values|, width)
  {
  }

  lemma HeldWithin(bytes: seq<Byte>, at: nat, part: seq<Byte>)
    requires Holds(bytes, at, part)
    ensures at + |part| <= |bytes|
  {
  }

  // ---------------------------------------------------------------- whole streams

  /** The pieces of a block, put together. */
  lemma BlockFromParts(bytes: seq<Byte>, at: nat, header: Header, remaining: nat, minDelta: Parsed<nat>,
                       widths: seq<Byte>, body: nat, end: Parsed<nat>)
    requires at <= |bytes| <= USIZE_MAX && header.Valid() && remaining > 0
    requires Varint(bytes, at) == Ok(minDelta) && IsI32(Signed(minDelta.value))
    requires body == minDelta.at + header.miniblocks <= |bytes| && widths == bytes[minDelta.at..body]
    requires MiniblocksEnd(bytes, body, widths, header.perMiniblock, remaining) == Ok(end)
    ensures BlockAt(bytes, at, header, remaining)
         == Ok(Parsed(Block(Signed(minDelta.value), widths, body, end.value), end.at))
  {
    hide Varint, MiniblocksEnd, Signed;
  }

  /** The integers of a block as written, read back. */
  lemma BlockPrefixDecodes(bytes: seq<Byte>, at: nat, block: DeltaBlock)
    requires Denotes(block.minimum, Zigzag(block.minDelta)) && |bytes| <= USIZE_MAX
    requires Holds(bytes, at, BlockBytes(block))
    ensures var next := at + |block.minimum|;
            && Varint(bytes, at) == Ok(Parsed(Zigzag(block.minDelta), next))
            && Signed(Zigzag(block.minDelta)) == block.minDelta
            && next + |block.widths| <= |bytes| && bytes[next..next + |block.widths|] == block.widths
            && Holds(bytes, next + |block.widths|, MiniblocksBytes(block.widths, block.packed))
  {
    hide MiniblocksBytes, Holds, Varint, Denotes, Zigzag, Signed;
    var number := block.minimum;
    var body := MiniblocksBytes(block.widths, block.packed);
    HoldsBoth(bytes, at, number, block.widths + body);
    HoldsBoth(bytes, at + |number|, block.widths, body);
    SignedInvertsZigzag(block.minDelta);
    DenotedInteger(bytes, at, number, Zigzag(block.minDelta));
    HeldWithin(bytes, at + |number|, block.widths);
    HeldSlice(bytes, at + |number|, block.widths);
  }

  lemma BlockIsLaid(header: Header, block: DeltaBlock, deltas: seq<int>)
    requires header.Valid() && BlockFits(block, header, deltas)
    ensures header.perMiniblock > 0 && header.perMiniblock % 32 == 0
    ensures |block.widths| == header.miniblocks && Denotes(block.minimum, Zigzag(block.minDelta)) && IsI32(block.minDelta)
    ensures BlockSpan(header, deltas) == Min(|deltas|, Capacity(|block.widths|, header.perMiniblock))
  {
    hide Capacity, MiniblocksFit, Denotes;
  }

  lemma BlockLength(block: DeltaBlock)
    ensures |BlockBytes(block)|
         == |block.minimum| + |block.widths| + |MiniblocksBytes(block.widths, block.packed)|
  {
    hide MiniblocksBytes;
  }

  /** Where the miniblocks of a block at `at` start. */
  function BodyStart(at: nat, block: DeltaBlock): nat {
    at + |block.minimum| + |block.widths|
  }

  lemma BlockDecodes(bytes: seq<Byte>, at: nat, block: DeltaBlock, header: Header, deltas: seq<int>)
    requires header.Valid() && deltas != [] && BlockFits(block, header, deltas) && |bytes| <= USIZE_MAX
    requires Holds(bytes, at, BlockBytes(block))
    ensures var body, end := BodyStart(at, block), at + |BlockBytes(block)|;
            var span := BlockSpan(header, deltas);
            && at <= body <= |bytes|
            && BlockAt(bytes, at, header, |deltas|) == Ok(Parsed(Block(block.minDelta, block.widths, body, |deltas| - span), end))
            && MiniblocksEnd(bytes, body, block.widths, header.perMiniblock, |deltas|).Ok?
            && MiniblockDeltas(bytes, body, block.widths, header.perMiniblock, |deltas|, block.minDelta)
               == Parsed(deltas[..span], end)
  {
    hide BlockAt, MiniblocksEnd, MiniblockDeltas, MiniblocksFit, Capacity, MiniblocksBytes, Holds, Varint, Denotes, Zigzag,
         Signed, BlockBytes, BlockSpan, Header.Valid, IsI32;
    BlockIsLaid(header, block, deltas);
    var next := at + |block.minimum|;
    var body := MiniblocksBytes(block.widths, block.packed);
    HeldWithin(bytes, at, BlockBytes(block));
    BlockLength(block);
    BlockPrefixDecodes(bytes, at, block);
    var span := BlockSpan(header, deltas);
    MiniblocksDecode(bytes, next + |block.widths|, block.widths, block.packed, header.perMiniblock,
                     |deltas|, block.minDelta, deltas[..span]);
    assert |deltas[..span]| == span;
    BlockFromParts(bytes, at, header, |deltas|, Parsed(Zigzag(block.minDelta), next), block.widths, next + |block.widths|,
                   Parsed(|deltas| - span, next + |block.widths| + |body|));
  }

  /** The first block, then the rest. */
  lemma OneBlock(bytes: seq<Byte>, at: nat, header: Header, remaining: nat, block: Block, end: nat, here: seq<int>)
    requires at <= |bytes| && header.Valid() && remaining > 0
    requires BlockAt(bytes, at, header, remaining) == Ok(Parsed(block, end))
    requires MiniblocksEnd(bytes, block.body, block.widths, header.perMiniblock, remaining).Ok?
    requires MiniblockDeltas(bytes, block.body, block.widths, header.perMiniblock, remaining, block.minDelta) == Parsed(here, end)
    requires BlocksEnd(bytes, end, header, block.left).Ok?
    ensures BlocksEnd(bytes, at, header, remaining) == BlocksEnd(bytes, end, header, block.left)
    ensures BlockDeltas(bytes, at, header, remaining).value == here + BlockDeltas(bytes, end, header, block.left).value
  {
    hide BlockAt, MiniblocksEnd, MiniblockDeltas;
  }

  lemma NoMoreBlocks(bytes: seq<Byte>, at: nat, header: Header)
    requires at <= |bytes| && header.Valid()
    ensures BlocksEnd(bytes, at, header, 0) == Ok(at) && BlockDeltas(bytes, at, header, 0).value == []
  {
  }

  lemma {:induction false} BlocksDecode(bytes: seq<Byte>, at: nat, blocks: seq<DeltaBlock>, header: Header, deltas: seq<int>)
    requires header.Valid() && BlocksFit(blocks, header, deltas) && |bytes| <= USIZE_MAX
    requires Holds(bytes, at, BlocksBytes(blocks))
    ensures at <= |bytes| && BlocksEnd(bytes, at, header, |deltas|) == Ok(at + |BlocksBytes(blocks)|)
    ensures BlockDeltas(bytes, at, header, |deltas|).value == deltas
    decreases |blocks|
  {
    hide BlockBytes, BlockFits, Holds, BlockAt, MiniblockDeltas, MiniblocksEnd, Capacity, BlockSpan, BodyStart,
         Denotes, Zigzag, IsI32, Header.Valid, BlocksEnd, BlockDeltas;
    HeldWithin(bytes, at, BlocksBytes(blocks));
    if blocks == [] {
      NoMoreBlocks(bytes, at, header);
    } else {
      var block, span := blocks[0], BlockSpan(header, deltas);
      HoldsBoth(bytes, at, BlockBytes(block), BlocksBytes(blocks[1..]));
      BlockDecodes(bytes, at, block, header, deltas);
      BlocksDecode(bytes, at + |BlockBytes(block)|, blocks[1..], header, deltas[span..]);
      OneBlock(bytes, at, header, |deltas|, Block(block.minDelta, block.widths, BodyStart(at, block), |deltas| - span),
               at + |BlockBytes(block)|, deltas[..span]);
      assert deltas == deltas[..span] + deltas[span..];
    }
  }

  /** The four header integers of a stream, written out. */
  datatype Integers = Integers(block: seq<Byte>, miniblocks: seq<Byte>, count: seq<Byte>, first: seq<Byte>)

  /** They are those of a stream of `count` values. */
  ghost predicate HeaderFits(integers: Integers, header: Header, count: nat) {
    && Denotes(integers.block, header.miniblocks * header.perMiniblock)
    && Denotes(integers.miniblocks, header.miniblocks)
    && Denotes(integers.count, count)
    && Denotes(integers.first, Zigzag(header.first))
  }

  function HeaderBytes(integers: Integers): seq<Byte> {
    integers.block + (integers.miniblocks + (integers.count + integers.first))
  }

  /** Block geometry a reader supports. */
  predicate Supported(header: Header) {
    && header.Valid()
    && header.miniblocks * header.perMiniblock <= 32768
    && header.miniblocks * header.perMiniblock % 128 == 0
  }

  /** Only supported geometry is accepted, with the expected count and a first length that is not negative. */
  lemma AcceptedGeometry(bytes: seq<Byte>, count: nat)
    requires ParseHeader(bytes, count).Ok?
    ensures Supported(ParseHeader(bytes, count).value.value)
    ensures count != 0 ==> ParseHeader(bytes, count).value.value.first >= 0
    ensures Varint(bytes, 0).Ok? && Varint(bytes, Varint(bytes, 0).value.at).Ok?
    ensures var header := ParseHeader(bytes, count).value.value;
            var miniblocks := Varint(bytes, Varint(bytes, 0).value.at).value;
            && header.miniblocks == miniblocks.value
            && header.miniblocks * header.perMiniblock == Varint(bytes, 0).value.value
            && Varint(bytes, miniblocks.at).Ok? && Varint(bytes, miniblocks.at).value.value == count
  {
    hide Varint;
    var block := Varint(bytes, 0).value;
    var miniblocks := Varint(bytes, block.at).value.value;
    assert block.value == miniblocks * (block.value / miniblocks) + block.value % miniblocks;
  }

  lemma HeaderDecodes(bytes: seq<Byte>, integers: Integers, header: Header, count: nat)
    requires Supported(header) && HeaderFits(integers, header, count) && (count != 0 ==> header.first >= 0)
    requires Holds(bytes, 0, HeaderBytes(integers)) && |bytes| <= USIZE_MAX
    ensures ParseHeader(bytes, count) == Ok(Parsed(header, |HeaderBytes(integers)|))
  {
    hide Varint, Denotes, Holds;
    var Integers(b, m, c, f) := integers;
    HoldsBoth(bytes, 0, b, m + (c + f));
    HoldsBoth(bytes, |b|, m, c + f);
    HoldsBoth(bytes, |b| + |m|, c, f);
    GeometryOf(header);
    DenotedInteger(bytes, 0, b, header.miniblocks * header.perMiniblock);
    DenotedInteger(bytes, |b|, m, header.miniblocks);
    DenotedInteger(bytes, |b| + |m|, c, count);
    SignedInvertsZigzag(header.first);
    DenotedInteger(bytes, |b| + |m| + |c|, f, Zigzag(header.first));
  }

  lemma GeometryOf(header: Header)
    requires Supported(header)
    ensures var block := header.miniblocks * header.perMiniblock;
            && 0 < header.miniblocks <= block
            && block % header.miniblocks == 0 && block / header.miniblocks == header.perMiniblock
  {
    DivideUnique(0, header.perMiniblock, header.miniblocks);
    ProductOfSum(header.miniblocks, header.perMiniblock - 1, 1);
    NonNegativeProduct(header.miniblocks, header.perMiniblock - 1);
  }

  /**
   * A reader finds exactly the end of the stream a writer laid out, whatever follows it and
   * whatever widths its unused miniblocks carry, and decodes the lengths it stands for.
   */
  lemma StreamDecodes(bytes: seq<Byte>, integers: Integers, header: Header, count: nat, blocks: seq<DeltaBlock>,
                      deltas: seq<int>)
    requires Supported(header) && HeaderFits(integers, header, count) && (count != 0 ==> header.first >= 0)
    requires |deltas| == Deltas(count) && BlocksFit(blocks, header, deltas) && |bytes| <= USIZE_MAX
    requires Holds(bytes, 0, HeaderBytes(integers) + BlocksBytes(blocks))
    ensures LengthStreamEnd(bytes, count) == Ok(|HeaderBytes(integers) + BlocksBytes(blocks)|)
    ensures DecodeLengths(bytes, count).value == if count == 0 then [] else Accumulate(header.first, deltas)
  {
    hide ParseHeader, BlocksEnd, BlockDeltas, Holds, HeaderBytes, HeaderFits, BlocksBytes, Accumulate;
    var start := HeaderBytes(integers);
    HoldsBoth(bytes, 0, start, BlocksBytes(blocks));
    HeaderDecodes(bytes, integers, header, count);
    BlocksDecode(bytes, |start|, blocks, header, deltas);
  }

  /** The plain differences of non-negative 32-bit lengths lead back to the lengths. */
  function Differences(lengths: seq<int>): (r: seq<int>)
    requires lengths != []
    ensures |r| == |lengths| - 1
  {
    if |lengths| == 1 then [] else [lengths[1] - lengths[0]] + Differences(lengths[1..])
  }

  /** Deltas that lead from each length to the next one modulo 2^32, as writers that wrap store them. */
  ghost predicate Leads(lengths: seq<int>, deltas: seq<int>) {
    |lengths| == |deltas| + 1
    && forall i :: 0 <= i < |deltas| ==> (lengths[i + 1] - (lengths[i] + deltas[i])) % (2 * I32) == 0
  }

  /** The lengths are restored from any deltas that lead from each to the next modulo 2^32. */
  lemma {:induction false} AccumulateInvertsDifferences(lengths: seq<int>, deltas: seq<int>)
    requires Leads(lengths, deltas) && forall i :: 0 <= i < |lengths| ==> IsI32(lengths[i])
    ensures Accumulate(lengths[0], deltas) == lengths
    decreases |deltas|
  {
    hide Wrap32, IsI32;
    if deltas != [] {
      LeadsOn(lengths, deltas);
      AccumulateInvertsDifferences(lengths[1..], deltas[1..]);
      WrapCongruent(lengths[0] + deltas[0], lengths[1]);
      assert lengths == [lengths[0]] + lengths[1..];
    }
  }

  lemma LeadsOn(lengths: seq<int>, deltas: seq<int>)
    requires Leads(lengths, deltas) && deltas != []
    ensures Leads(lengths[1..], deltas[1..]) && (lengths[1] - (lengths[0] + deltas[0])) % (2 * I32) == 0
  {
  }

  lemma WrapCongruent(sum: int, value: int)
    requires IsI32(value) && (value - sum) % (2 * I32) == 0
    ensures Wrap32(sum) == value
  {
  }

  /** Plain differences lead from each length to the next. */
  lemma {:induction false} DifferencesLead(lengths: seq<int>)
    requires lengths != []
    ensures Leads(lengths, Differences(lengths))
  {
    if |lengths| > 1 {
      DifferencesLead(lengths[1..]);
      var deltas := Differences(lengths);
      assert deltas == [lengths[1] - lengths[0]] + Differences(lengths[1..]);
      forall i | 0 <= i < |deltas|
        ensures lengths[i + 1] - (lengths[i] + deltas[i]) == 0
      {
        if i > 0 {
          ExactDifference(lengths[1..], i - 1);
        }
      }
    }
  }

  lemma {:induction false} ExactDifference(lengths: seq<int>, i: nat)
    requires i + 1 < |lengths|
    ensures Differences(lengths)[i] == lengths[i + 1] - lengths[i]
  {
    if i > 0 {
      ExactDifference(lengths[1..], i - 1);
    }
  }

  // ---------------------------------------------------------------- a plain writer

  const PLAIN_MINIBLOCK: nat := 32
  const PLAIN_MINIBLOCKS: nat := 4

  /** The least difference of two non-negative 32-bit lengths; every other one is less than 2^32 above it. */
  const LEAST_DELTA: int := -0x7fff_ffff

  ghost predicate Small(deltas: seq<int>) {
    forall i :: 0 <= i < |deltas| ==> LEAST_DELTA <= deltas[i] <= -LEAST_DELTA
  }

  /** One miniblock: the deltas above the least one, then zeros. */
  function PlainMiniblock(deltas: seq<int>): (r: seq<nat>)
    requires |deltas| <= PLAIN_MINIBLOCK && forall i :: 0 <= i < |deltas| ==> LEAST_DELTA <= deltas[i] <= -LEAST_DELTA
    ensures |r| == PLAIN_MINIBLOCK
    ensures forall i :: 0 <= i < |deltas| ==> r[i] == deltas[i] - LEAST_DELTA
    ensures forall i :: 0 <= i < PLAIN_MINIBLOCK ==> r[i] < 0x1_0000_0000
  {
    seq<nat>(PLAIN_MINIBLOCK, i requires 0 <= i < PLAIN_MINIBLOCK => if i < |deltas| then deltas[i] - LEAST_DELTA else 0)
  }

  function PlainMiniblocks(deltas: seq<int>): (r: seq<seq<nat>>)
    requires forall i :: 0 <= i < |deltas| ==> LEAST_DELTA <= deltas[i] <= -LEAST_DELTA
  {
    if deltas == [] then []
    else
      var n := Min(PLAIN_MINIBLOCK, |deltas|);
      [PlainMiniblock(deltas[..n])] + PlainMiniblocks(deltas[n..])
  }

  /** Full-width miniblocks above the least possible delta. */
  function PlainBlock(deltas: seq<int>): DeltaBlock
    requires forall i :: 0 <= i < |deltas| ==> LEAST_DELTA <= deltas[i] <= -LEAST_DELTA
  {
    DeltaBlock(Encode(Zigzag(LEAST_DELTA)), LEAST_DELTA, seq(PLAIN_MINIBLOCKS, _ => 32), PlainMiniblocks(deltas))
  }

  function PlainBlocks(deltas: seq<int>): seq<DeltaBlock>
    requires forall i :: 0 <= i < |deltas| ==> LEAST_DELTA <= deltas[i] <= -LEAST_DELTA
  {
    if deltas == [] then []
    else
      var n := Min(PLAIN_MINIBLOCKS * PLAIN_MINIBLOCK, |deltas|);
      [PlainBlock(deltas[..n])] + PlainBlocks(deltas[n..])
  }

  function PlainHeader(lengths: seq<int>): Header {
    Header(PLAIN_MINIBLOCKS, PLAIN_MINIBLOCK, if lengths == [] then 0 else lengths[0])
  }

  lemma FullWidth(values: seq<nat>)
    requires forall i :: 0 <= i < |values| ==> values[i] < 0x1_0000_0000
    ensures Fit(values, 32)
  {
    hide Pow2;
    Pow2Of32();
  }

  lemma {:induction false} PlainMiniblocksFit(widths: seq<Byte>, deltas: seq<int>)
    requires Small(deltas) && |deltas| <= PLAIN_MINIBLOCK * |widths|
    requires forall i :: 0 <= i < |widths| ==> widths[i] == 32
    ensures MiniblocksFit(widths, PlainMiniblocks(deltas), PLAIN_MINIBLOCK, LEAST_DELTA, deltas)
    decreases |widths|
  {
    hide Fit;
    if deltas != [] {
      var n := Min(PLAIN_MINIBLOCK, |deltas|);
      var first := PlainMiniblock(deltas[..n]);
      FullWidth(first);
      PlainMiniblocksFit(widths[1..], deltas[n..]);
      assert deltas[..n] == PlusEach(LEAST_DELTA, first[..n]);
      assert PlainMiniblocks(deltas) == [first] + PlainMiniblocks(deltas[n..]);
      assert PlainMiniblocks(deltas)[1..] == PlainMiniblocks(deltas[n..]);
    }
  }

  lemma {:induction false} PlainBlocksFit(header: Header, deltas: seq<int>)
    requires header.Valid() && header.miniblocks == PLAIN_MINIBLOCKS && header.perMiniblock == PLAIN_MINIBLOCK && Small(deltas)
    ensures BlocksFit(PlainBlocks(deltas), header, deltas)
    decreases |deltas|
  {
    hide MiniblocksFit, PlainMiniblocks, Denotes;
    if deltas != [] {
      var n := Min(PLAIN_MINIBLOCKS * PLAIN_MINIBLOCK, |deltas|);
      var block := PlainBlock(deltas[..n]);
      EncodeDenotes(Zigzag(LEAST_DELTA));
      PlainMiniblocksFit(block.widths, deltas[..n]);
      PlainBlocksFit(header, deltas[n..]);
      assert BlockSpan(header, deltas) == n;
      assert PlainBlocks(deltas) == [block] + PlainBlocks(deltas[n..]);
      assert PlainBlocks(deltas)[1..] == PlainBlocks(deltas[n..]);
    }
  }

  lemma {:induction false} DifferencesAreSmall(lengths: seq<int>)
    requires lengths != [] && forall i :: 0 <= i < |lengths| ==> 0 <= lengths[i] <= 0x7fff_ffff
    ensures Small(Differences(lengths))
  {
    if |lengths| > 1 {
      DifferencesAreSmall(lengths[1..]);
    }
  }

  /** The header integers in as few bytes as possible. */
  function PlainIntegers(lengths: seq<int>): Integers {
    var header := PlainHeader(lengths);
    Integers(Encode(header.miniblocks * header.perMiniblock), Encode(header.miniblocks), Encode(|lengths|),
             Encode(Zigzag(header.first)))
  }

  lemma PlainIntegersFit(lengths: seq<int>)
    requires |lengths| < U64 && forall i :: 0 <= i < |lengths| ==> 0 <= lengths[i] <= 0x7fff_ffff
    ensures Supported(PlainHeader(lengths)) && HeaderFits(PlainIntegers(lengths), PlainHeader(lengths), |lengths|)
  {
    hide Denotes;
    var header := PlainHeader(lengths);
    EncodeDenotes(header.miniblocks * header.perMiniblock);
    EncodeDenotes(header.miniblocks);
    EncodeDenotes(|lengths|);
    EncodeDenotes(Zigzag(header.first));
  }

  /** A stream for any list of non-negative 32-bit lengths. */
  ghost function PlainStream(lengths: seq<int>): seq<Byte>
    requires forall i :: 0 <= i < |lengths| ==> 0 <= lengths[i] <= 0x7fff_ffff
  {
    if lengths == [] then HeaderBytes(PlainIntegers(lengths))
    else
      DifferencesAreSmall(lengths);
      PlainBlocksFit(PlainHeader(lengths), Differences(lengths));
      HeaderBytes(PlainIntegers(lengths)) + BlocksBytes(PlainBlocks(Differences(lengths)))
  }

  /** Every list of lengths is decoded from its stream, whatever follows the stream. */
  lemma LengthsRoundTrip(lengths: seq<int>, rest: seq<Byte>)
    requires forall i :: 0 <= i < |lengths| ==> 0 <= lengths[i] <= 0x7fff_ffff
    requires |PlainStream(lengths) + rest| <= USIZE_MAX && |lengths| < U64
    ensures LengthStreamEnd(PlainStream(lengths) + rest, |lengths|) == Ok(|PlainStream(lengths)|)
    ensures DecodeLengths(PlainStream(lengths) + rest, |lengths|).value == lengths
  {
    hide LengthStreamEnd, DecodeLengths, HeaderBytes, BlocksBytes, PlainBlocks, PlainIntegers, HeaderFits, Differences,
         Accumulate;
    var bytes, header, integers := PlainStream(lengths) + rest, PlainHeader(lengths), PlainIntegers(lengths);
    PlainIntegersFit(lengths);
    if lengths == [] {
      NoBlocks();
      StreamDecodes(bytes, integers, header, 0, [], []);
    } else {
      var deltas := Differences(lengths);
      DifferencesAreSmall(lengths);
      PlainBlocksFit(header, deltas);
      StreamDecodes(bytes, integers, header, |lengths|, PlainBlocks(deltas), deltas);
      DifferencesLead(lengths);
      AccumulateInvertsDifferences(lengths, deltas);
    }
  }

  lemma NoBlocks()
    ensures BlocksBytes([]) == []
  {
  }
}
