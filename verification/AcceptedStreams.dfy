/** Every length stream that is accepted is one that some writer laid out. */
module AcceptedStreams {
  import opened Base128
  import opened Bytes
  import opened LengthCodec
  import opened LengthStream
  import opened Numbers

  // ---------------------------------------------------------------- packed bytes

  lemma {:induction false} LittleEndianOfNumber(bytes: seq<Byte>)
    ensures LittleEndian(Number(bytes), |bytes|) == bytes
  {
    if bytes != [] {
      LittleEndianOfNumber(bytes[1..]);
      assert bytes == [bytes[0]] + bytes[1..];
    }
  }

  lemma {:induction false} NumberBound(bytes: seq<Byte>)
    ensures Number(bytes) < Pow2(8 * |bytes|)
  {
    if bytes != [] {
      NumberBound(bytes[1..]);
      assert Pow2(8) == 256;
      Pow2Sum(8, 8 * (|bytes| - 1));
    }
  }

  lemma Halves(x: nat, base: nat, bound: nat)
    requires base > 0 && x < base * bound
    ensures Quotient(x, base) < bound && x == x % base + base * Quotient(x, base)
  {
    var q := x / base;
    assert x == base * q + x % base;
    if q >= bound {
      NonNegativeProduct(base, q - bound);
      ProductOfSum(base, bound, q - bound);
    }
  }

  lemma PackMore(first: nat, rest: seq<nat>, width: nat)
    requires first < Pow2(width) && Fit(rest, width)
    ensures Fit([first] + rest, width)
    ensures PackNumber([first] + rest, width) == first + Pow2(width) * PackNumber(rest, width)
  {
    hide Pow2;
    assert ([first] + rest)[1..] == rest;
  }

  lemma OneMoreWidth(width: nat, n: nat)
    requires n > 0
    ensures Pow2(width * n) == Pow2(width) * Pow2(width * (n - 1))
  {
    hide Pow2;
    ProductOfSum(width, 1, n - 1);
    NonNegativeProduct(width, n - 1);
    Pow2Sum(width, width * (n - 1));
  }

  /** Packing what was unpacked gives the number back. */
  lemma {:induction false} PackInvertsUnpack(x: nat, width: nat, n: nat)
    requires x < Pow2(width * n)
    ensures Fit(Unpack(x, width, n), width) && PackNumber(Unpack(x, width, n), width) == x
    decreases n
  {
    hide Quotient, Pow2, Fit;
    if n == 0 {
      NothingPacked(x, width);
    } else {
      NonNegativeProduct(width, n - 1);
      OneMoreWidth(width, n);
      Halves(x, Pow2(width), Pow2(width * (n - 1)));
      PackInvertsUnpack(Quotient(x, Pow2(width)), width, n - 1);
      PackMore(x % Pow2(width), Unpack(Quotient(x, Pow2(width)), width, n - 1), width);
    }
  }

  lemma NothingPacked(x: nat, width: nat)
    requires x < Pow2(width * 0)
    ensures Fit([], width) && PackNumber([], width) == x
  {
  }

  lemma {:induction false} UnpackPrefix(x: nat, width: nat, n: nat, more: nat)
    requires n <= more
    ensures Unpack(x, width, more)[..n] == Unpack(x, width, n)
    decreases n
  {
    hide Quotient, Pow2;
    if n > 0 {
      UnpackPrefix(Quotient(x, Pow2(width)), width, n - 1, more - 1);
    }
  }

  /** The bytes of a miniblock pack the values that they unpack to. */
  lemma PackedOfBytes(bytes: seq<Byte>, width: nat, perMiniblock: nat)
    requires perMiniblock % 32 == 0 && |bytes| == PackedSize(perMiniblock, width)
    ensures var values := Unpack(Number(bytes), width, perMiniblock);
            Fit(values, width) && PackedBytes(values, width) == bytes
  {
    hide Unpack, Number, Fit, LittleEndian, PackNumber, Pow2, PackedSize;
    NumberBound(bytes);
    PackedSizeExact(perMiniblock, width);
    PackInvertsUnpack(Number(bytes), width, perMiniblock);
    LittleEndianOfNumber(bytes);
  }

  // ---------------------------------------------------------------- blocks

  lemma FirstUsed(bytes: seq<Byte>, at: nat, widths: seq<Byte>, perMiniblock: nat, remaining: nat, minDelta: int)
    requires at <= |bytes| && perMiniblock > 0 && widths != [] && remaining > 0
    requires MiniblocksEnd(bytes, at, widths, perMiniblock, remaining).Ok?
    ensures var n, next := Min(perMiniblock, remaining), at + PackedSize(perMiniblock, widths[0]);
            && widths[0] <= 32 && next <= |bytes|
            && MiniblocksEnd(bytes, next, widths[1..], perMiniblock, remaining - n).Ok?
            && var rest := MiniblockDeltas(bytes, next, widths[1..], perMiniblock, remaining - n, minDelta);
               MiniblockDeltas(bytes, at, widths, perMiniblock, remaining, minDelta)
               == Parsed(PlusEach(minDelta, Unpack(Number(bytes[at..next]), widths[0], n)) + rest.value, rest.at)
  {
  }

  /** One more miniblock before those that fit. */
  lemma OneMiniblockMore(widths: seq<Byte>, first: seq<nat>, rest: seq<seq<nat>>, perMiniblock: nat, minDelta: int,
                         deltas: seq<int>)
    requires perMiniblock > 0 && widths != [] && deltas != []
    requires var n := Min(perMiniblock, |deltas|);
             && widths[0] <= 32 && |first| == perMiniblock && Fit(first, widths[0])
             && deltas[..n] == PlusEach(minDelta, first[..n])
             && MiniblocksFit(widths[1..], rest, perMiniblock, minDelta, deltas[n..])
    ensures MiniblocksFit(widths, [first] + rest, perMiniblock, minDelta, deltas)
    ensures MiniblocksBytes(widths, [first] + rest) == PackedBytes(first, widths[0]) + MiniblocksBytes(widths[1..], rest)
  {
    hide Fit, PackedBytes, PlusEach;
    assert ([first] + rest)[1..] == rest;
  }

  /** Values of all miniblocks of a block, the unused part of the last one included. */
  lemma {:induction false} AcceptedMiniblocks(bytes: seq<Byte>, at: nat, widths: seq<Byte>, perMiniblock: nat,
                                              remaining: nat, minDelta: int)
    returns (packed: seq<seq<nat>>)
    requires at <= |bytes| && perMiniblock > 0 && perMiniblock % 32 == 0
    requires MiniblocksEnd(bytes, at, widths, perMiniblock, remaining).Ok?
    ensures var Parsed(deltas, end) := MiniblockDeltas(bytes, at, widths, perMiniblock, remaining, minDelta);
            && |deltas| == Min(remaining, Capacity(|widths|, perMiniblock))
            && MiniblocksFit(widths, packed, perMiniblock, minDelta, deltas)
            && at <= end <= |bytes| && MiniblocksBytes(widths, packed) == bytes[at..end]
    decreases |widths|
  {
    hide Number, Unpack, PackedBytes, PackedSize, Fit, Capacity, MiniblocksEnd, MiniblockDeltas, MiniblocksFit,
         MiniblocksBytes, PlusEach;
    if widths == [] || remaining == 0 {
      packed := [];
      NothingUsed(bytes, at, widths, perMiniblock, remaining, minDelta);
    } else {
      var n, next := Min(perMiniblock, remaining), at + PackedSize(perMiniblock, widths[0]);
      FirstUsed(bytes, at, widths, perMiniblock, remaining, minDelta);
      NextSpan(|widths|, perMiniblock, remaining);
      var number := Number(bytes[at..next]);
      var first := Unpack(number, widths[0], perMiniblock);
      PackedOfBytes(bytes[at..next], widths[0], perMiniblock);
      UnpackPrefix(number, widths[0], n, perMiniblock);
      var rest := AcceptedMiniblocks(bytes, next, widths[1..], perMiniblock, remaining - n, minDelta);
      packed := [first] + rest;
      var Parsed(deltas, end) := MiniblockDeltas(bytes, at, widths, perMiniblock, remaining, minDelta);
      FirstDeltas(minDelta, first[..n], deltas, MiniblockDeltas(bytes, next, widths[1..], perMiniblock, remaining - n,
                                                                minDelta).value);
      OneMiniblockMore(widths, first, rest, perMiniblock, minDelta, deltas);
      assert bytes[at..end] == bytes[at..next] + bytes[next..end];
    }
  }

  lemma FirstDeltas(minDelta: int, first: seq<nat>, deltas: seq<int>, rest: seq<int>)
    requires deltas == PlusEach(minDelta, first) + rest
    ensures deltas[..|first|] == PlusEach(minDelta, first) && deltas[|first|..] == rest
  {
    hide PlusEach;
  }

  lemma NothingUsed(bytes: seq<Byte>, at: nat, widths: seq<Byte>, perMiniblock: nat, remaining: nat, minDelta: int)
    requires at <= |bytes| && perMiniblock > 0 && (widths == [] || remaining == 0)
    ensures MiniblocksEnd(bytes, at, widths, perMiniblock, remaining).Ok?
    ensures MiniblockDeltas(bytes, at, widths, perMiniblock, remaining, minDelta) == Parsed([], at)
    ensures Min(remaining, Capacity(|widths|, perMiniblock)) == 0
    ensures MiniblocksFit(widths, [], perMiniblock, minDelta, []) && MiniblocksBytes(widths, []) == []
  {
    NoCapacity(perMiniblock);
  }

  lemma NoCapacity(perMiniblock: nat)
    ensures Capacity(0, perMiniblock) == 0
  {
  }

  lemma ZigzagOfSigned(value: nat)
    ensures Zigzag(Signed(value)) == value
  {
  }

  /** The parts of an accepted block. */
  lemma BlockParts(bytes: seq<Byte>, at: nat, header: Header, remaining: nat)
    requires at <= |bytes| && header.Valid() && remaining > 0 && BlockAt(bytes, at, header, remaining).Ok?
    ensures var block := BlockAt(bytes, at, header, remaining).value.value;
            && IsI32(block.minDelta) && |block.widths| == header.miniblocks
            && at <= block.body - header.miniblocks
            && Denotes(bytes[at..block.body - header.miniblocks], Zigzag(block.minDelta))
            && block.widths == bytes[block.body - header.miniblocks..block.body]
  {
    hide Varint, Denotes, MiniblocksEnd, Zigzag, Signed;
    AcceptedInteger(bytes, at);
    ZigzagOfSigned(Varint(bytes, at).value.value);
  }

  lemma AcceptedBlock(bytes: seq<Byte>, at: nat, header: Header, deltas: seq<int>) returns (block: DeltaBlock)
    requires at <= |bytes| && header.Valid() && deltas != []
    requires BlocksEnd(bytes, at, header, |deltas|).Ok? && BlockDeltas(bytes, at, header, |deltas|).value == deltas
    ensures BlockAt(bytes, at, header, |deltas|).Ok?
    ensures var Parsed(found, end) := BlockAt(bytes, at, header, |deltas|).value;
            && BlockFits(block, header, deltas) && found.left == |deltas| - BlockSpan(header, deltas)
            && at <= end <= |bytes| && BlockBytes(block) == bytes[at..end]
            && BlocksEnd(bytes, end, header, found.left).Ok?
            && BlocksEnd(bytes, end, header, found.left) == BlocksEnd(bytes, at, header, |deltas|)
            && BlockDeltas(bytes, end, header, found.left).value == deltas[BlockSpan(header, deltas)..]
  {
    hide BlockAt, MiniblocksEnd, MiniblockDeltas, MiniblocksFit, MiniblocksBytes, Denotes, Zigzag, Capacity, IsI32;
    var Parsed(found, end) := BlockAt(bytes, at, header, |deltas|).value;
    BlockParts(bytes, at, header, |deltas|);
    var packed := AcceptedMiniblocks(bytes, found.body, found.widths, header.perMiniblock, |deltas|, found.minDelta);
    var here := MiniblockDeltas(bytes, found.body, found.widths, header.perMiniblock, |deltas|, found.minDelta);
    var integer := bytes[at..found.body - header.miniblocks];
    block := DeltaBlock(integer, found.minDelta, found.widths, packed);
    assert deltas == here.value + BlockDeltas(bytes, end, header, found.left).value;
    assert bytes[at..end] == integer + (found.widths + bytes[found.body..end]);
  }

  lemma {:induction false} AcceptedBlocks(bytes: seq<Byte>, at: nat, header: Header, remaining: nat)
    returns (blocks: seq<DeltaBlock>)
    requires at <= |bytes| && header.Valid() && BlocksEnd(bytes, at, header, remaining).Ok?
    ensures var Parsed(deltas, end) := BlockDeltas(bytes, at, header, remaining);
            && BlocksFit(blocks, header, deltas)
            && at <= end <= |bytes| && BlocksBytes(blocks) == bytes[at..end]
    decreases remaining
  {
    hide BlockAt, BlockFits, BlockBytes, BlockSpan, MiniblockDeltas, MiniblocksEnd, Header.Valid;
    if remaining == 0 {
      blocks := [];
    } else {
      var Parsed(deltas, end) := BlockDeltas(bytes, at, header, remaining);
      var block := AcceptedBlock(bytes, at, header, deltas);
      var Parsed(found, next) := BlockAt(bytes, at, header, remaining).value;
      var rest := AcceptedBlocks(bytes, next, header, found.left);
      blocks := [block] + rest;
      assert blocks[1..] == rest;
      assert bytes[at..end] == bytes[at..next] + bytes[next..end];
    }
  }

  // ---------------------------------------------------------------- streams

  lemma AcceptedHeader(bytes: seq<Byte>, count: nat) returns (integers: Integers)
    requires ParseHeader(bytes, count).Ok?
    ensures var Parsed(header, at) := ParseHeader(bytes, count).value;
            && Supported(header) && HeaderFits(integers, header, count) && (count != 0 ==> header.first >= 0)
            && at <= |bytes| && HeaderBytes(integers) == bytes[..at]
  {
    hide Varint, Denotes, Zigzag, Signed;
    AcceptedGeometry(bytes, count);
    var b := Varint(bytes, 0).value.at;
    var m := Varint(bytes, b).value.at;
    var c := Varint(bytes, m).value.at;
    var f := Varint(bytes, c).value.at;
    AcceptedInteger(bytes, 0);
    AcceptedInteger(bytes, b);
    AcceptedInteger(bytes, m);
    AcceptedInteger(bytes, c);
    ZigzagOfSigned(Varint(bytes, c).value.value);
    integers := Integers(bytes[0..b], bytes[b..m], bytes[m..c], bytes[c..f]);
    assert bytes[..f] == bytes[0..b] + (bytes[b..m] + (bytes[m..c] + bytes[c..f]));
  }

  /** What is accepted as a stream was laid out by some writer, and decodes to what the writer meant. */
  lemma AcceptedStream(bytes: seq<Byte>, count: nat)
    returns (integers: Integers, header: Header, blocks: seq<DeltaBlock>, deltas: seq<int>)
    requires LengthStreamEnd(bytes, count).Ok?
    ensures Supported(header) && HeaderFits(integers, header, count) && (count != 0 ==> header.first >= 0)
    ensures |deltas| == Deltas(count) && BlocksFit(blocks, header, deltas)
    ensures HeaderBytes(integers) + BlocksBytes(blocks) == bytes[..LengthStreamEnd(bytes, count).value]
    ensures DecodeLengths(bytes, count).value == if count == 0 then [] else Accumulate(header.first, deltas)
  {
    hide ParseHeader, BlocksEnd, BlockDeltas, HeaderFits, HeaderBytes, BlocksFit, BlocksBytes, Accumulate, Supported;
    var found := ParseHeader(bytes, count).value;
    header := found.value;
    integers := AcceptedHeader(bytes, count);
    blocks := AcceptedBlocks(bytes, found.at, header, Deltas(count));
    deltas := BlockDeltas(bytes, found.at, header, Deltas(count)).value;
    var end := LengthStreamEnd(bytes, count).value;
    assert bytes[..end] == bytes[..found.at] + bytes[found.at..end];
  }

  lemma {:induction false} AccumulateLeads(first: int, deltas: seq<int>)
    requires IsI32(first)
    ensures Leads(Accumulate(first, deltas), deltas)
    ensures forall i :: 0 <= i <= |deltas| ==> IsI32(Accumulate(first, deltas)[i])
    decreases |deltas|
  {
    hide Wrap32;
    if deltas != [] {
      var next := Wrap32(first + deltas[0]);
      AccumulateLeads(next, deltas[1..]);
      WrapIsCongruent(first + deltas[0]);
      var lengths, rest := Accumulate(first, deltas), Accumulate(next, deltas[1..]);
      assert lengths == [first] + rest && rest[0] == next;
      forall i | 0 <= i < |deltas|
        ensures (lengths[i + 1] - (lengths[i] + deltas[i])) % (2 * I32) == 0
      {
        if i > 0 {
          assert (rest[i - 1 + 1] - (rest[i - 1] + deltas[1..][i - 1])) % (2 * I32) == 0;
        }
      }
    }
  }

  lemma WrapIsCongruent(sum: int)
    ensures (Wrap32(sum) - sum) % (2 * I32) == 0
  {
  }
}
