/** Unsigned base-128 integers and the zigzag map of signed ones. */
module Base128 {
  import opened Bytes

  const U64: nat := 0x1_0000_0000_0000_0000
  const MAX_BYTES: nat := 10

  /** The integer at `at`, of which `index` bytes have already been read. */
  function VarintFrom(bytes: seq<Byte>, at: nat, index: nat): (r: Result<Parsed<nat>>)
    requires index <= MAX_BYTES
    ensures r.Ok? ==> at < r.value.at <= |bytes|
    ensures r.Ok? ==> r.value.value < Bound(index)
    decreases MAX_BYTES - index
  {
    if index == MAX_BYTES then Err(Invalid(VarintOverflow))
    else
      var taken := Take(bytes, at, 1);
      if taken.Err? then Fail(taken)
      else
        var byte := bytes[at];
        if index == 9 && byte > 1 then Err(Invalid(VarintOverflow))
        else if byte < 128 then Ok(Parsed(byte, at + 1))
        else
          Completed(byte % 128, 128, VarintFrom(bytes, at + 1, index + 1))
  }

  /** A partial value completed by what the remaining bytes hold. */
  function Completed(value: nat, scale: nat, rest: Result<Parsed<nat>>): Result<Parsed<nat>> {
    if rest.Err? then rest else Ok(Parsed(value + scale * rest.value.value, rest.value.at))
  }

  /** What an integer still may hold after `index` bytes: 64 bits in all. */
  function Bound(index: nat): (r: nat)
    requires index <= MAX_BYTES
    ensures r >= 2 && (index < 9 ==> r >= 256)
    decreases MAX_BYTES - index
  {
    if index >= 9 then 2 else 128 * Bound(index + 1)
  }

  function Varint(bytes: seq<Byte>, at: nat): (r: Result<Parsed<nat>>)
    ensures r.Ok? ==> at < r.value.at <= |bytes| && r.value.value < U64
  {
    VarintFrom(bytes, at, 0)
  }

  function Encode(value: nat): (r: seq<Byte>)
    ensures r != []
  {
    if value < 128 then [value] else [128 + value % 128] + Encode(value / 128)
  }

  lemma {:induction false} VarintFromAgrees(part: seq<Byte>, whole: seq<Byte>, at: nat, index: nat)
    requires part <= whole && index <= MAX_BYTES
    ensures Agrees(VarintFrom(part, at, index), VarintFrom(whole, at, index), |part|, |whole|)
    ensures var w := VarintFrom(whole, at, index);
            StopsLater(VarintFrom(part, at, index), w.Ok?, if w.Ok? then w.value.at else 0)
    decreases MAX_BYTES - index
  {
    if index < MAX_BYTES {
      VarintFromAgrees(part, whole, at + 1, index + 1);
    }
  }

  lemma VarintAgrees(part: seq<Byte>, whole: seq<Byte>, at: nat)
    requires part <= whole
    ensures Agrees(Varint(part, at), Varint(whole, at), |part|, |whole|)
    ensures var w := Varint(whole, at);
            StopsLater(Varint(part, at), w.Ok?, if w.Ok? then w.value.at else 0)
  {
    VarintFromAgrees(part, whole, at, 0);
  }

  lemma Distribute(scale: nat, low: nat, high: nat)
    ensures scale * (low + 128 * high) == scale * low + (scale * 128) * high
  {
  }

  lemma SevenMoreBits(value: nat, scale: nat, low: nat)
    requires value < scale && low < 128
    ensures value + scale * low < scale * 128
  {
    assert scale * low <= scale * 127;
  }

  lemma CompletedTwice(value: nat, scale: nat, low: nat, rest: Result<Parsed<nat>>)
    ensures Completed(value, scale, Completed(low, 128, rest)) == Completed(value + scale * low, scale * 128, rest)
  {
    if rest.Ok? {
      Distribute(scale, low, rest.value.value);
    }
  }

  /** The loop adds seven bits at a time; `scale` is one shifted left by the bits read. */
  method ReadVarint(bytes: seq<Byte>, at: nat) returns (r: Result<Parsed<nat>>)
    ensures r == Varint(bytes, at)
  {
    hide Completed, Bound;
    var value: nat, scale: nat, cursor: nat := 0, 1, at;
    WholeValue(bytes, at);
    for index := 0 to MAX_BYTES
      invariant value < scale
      invariant Varint(bytes, at) == Completed(value, scale, VarintFrom(bytes, cursor, index))
    {
      CompletedResult(value, scale, VarintFrom(bytes, cursor, index));
      var taken := Take(bytes, cursor, 1);
      if taken.Err? {
        return Fail(taken);
      }
      var byte := bytes[cursor];
      cursor := taken.value;
      if index == 9 && byte > 1 {
        return Err(Invalid(VarintOverflow));
      }
      var low: nat := byte % 128;
      SevenMoreBits(value, scale, low);
      CompletedTwice(value, scale, low, VarintFrom(bytes, cursor, index + 1));
      value := value + scale * low;
      if byte < 128 {
        return Ok(Parsed(value, cursor));
      }
      scale := scale * 128;
    }
    CompletedResult(value, scale, VarintFrom(bytes, cursor, MAX_BYTES));
    r := Err(Invalid(VarintOverflow));
  }

  lemma WholeValue(bytes: seq<Byte>, at: nat)
    ensures Varint(bytes, at) == Completed(0, 1, VarintFrom(bytes, at, 0))
  {
  }

  lemma CompletedResult(value: nat, scale: nat, rest: Result<Parsed<nat>>)
    ensures rest.Err? ==> Completed(value, scale, rest) == rest
    ensures rest.Ok? ==> Completed(value, scale, rest) == Ok(Parsed(value + scale * rest.value.value, rest.value.at))
  {
  }

  // ---------------------------------------------------------------- signed values

  /** Zigzag: 0, -1, 1, -2, 2, ... */
  function Signed(value: nat): int {
    if value % 2 == 0 then value / 2 else -(value / 2) - 1
  }

  function Zigzag(value: int): nat {
    if value >= 0 then 2 * value else -2 * value - 1
  }

  lemma SignedInvertsZigzag(value: int)
    ensures Signed(Zigzag(value)) == value
    ensures -0x8000_0000_0000_0000 <= value < 0x8000_0000_0000_0000 <==> Zigzag(value) < U64
  {
  }

  // ---------------------------------------------------------------- what is accepted

  /** Seven bits of every byte, the lowest first. */
  function Groups(bytes: seq<Byte>): nat {
    if bytes == [] then 0 else bytes[0] % 128 + 128 * Groups(bytes[1..])
  }

  /** Every byte but the last says that another one follows. */
  predicate OneInteger(bytes: seq<Byte>) {
    bytes != [] && bytes[|bytes| - 1] < 128 && forall i :: 0 <= i < |bytes| - 1 ==> bytes[i] >= 128
  }

  lemma {:induction false} AcceptedFrom(bytes: seq<Byte>, at: nat, index: nat)
    requires index <= MAX_BYTES && VarintFrom(bytes, at, index).Ok?
    ensures var Parsed(value, end) := VarintFrom(bytes, at, index).value;
            end - at <= 10 - index && OneInteger(bytes[at..end]) && Groups(bytes[at..end]) == value
    decreases MAX_BYTES - index
  {
    var byte := bytes[at];
    if byte < 128 {
      assert bytes[at..at + 1] == [byte];
    } else {
      AcceptedFrom(bytes, at + 1, index + 1);
      var end := VarintFrom(bytes, at, index).value.at;
      assert bytes[at..end] == [byte] + bytes[at + 1..end];
    }
  }

  /** `bytes` write `value` out, not necessarily in as few bytes as possible. */
  ghost predicate Denotes(bytes: seq<Byte>, value: nat) {
    OneInteger(bytes) && |bytes| <= 10 && value == Groups(bytes) < 0x1_0000_0000_0000_0000
  }

  /** What is accepted is one integer of at most ten bytes below 2^64, and the result is what its groups add up to. */
  lemma AcceptedInteger(bytes: seq<Byte>, at: nat)
    requires Varint(bytes, at).Ok?
    ensures var Parsed(value, end) := Varint(bytes, at).value;
            at < end <= |bytes| && Denotes(bytes[at..end], value)
  {
    AcceptedFrom(bytes, at, 0);
  }

  lemma {:induction false} DenotedFrom(bytes: seq<Byte>, at: nat, part: seq<Byte>, index: nat)
    requires OneInteger(part) && |part| <= MAX_BYTES - index && Groups(part) < Bound(index)
    requires Holds(bytes, at, part) && |bytes| <= USIZE_MAX
    ensures VarintFrom(bytes, at, index) == Ok(Parsed(Groups(part), at + |part|))
    decreases |part|
  {
    assert bytes[at] == part[0];
    if |part| == 1 {
      assert Groups(part) == part[0];
    } else {
      assert OneInteger(part[1..]);
      assert Holds(bytes, at + 1, part[1..]);
      DenotedFrom(bytes, at + 1, part[1..], index + 1);
    }
  }

  /** Whatever writes an integer out is accepted as that integer, wherever it stands. */
  lemma DenotedInteger(bytes: seq<Byte>, at: nat, part: seq<Byte>, value: nat)
    requires Denotes(part, value) && Holds(bytes, at, part) && |bytes| <= USIZE_MAX
    ensures Varint(bytes, at) == Ok(Parsed(value, at + |part|))
  {
    DenotedFrom(bytes, at, part, 0);
  }

  lemma {:induction false} EncodedIsOne(value: nat)
    ensures OneInteger(Encode(value)) && Groups(Encode(value)) == value
  {
    if value >= 128 {
      EncodedIsOne(value / 128);
      var code := Encode(value);
      assert code == [128 + value % 128] + Encode(value / 128);
      assert code[1..] == Encode(value / 128);
    } else {
      assert Groups([value]) == value;
    }
  }

  /** The shortest form is one of those that write an integer out. */
  lemma EncodeDenotes(value: nat)
    requires value < U64
    ensures Denotes(Encode(value), value)
  {
    EncodedIsOne(value);
    EncodeLength(value, 0);
  }

  lemma {:induction false} EncodeLength(value: nat, index: nat)
    requires index < MAX_BYTES && value < Bound(index)
    ensures |Encode(value)| <= MAX_BYTES - index
    decreases MAX_BYTES - index
  {
    if value >= 128 {
      EncodeLength(value / 128, index + 1);
    }
  }

  /** Every 64-bit value survives encoding and decoding, in at most ten bytes. */
  lemma VarintInvertsEncode(bytes: seq<Byte>, at: nat, value: nat)
    requires value < U64 && Holds(bytes, at, Encode(value)) && |bytes| <= USIZE_MAX
    ensures |Encode(value)| <= MAX_BYTES
    ensures Varint(bytes, at) == Ok(Parsed(value, at + |Encode(value)|))
  {
    EncodeDenotes(value);
    DenotedInteger(bytes, at, Encode(value), value);
  }
}
