/** Bytes, parse results and the bounds-checked cursor shared by the page parsers. */
module Bytes {
  type Byte = b: int | 0 <= b < 256

  const USIZE_MAX: nat := 0xffff_ffff_ffff_ffff

  datatype Reason =
    | OffsetOverflow
    | VarintOverflow
    | EmptyDefinitionRun
    | DefinitionRun
    | PackedDefinitionCount
    | DefinitionPadding
    | TrailingDefinitionBytes
    | TruncatedDefinitionLevels
    | DeltaBlockGeometry
    | DeltaBlockSize
    | LengthCountOrFirstLength
    | MinimumDelta
    | DeltaBitWidth
    | MissingLength
    | NegativeLength
    | PayloadLength
    | PayloadLengthSum
    | SelectedRanges
    | PageSizeOrRowCount
    | PrefixExceedsPage
    | DiscoveryBudget
    | RowSelection
    | NoProgress
    | ShortPrefixRead
    | ModeledBudget
    | CachedPrefix
    | PayloadPlan
    | PayloadDestination

  datatype Error = Invalid(reason: Reason) | Fallback(reason: Reason) | NeedBytes(end: nat) | Io

  datatype Result<+T> = Ok(value: T) | Err(error: Error)

  /** A parsed value and the offset just after it. */
  datatype Parsed<+T> = Parsed(value: T, at: nat)

  /** Advances over `size` bytes; the bytes taken are `bytes[at..r.value]`. */
  function Take(bytes: seq<Byte>, at: nat, size: nat): (r: Result<nat>)
    ensures r.Ok? ==> r.value == at + size <= |bytes|
    ensures r.Err? && r.error.NeedBytes? ==> r.error.end == at + size > |bytes|
  {
    if at + size > USIZE_MAX then Err(Invalid(OffsetOverflow))
    else if at + size <= |bytes| then Ok(at + size)
    else Err(NeedBytes(at + size))
  }

  /**
   * How a parse of the first `held` bytes relates to a parse of all `total` bytes: it either
   * asks for more bytes than are held (and if even `total` is not enough, so does the whole
   * parse), or the remaining bytes make no difference.
   */
  ghost predicate Agrees<T>(part: Result<T>, whole: Result<T>, held: nat, total: nat) {
    if part.Err? && part.error.NeedBytes?
    then part.error.end > held && (total < part.error.end ==> whole == part)
    else whole == part
  }

  /** When more bytes let the parse succeed, it ends no earlier than where it had to stop. */
  ghost predicate StopsLater<T>(part: Result<T>, wholeOk: bool, wholeEnd: nat) {
    part.Err? && part.error.NeedBytes? && wholeOk ==> wholeEnd >= part.error.end
  }

  /** `part` stands at offset `at` of `bytes`. */
  ghost predicate Holds(bytes: seq<Byte>, at: nat, part: seq<Byte>) {
    at + |part| <= |bytes| && forall i :: 0 <= i < |part| ==> bytes[at + i] == part[i]
  }

  lemma HoldsBoth(bytes: seq<Byte>, at: nat, a: seq<Byte>, b: seq<Byte>)
    requires Holds(bytes, at, a + b)
    ensures Holds(bytes, at, a) && Holds(bytes, at + |a|, b)
  {
    assert forall i :: 0 <= i < |a| ==> (a + b)[i] == a[i];
    assert forall i :: 0 <= i < |b| ==> bytes[at + (|a| + i)] == (a + b)[|a| + i] == b[i];
  }

  /** Propagates an error to another result type. */
  function Fail<T, U>(r: Result<T>): Result<U>
    requires r.Err?
  {
    Err(r.error)
  }

  // ---------------------------------------------------------------- numbers

  function Pow2(n: nat): (r: nat)
    ensures r > 0
  {
    if n == 0 then 1 else 2 * Pow2(n - 1)
  }

  lemma {:induction false} Pow2Sum(a: nat, b: nat)
    ensures Pow2(a + b) == Pow2(a) * Pow2(b)
  {
    if a > 0 {
      Pow2Sum(a - 1, b);
      assert Pow2(a + b) == 2 * Pow2(a - 1 + b);
    }
  }

  lemma Pow2Of32()
    ensures Pow2(32) == 0x1_0000_0000
  {
    assert Pow2(8) == 256;
    Pow2Sum(8, 8);
    Pow2Sum(16, 16);
  }

  /** The little-endian value of `bytes`. */
  function Number(bytes: seq<Byte>): nat {
    if bytes == [] then 0 else bytes[0] + 256 * Number(bytes[1..])
  }

  /** `size` little-endian bytes of `value`. */
  function LittleEndian(value: nat, size: nat): (r: seq<Byte>)
    ensures |r| == size
  {
    if size == 0 then [] else [value % 256] + LittleEndian(value / 256, size - 1)
  }

  lemma {:induction false} NumberOfLittleEndian(value: nat, size: nat)
    requires value < Pow2(8 * size)
    ensures Number(LittleEndian(value, size)) == value
  {
    if size > 0 {
      assert Pow2(8 * size) == 256 * Pow2(8 * (size - 1)) by {
        Pow2Sum(8, 8 * (size - 1));
        assert Pow2(8) == 256;
      }
      NumberOfLittleEndian(value / 256, size - 1);
      assert LittleEndian(value, size)[1..] == LittleEndian(value / 256, size - 1);
    }
  }
}
