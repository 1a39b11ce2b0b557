/** Definition levels of a flat column: runs of repeated or bit-packed validity flags. */
module DefinitionLevels {
  import opened Base128
  import opened Bytes
  import opened Numbers

  /** Bit `k` of a byte, least significant first. */
  predicate Bit(byte: nat, k: nat)
    decreases k
  {
    if k == 0 then byte % 2 == 1 else Bit(byte / 2, k - 1)
  }

  /** The first `count` bits packed at `at`. */
  function PackedBits(bytes: seq<Byte>, at: nat, count: nat): (r: seq<bool>)
    requires at + (count + 7) / 8 <= |bytes|
    ensures |r| == count
  {
    seq(count, i requires 0 <= i < count => Bit(bytes[at + i / 8], i % 8))
  }

  function Repeated(count: nat, value: bool): seq<bool> {
    seq(count, _ => value)
  }

  /** One run of at most `remaining` levels. */
  function Run(bytes: seq<Byte>, at: nat, remaining: nat): (r: Result<Parsed<seq<bool>>>)
    requires remaining > 0
    ensures r.Ok? ==> 0 < |r.value.value| <= remaining
    ensures r.Ok? ==> at < r.value.at <= |bytes|
  {
    var parsed := Varint(bytes, at);
    if parsed.Err? then Fail(parsed)
    else
      var header, next := parsed.value.value, parsed.value.at;
      var count := header / 2;
      if count == 0 then Err(Invalid(EmptyDefinitionRun))
      else if header % 2 == 0 then
        var taken := Take(bytes, next, 1);
        if taken.Err? then Fail(taken)
        else if count > remaining || bytes[next] > 1 then Err(Invalid(DefinitionRun))
        else Ok(Parsed(Repeated(count, bytes[next] == 1), taken.value))
      else if count > (remaining + 7) / 8 then Err(Invalid(PackedDefinitionCount))
      else
        var taken := Take(bytes, next, count);
        if taken.Err? then Fail(taken)
        else Ok(Parsed(PackedBits(bytes, next, Min(remaining, 8 * count)), taken.value))
  }

  /** `remaining` levels starting at `at`, and where they end. */
  function Levels(bytes: seq<Byte>, at: nat, remaining: nat): (r: Result<Parsed<seq<bool>>>)
    requires at <= |bytes|
    ensures r.Ok? ==> |r.value.value| == remaining && at <= r.value.at <= |bytes|
    decreases remaining
  {
    if remaining == 0 then Ok(Parsed([], at))
    else
      var run := Run(bytes, at, remaining);
      if run.Err? then run
      else Prepended(run.value.value, Levels(bytes, run.value.at, remaining - |run.value.value|))
  }

  function Prepended(first: seq<bool>, rest: Result<Parsed<seq<bool>>>): (r: Result<Parsed<seq<bool>>>)
    ensures rest.Err? ==> r == rest
    ensures rest.Ok? ==> r == Ok(Parsed(first + rest.value.value, rest.value.at))
  {
    if rest.Err? then rest else Ok(Parsed(first + rest.value.value, rest.value.at))
  }

  predicate AllZero(bytes: seq<Byte>) {
    forall i :: 0 <= i < |bytes| ==> bytes[i] == 0
  }

  /** Whether each of `rows` rows holds a value; `bytes` must hold the levels and nothing else. */
  function Definitions(bytes: seq<Byte>, rows: nat): (r: Result<seq<bool>>)
    ensures r.Ok? ==> |r.value| == rows
  {
    var levels := Levels(bytes, 0, rows);
    if levels.Err? then Fail(levels)
    else if levels.value.at == |bytes| then Ok(levels.value.value)
    else if AllZero(bytes[levels.value.at..]) then Err(Fallback(DefinitionPadding))
    else Err(Invalid(TrailingDefinitionBytes))
  }

  lemma NothingPrepended(rest: Result<Parsed<seq<bool>>>)
    ensures Prepended([], rest) == rest
  {
    if rest.Ok? {
      assert [] + rest.value.value == rest.value.value;
    }
  }

  lemma PrependedTwice(a: seq<bool>, b: seq<bool>, rest: Result<Parsed<seq<bool>>>)
    ensures Prepended(a, Prepended(b, rest)) == Prepended(a + b, rest)
  {
    if rest.Ok? {
      assert a + (b + rest.value.value) == (a + b) + rest.value.value;
    }
  }

  method ReadRun(bytes: seq<Byte>, at: nat, remaining: nat) returns (r: Result<Parsed<seq<bool>>>)
    requires remaining > 0
    ensures r == Run(bytes, at, remaining)
  {
    var parsed := ReadVarint(bytes, at);
    if parsed.Err? {
      return Fail(parsed);
    }
    var header, next := parsed.value.value, parsed.value.at;
    var count := header / 2;
    if count == 0 {
      return Err(Invalid(EmptyDefinitionRun));
    }
    if header % 2 == 0 {
      var taken := Take(bytes, next, 1);
      if taken.Err? {
        return Fail(taken);
      }
      if count > remaining || bytes[next] > 1 {
        return Err(Invalid(DefinitionRun));
      }
      r := Ok(Parsed(Repeated(count, bytes[next] == 1), taken.value));
    } else {
      if count > (remaining + 7) / 8 {
        return Err(Invalid(PackedDefinitionCount));
      }
      var taken := Take(bytes, next, count);
      if taken.Err? {
        return Fail(taken);
      }
      r := Ok(Parsed(PackedBits(bytes, next, Min(remaining, 8 * count)), taken.value));
    }
  }

  method ReadDefinitions(bytes: seq<Byte>, rows: nat) returns (r: Result<seq<bool>>)
    ensures r == Definitions(bytes, rows)
  {
    hide Run;
    var valid: seq<bool> := [];
    var at: nat := 0;
    assert Prepended([], Levels(bytes, 0, rows)) == Levels(bytes, 0, rows) by { NothingPrepended(Levels(bytes, 0, rows)); }
    while |valid| < rows
      invariant |valid| <= rows && at <= |bytes|
      invariant Levels(bytes, 0, rows) == Prepended(valid, Levels(bytes, at, rows - |valid|))
      decreases rows - |valid|
    {
      var run := ReadRun(bytes, at, rows - |valid|);
      if run.Err? {
        return Fail(run);
      }
      PrependedTwice(valid, run.value.value, Levels(bytes, run.value.at, rows - |valid| - |run.value.value|));
      valid := valid + run.value.value;
      at := run.value.at;
    }
    assert Levels(bytes, 0, rows) == Ok(Parsed(valid, at)) by {
      assert valid + [] == valid;
    }
    if at != |bytes| {
      return Err(if AllZero(bytes[at..]) then Fallback(DefinitionPadding) else Invalid(TrailingDefinitionBytes));
    }
    r := Ok(valid);
  }

  // ---------------------------------------------------------------- encoding

  /** A run as a writer may choose it, `header` included; packed bits include the padding of the last group. */
  datatype LevelRun = Rle(header: seq<Byte>, count: nat, value: bool) | Packed(header: seq<Byte>, bits: seq<bool>)

  function PackBits(bits: seq<bool>): (r: nat)
    ensures r < Pow2(|bits|)
  {
    if bits == [] then 0 else (if bits[0] then 1 else 0) + 2 * PackBits(bits[1..])
  }

  function PackByte(bits: seq<bool>): Byte
    requires |bits| == 8
  {
    assert Pow2(8) == 256;
    PackBits(bits)
  }

  function PackGroups(bits: seq<bool>): (r: seq<Byte>)
    requires |bits| % 8 == 0
    ensures |r| == |bits| / 8
  {
    if bits == [] then [] else [PackByte(bits[..8])] + PackGroups(bits[8..])
  }

  function RunBytes(run: LevelRun): seq<Byte>
    requires run.Packed? ==> |run.bits| % 8 == 0
  {
    match run
    case Rle(header, _, value) => header + [if value then 1 else 0]
    case Packed(header, bits) => header + PackGroups(bits)
  }

  /** `run` stands for the first `Span(run, levels)` of `levels`, padding only its last group. */
  ghost predicate RunFits(run: LevelRun, levels: seq<bool>) {
    match run
    case Rle(header, count, value) =>
      Denotes(header, 2 * count) && 0 < count <= |levels| && levels[..count] == Repeated(count, value)
    case Packed(header, bits) =>
      && |bits| % 8 == 0 && 0 < |bits| < |levels| + 8 && Denotes(header, 2 * (|bits| / 8) + 1)
      && bits[..Min(|bits|, |levels|)] == levels[..Min(|bits|, |levels|)]
  }

  ghost function Span(run: LevelRun, levels: seq<bool>): nat {
    match run
    case Rle(_, count, _) => count
    case Packed(_, bits) => Min(|bits|, |levels|)
  }

  ghost predicate Fits(runs: seq<LevelRun>, levels: seq<bool>) {
    if runs == [] then levels == []
    else RunFits(runs[0], levels) && Fits(runs[1..], levels[Span(runs[0], levels)..])
  }

  ghost function RunsBytes(runs: seq<LevelRun>, levels: seq<bool>): seq<Byte>
    requires Fits(runs, levels)
  {
    if runs == [] then []
    else RunBytes(runs[0]) + RunsBytes(runs[1..], levels[Span(runs[0], levels)..])
  }

  lemma {:induction false} PackedBit(bits: seq<bool>, k: nat)
    requires k < |bits|
    ensures Bit(PackBits(bits), k) == bits[k]
  {
    if k > 0 {
      PackedBit(bits[1..], k - 1);
    }
  }

  lemma ByteBit(bits: seq<bool>, i: nat)
    requires |bits| == 8 && i < 8
    ensures Bit(PackByte(bits), i) == bits[i]
  {
    PackedBit(bits, i);
  }

  lemma {:induction false} GroupBit(bits: seq<bool>, i: nat)
    requires |bits| % 8 == 0 && i < |bits|
    ensures Bit(PackGroups(bits)[i / 8], i % 8) == bits[i]
  {
    hide Bit, PackByte;
    assert PackGroups(bits) == [PackByte(bits[..8])] + PackGroups(bits[8..]);
    if i < 8 {
      ByteBit(bits[..8], i);
    } else {
      GroupBit(bits[8..], i - 8);
      assert i / 8 == (i - 8) / 8 + 1 && i % 8 == (i - 8) % 8;
    }
  }

  lemma RleFromHeader(bytes: seq<Byte>, at: nat, remaining: nat, count: nat, next: nat, value: bool)
    requires 0 < count <= remaining && next < |bytes| <= USIZE_MAX
    requires Varint(bytes, at) == Ok(Parsed(2 * count, next)) && bytes[next] == (if value then 1 else 0)
    ensures Run(bytes, at, remaining) == Ok(Parsed(Repeated(count, value), next + 1))
  {
    hide Varint, Repeated;
  }

  lemma PackedFromHeader(bytes: seq<Byte>, at: nat, remaining: nat, groups: nat, next: nat)
    requires 0 < groups <= (remaining + 7) / 8 && next + groups <= |bytes| <= USIZE_MAX
    requires Varint(bytes, at) == Ok(Parsed(2 * groups + 1, next))
    ensures Run(bytes, at, remaining) == Ok(Parsed(PackedBits(bytes, next, Min(remaining, 8 * groups)), next + groups))
  {
    hide Varint, PackedBits;
    assert (2 * groups + 1) / 2 == groups && (2 * groups + 1) % 2 == 1;
  }

  lemma RleDecodes(bytes: seq<Byte>, at: nat, run: LevelRun, levels: seq<bool>)
    requires levels != [] && RunFits(run, levels) && run.Rle?
    requires Holds(bytes, at, RunBytes(run)) && |bytes| <= USIZE_MAX
    ensures Run(bytes, at, |levels|) == Ok(Parsed(levels[..Span(run, levels)], at + |RunBytes(run)|))
  {
    hide Run, Varint, Denotes;
    var flag: seq<Byte> := [if run.value then 1 else 0];
    HoldsBoth(bytes, at, run.header, flag);
    DenotedInteger(bytes, at, run.header, 2 * run.count);
    assert bytes[at + |run.header| + 0] == flag[0];
    RleFromHeader(bytes, at, |levels|, run.count, at + |run.header|, run.value);
  }

  lemma PackedDecodes(bytes: seq<Byte>, at: nat, run: LevelRun, levels: seq<bool>)
    requires levels != [] && RunFits(run, levels) && run.Packed?
    requires Holds(bytes, at, RunBytes(run)) && |bytes| <= USIZE_MAX
    ensures Run(bytes, at, |levels|) == Ok(Parsed(levels[..Span(run, levels)], at + |RunBytes(run)|))
  {
    hide Run, Varint, Denotes, PackGroups, PackedBits, Holds;
    var groups := |run.bits| / 8;
    var header, packed := run.header, PackGroups(run.bits);
    HoldsBoth(bytes, at, header, packed);
    HeldUpTo(bytes, at + |header|, packed);
    DenotedInteger(bytes, at, header, 2 * groups + 1);
    GroupsDecode(bytes, at + |header|, run.bits, levels);
    PackedFromHeader(bytes, at, |levels|, groups, at + |header|);
  }

  lemma HeldUpTo(bytes: seq<Byte>, at: nat, part: seq<Byte>)
    requires Holds(bytes, at, part)
    ensures at + |part| <= |bytes|
  {
  }

  lemma GroupsDecode(bytes: seq<Byte>, at: nat, bits: seq<bool>, levels: seq<bool>)
    requires |bits| % 8 == 0 && Holds(bytes, at, PackGroups(bits))
    requires bits[..Min(|bits|, |levels|)] == levels[..Min(|bits|, |levels|)]
    ensures PackedBits(bytes, at, Min(|bits|, |levels|)) == levels[..Min(|bits|, |levels|)]
  {
    hide Bit, PackGroups;
    var n := Min(|bits|, |levels|);
    forall i | 0 <= i < n
      ensures PackedBits(bytes, at, n)[i] == levels[..n][i]
    {
      GroupBit(bits, i);
      assert bytes[at + i / 8] == PackGroups(bits)[i / 8];
    }
  }

  /** The parse of an encoded run, wherever it stands and whatever follows. */
  lemma RunDecodes(bytes: seq<Byte>, at: nat, run: LevelRun, levels: seq<bool>)
    requires levels != [] && RunFits(run, levels)
    requires Holds(bytes, at, RunBytes(run)) && |bytes| <= USIZE_MAX
    ensures Run(bytes, at, |levels|) == Ok(Parsed(levels[..Span(run, levels)], at + |RunBytes(run)|))
  {
    if run.Rle? {
      RleDecodes(bytes, at, run, levels);
    } else {
      PackedDecodes(bytes, at, run, levels);
    }
  }

  lemma {:induction false} LevelsDecode(bytes: seq<Byte>, at: nat, runs: seq<LevelRun>, levels: seq<bool>)
    requires Fits(runs, levels)
    requires Holds(bytes, at, RunsBytes(runs, levels)) && |bytes| <= USIZE_MAX
    ensures Levels(bytes, at, |levels|) == Ok(Parsed(levels, at + |RunsBytes(runs, levels)|))
    decreases |runs|
  {
    hide Run, RunBytes, Denotes, Repeated, Holds;
    HeldUpTo(bytes, at, RunsBytes(runs, levels));
    if runs != [] {
      var run, span := runs[0], Span(runs[0], levels);
      HoldsBoth(bytes, at, RunBytes(run), RunsBytes(runs[1..], levels[span..]));
      RunDecodes(bytes, at, run, levels);
      LevelsDecode(bytes, at + |RunBytes(run)|, runs[1..], levels[span..]);
      assert levels == levels[..span] + levels[span..];
    }
  }

  /** Any mix of repeated and bit-packed runs, their headers written out in any way, decodes to the levels it stands for. */
  lemma DefinitionsInvertRuns(runs: seq<LevelRun>, levels: seq<bool>)
    requires Fits(runs, levels)
    requires |RunsBytes(runs, levels)| <= USIZE_MAX
    ensures Definitions(RunsBytes(runs, levels), |levels|) == Ok(levels)
  {
    LevelsDecode(RunsBytes(runs, levels), 0, runs, levels);
  }

  /** A writer that repeats nothing: one run for each level. */
  function PlainRuns(levels: seq<bool>): seq<LevelRun> {
    if levels == [] then [] else [Rle(Encode(2), 1, levels[0])] + PlainRuns(levels[1..])
  }

  lemma {:induction false} PlainRunsFit(levels: seq<bool>)
    ensures Fits(PlainRuns(levels), levels)
  {
    if levels != [] {
      assert levels[..1] == Repeated(1, levels[0]);
      EncodeDenotes(2);
      PlainRunsFit(levels[1..]);
      assert PlainRuns(levels)[1..] == PlainRuns(levels[1..]);
    }
  }

  /** Every sequence of levels has runs that stand for it, and is read back from them. */
  lemma LevelsRoundTrip(levels: seq<bool>)
    ensures Fits(PlainRuns(levels), levels)
    ensures |RunsBytes(PlainRuns(levels), levels)| <= USIZE_MAX ==>
              Definitions(RunsBytes(PlainRuns(levels), levels), |levels|) == Ok(levels)
  {
    hide Definitions, Fits, RunsBytes;
    PlainRunsFit(levels);
    if |RunsBytes(PlainRuns(levels), levels)| <= USIZE_MAX {
      DefinitionsInvertRuns(PlainRuns(levels), levels);
    }
  }

  // ---------------------------------------------------------------- nothing but the levels

  lemma SameRun(bytes: seq<Byte>, extra: seq<Byte>, at: nat, remaining: nat)
    requires remaining > 0 && Run(bytes, at, remaining).Ok?
    ensures Run(bytes + extra, at, remaining) == Run(bytes, at, remaining)
  {
    hide Varint;
    VarintAgrees(bytes, bytes + extra, at);
    var next := Varint(bytes, at).value.at;
    var count := Varint(bytes, at).value.value / 2;
    if Varint(bytes, at).value.value % 2 == 1 {
      assert PackedBits(bytes + extra, next, Min(remaining, 8 * count)) == PackedBits(bytes, next, Min(remaining, 8 * count));
    }
  }

  lemma {:induction false} SameLevels(bytes: seq<Byte>, extra: seq<Byte>, at: nat, remaining: nat)
    requires at <= |bytes| && Levels(bytes, at, remaining).Ok?
    ensures Levels(bytes + extra, at, remaining) == Levels(bytes, at, remaining)
    decreases remaining
  {
    hide Run;
    if remaining > 0 {
      SameRun(bytes, extra, at, remaining);
      var run := Run(bytes, at, remaining);
      SameLevels(bytes, extra, run.value.at, remaining - |run.value.value|);
    }
  }

  /** Levels must use up their bytes: whatever follows them is rejected, zeros as padding that is not supported. */
  lemma NothingMayFollow(bytes: seq<Byte>, extra: seq<Byte>, rows: nat)
    requires Definitions(bytes, rows).Ok? && extra != []
    ensures Definitions(bytes + extra, rows)
         == if AllZero(extra) then Err(Fallback(DefinitionPadding)) else Err(Invalid(TrailingDefinitionBytes))
  {
    hide Levels;
    SameLevels(bytes, extra, 0, rows);
    assert (bytes + extra)[|bytes|..] == extra;
  }

  // ---------------------------------------------------------------- nothing but runs

  /** The lowest `n` bits of `byte`. */
  function BitsOf(byte: nat, n: nat): (r: seq<bool>)
    ensures |r| == n
  {
    seq(n, k requires 0 <= k < n => Bit(byte, k))
  }

  lemma {:induction false} PackInvertsBits(byte: nat, n: nat)
    requires byte < Pow2(n)
    ensures PackBits(BitsOf(byte, n)) == byte
  {
    if n > 0 {
      PackInvertsBits(byte / 2, n - 1);
      assert BitsOf(byte, n)[1..] == BitsOf(byte / 2, n - 1);
    }
  }

  lemma ByteOfBits(byte: Byte)
    ensures PackByte(BitsOf(byte, 8)) == byte
  {
    hide PackBits, BitsOf;
    assert Pow2(8) == 256;
    PackInvertsBits(byte, 8);
  }

  lemma BitsOfRest(bytes: seq<Byte>, at: nat, count: nat)
    requires 0 < count && at + count <= |bytes|
    ensures PackedBits(bytes, at, 8 * count)[..8] == BitsOf(bytes[at], 8)
    ensures PackedBits(bytes, at, 8 * count)[8..] == PackedBits(bytes, at + 1, 8 * (count - 1))
  {
    hide Bit;
    var bits, rest := PackedBits(bytes, at, 8 * count), PackedBits(bytes, at + 1, 8 * (count - 1));
    forall i | 0 <= i < |rest|
      ensures bits[8..][i] == rest[i]
    {
      assert (8 + i) / 8 == 1 + i / 8 && (8 + i) % 8 == i % 8;
    }
  }

  /** Whole bytes are the groups of their bits. */
  lemma {:induction false} GroupsOfBits(bytes: seq<Byte>, at: nat, count: nat)
    requires at + count <= |bytes|
    ensures PackGroups(PackedBits(bytes, at, 8 * count)) == bytes[at..at + count]
    decreases count
  {
    hide Bit, BitsOf, PackByte, PackedBits;
    if count > 0 {
      BitsOfRest(bytes, at, count);
      ByteOfBits(bytes[at]);
      GroupsOfBits(bytes, at + 1, count - 1);
      assert bytes[at..at + count] == [bytes[at]] + bytes[at + 1..at + 1 + (count - 1)];
    }
  }

  /** What is accepted as a run is the run of some writer. */
  lemma AcceptedRun(bytes: seq<Byte>, at: nat, levels: seq<bool>) returns (run: LevelRun)
    requires levels != [] && Run(bytes, at, |levels|).Ok? && Run(bytes, at, |levels|).value.value <= levels
    ensures RunFits(run, levels) && Span(run, levels) == |Run(bytes, at, |levels|).value.value|
    ensures at < Run(bytes, at, |levels|).value.at <= |bytes|
    ensures RunBytes(run) == bytes[at..Run(bytes, at, |levels|).value.at]
  {
    hide Varint, Denotes, PackGroups, Bit;
    AcceptedInteger(bytes, at);
    var Parsed(number, next) := Varint(bytes, at).value;
    var count := number / 2;
    var header := bytes[at..next];
    var end := Run(bytes, at, |levels|).value.at;
    assert bytes[at..end] == header + bytes[next..end];
    if number % 2 == 0 {
      run := Rle(header, count, bytes[next] == 1);
    } else {
      run := Packed(header, PackedBits(bytes, next, 8 * count));
      GroupsOfBits(bytes, next, count);
    }
  }

  /** What is accepted as levels is a mix of runs of some writer. */
  lemma {:induction false} AcceptedLevels(bytes: seq<Byte>, at: nat, remaining: nat) returns (runs: seq<LevelRun>)
    requires at <= |bytes| && Levels(bytes, at, remaining).Ok?
    ensures var Parsed(levels, end) := Levels(bytes, at, remaining).value;
            at <= end <= |bytes| && Fits(runs, levels) && RunsBytes(runs, levels) == bytes[at..end]
    decreases remaining
  {
    hide Run, RunBytes, RunFits, Span;
    if remaining == 0 {
      runs := [];
    } else {
      var Parsed(levels, end) := Levels(bytes, at, remaining).value;
      var Parsed(first, next) := Run(bytes, at, remaining).value;
      var run := AcceptedRun(bytes, at, levels);
      var rest := AcceptedLevels(bytes, next, remaining - |first|);
      assert levels[|first|..] == Levels(bytes, next, remaining - |first|).value.value;
      runs := [run] + rest;
      assert runs[1..] == rest;
      assert bytes[at..end] == bytes[at..next] + bytes[next..end];
    }
  }

  /** Definitions are accepted exactly when they are nothing but the runs of some writer. */
  lemma AcceptedDefinitions(bytes: seq<Byte>, rows: nat) returns (runs: seq<LevelRun>)
    requires Definitions(bytes, rows).Ok?
    ensures var levels := Definitions(bytes, rows).value;
            Fits(runs, levels) && RunsBytes(runs, levels) == bytes
  {
    hide Levels, RunsBytes, Fits;
    runs := AcceptedLevels(bytes, 0, rows);
    assert bytes[0..|bytes|] == bytes;
  }
}
