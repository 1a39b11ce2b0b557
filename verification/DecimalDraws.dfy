/** Decimals of a given precision from 128-bit draws, each equally likely. */
module DecimalDraws {
  import opened Draws
  import opened Options
  import opened Remainders
  import opened Sets
  import opened SplitMix

  const DRAW_COUNT: nat := 0x1_0000_0000_0000_0000_0000_0000_0000_0000
  const HALF: nat := 0x8000_0000_0000_0000_0000_0000_0000_0000
  const MAX_PRECISION: nat := 38

  function Pow10(n: nat): (r: nat)
    ensures r > 0
  {
    if n == 0 then 1 else 10 * Pow10(n - 1)
  }

  /** The largest magnitude with that many digits. */
  function Bound(precision: nat): nat { Pow10(precision) - 1 }

  /** How many values there are up to a magnitude. */
  function Width(bound: nat): nat { 2 * bound + 1 }

  /** Negation modulo 2^128, then the remainder. */
  function Threshold(bound: nat): nat
    requires Width(bound) < DRAW_COUNT
  {
    (DRAW_COUNT - Width(bound)) % Width(bound)
  }

  /** The decimal that a draw yields; the lowest draws are rejected. */
  function DecimalOf(bound: nat, draw: nat): Option<int>
    requires Width(bound) < DRAW_COUNT
  {
    if draw < Threshold(bound) then None
    else
      var offset := draw % Width(bound);
      if offset < bound then Some(-(bound - offset)) else Some(offset - bound)
  }

  predicate InBounds(bound: int, decimal: int) { -bound <= decimal <= bound }

  // ---------------------------------------------------------------- bounds

  lemma {:induction false} Pow10Sum(a: nat, b: nat)
    ensures Pow10(a + b) == Pow10(a) * Pow10(b)
  {
    if a > 0 {
      Pow10Sum(a - 1, b);
      assert Pow10(a + b) == 10 * Pow10(a - 1 + b);
    }
  }

  lemma {:induction false} Pow10Grows(a: nat, b: nat)
    requires a <= b
    ensures Pow10(a) <= Pow10(b)
  {
    if a < b {
      Pow10Grows(a, b - 1);
    }
  }

  lemma Pow10Of8()
    ensures Pow10(8) == 100_000_000
  {
    assert Pow10(2) == 100;
    Pow10Sum(2, 2);
    Pow10Sum(4, 4);
  }

  lemma Pow10Of38()
    ensures Pow10(38) == 100_000_000_000_000_000_000_000_000_000_000_000_000
  {
    hide Pow10;
    Pow10Of8();
    Pow10Sum(8, 8);
    Pow10Sum(16, 16);
    Pow10Of6();
    Pow10Sum(32, 6);
  }

  lemma Pow10Of6()
    ensures Pow10(6) == 1_000_000
  {
    assert Pow10(3) == 1000;
    Pow10Sum(3, 3);
  }

  /** Exactly the precisions up to 38 fit: the values in 128 bits, each of them in a signed 128-bit number. */
  lemma FitsUpTo38(precision: nat)
    ensures Width(Bound(precision)) < DRAW_COUNT <==> precision <= MAX_PRECISION
    ensures precision <= MAX_PRECISION ==> Bound(precision) < HALF
  {
    Pow10Of38();
    if precision <= 38 {
      Pow10Grows(precision, 38);
    } else {
      assert Pow10(39) == 10 * Pow10(38);
      Pow10Grows(39, precision);
    }
  }

  /** An accepted draw counts up from the least decimal, turn after turn. */
  lemma DecimalInBounds(bound: nat, draw: nat)
    requires Width(bound) < DRAW_COUNT && DecimalOf(bound, draw).Some?
    ensures InBounds(bound, DecimalOf(bound, draw).value)
    ensures DecimalOf(bound, draw).value == draw % (2 * bound + 1) - bound
  {
    assert draw % Width(bound) < Width(bound);
  }

  // ---------------------------------------------------------------- unbiased

  /** The numbers in `low..high` with remainder `offset`. */
  function Residues(low: nat, high: nat, width: nat, offset: nat): set<nat>
    requires width > 0
  {
    set v: nat | low <= v < high && v % width == offset
  }

  /** One whole turn holds every remainder once. */
  lemma OneTurn(low: nat, width: nat, offset: nat)
    requires offset < width
    ensures exists v: nat :: Residues(low, low + width, width, offset) == {v}
  {
    var q, r := low / width, low % width;
    assert low == width * q + r;
    var v := if r <= offset then width * q + offset else width * (q + 1) + offset;
    assert width * (q + 1) == width * q + width;
    forall x: nat | low <= x < low + width
      ensures x % width == offset <==> x == v
    {
      if x < width * (q + 1) {
        RemainderUnique(width, q, x - width * q);
      } else {
        RemainderUnique(width, q + 1, x - width * (q + 1));
      }
    }
    assert Residues(low, low + width, width, offset) == {v};
  }

  lemma {:induction false} WholeTurns(low: nat, turns: nat, width: nat, offset: nat)
    requires offset < width
    ensures |Residues(low, low + turns * width, width, offset)| == turns
  {
    hide Residues;
    if turns == 0 {
      NoResidues(low, width, offset);
      assert turns * width == 0;
    } else {
      WholeTurns(low, turns - 1, width, offset);
      var middle := low + (turns - 1) * width;
      assert turns * width == (turns - 1) * width + width;
      OneTurn(middle, width, offset);
      Joined(low, middle, middle + width, width, offset);
    }
  }

  lemma NoResidues(low: nat, width: nat, offset: nat)
    requires width > 0
    ensures Residues(low, low, width, offset) == {}
  {
  }

  lemma Joined(low: nat, middle: nat, high: nat, width: nat, offset: nat)
    requires low <= middle <= high && width > 0
    ensures |Residues(low, high, width, offset)|
         == |Residues(low, middle, width, offset)| + |Residues(middle, high, width, offset)|
  {
    var a, b := Residues(low, middle, width, offset), Residues(middle, high, width, offset);
    assert Residues(low, high, width, offset) == a + b;
    assert a * b == {};
  }

  /** The draws that yield a given decimal. */
  function Accepted(bound: nat, decimal: int): set<nat>
    requires Width(bound) < DRAW_COUNT
  {
    set draw: nat | draw < DRAW_COUNT && DecimalOf(bound, draw) == Some(decimal)
  }

  /** Rejecting as many draws as are left over from whole turns. */
  lemma ThresholdIsLeftover(bound: nat)
    requires Width(bound) < DRAW_COUNT
    ensures Threshold(bound) == DRAW_COUNT % Width(bound)
    ensures DRAW_COUNT == Threshold(bound) + DRAW_COUNT / Width(bound) * Width(bound)
  {
    var w := Width(bound);
    var q, r := DRAW_COUNT / w, DRAW_COUNT % w;
    assert DRAW_COUNT == w * q + r;
    assert w * (q - 1) == w * q - w;
    RemainderUnique(w, q - 1, r);
  }

  /** Every decimal within the bounds comes from equally many draws. */
  lemma Unbiased(bound: nat, decimal: int)
    requires Width(bound) < DRAW_COUNT && InBounds(bound, decimal)
    ensures |Accepted(bound, decimal)| == DRAW_COUNT / Width(bound)
  {
    var width, offset := Width(bound), decimal + bound;
    ThresholdIsLeftover(bound);
    WholeTurns(Threshold(bound), DRAW_COUNT / width, width, offset);
    assert Accepted(bound, decimal) == Residues(Threshold(bound), DRAW_COUNT, width, offset);
  }

  /** For every supported precision. */
  lemma DecimalsAreUnbiased(precision: nat, decimal: int)
    requires precision <= MAX_PRECISION
    ensures Width(Bound(precision)) < DRAW_COUNT
    ensures InBounds(Bound(precision), decimal) ==>
              |Accepted(Bound(precision), decimal)| == DRAW_COUNT / Width(Bound(precision)) > 0
    ensures !InBounds(Bound(precision), decimal) ==> Accepted(Bound(precision), decimal) == {}
  {
    hide Bound, DecimalOf;
    FitsUpTo38(precision);
    if InBounds(Bound(precision), decimal) {
      Unbiased(Bound(precision), decimal);
    } else {
      forall draw: nat | draw < DRAW_COUNT
        ensures DecimalOf(Bound(precision), draw) != Some(decimal)
      {
        if DecimalOf(Bound(precision), draw).Some? {
          DecimalInBounds(Bound(precision), draw);
        }
      }
    }
  }

  // ---------------------------------------------------------------- the draws

  function Advanced(seed: nat, draws: nat): nat {
    if draws == 0 then seed else (Advanced(seed, draws - 1) + DRAW_STEP) % WORD
  }

  /** The 128 bits of attempt `k`: two words, the first one high. */
  function Attempt(seed: nat, k: nat): (r: nat)
    requires seed < WORD
    ensures r < DRAW_COUNT
  {
    WordAt(seed, 2 * k + 1) * WORD + WordAt(seed, 2 * k + 2)
  }

  /** The word drawn with that many steps of the seed. */
  function WordAt(seed: nat, draws: nat): (word: nat)
    requires seed < WORD
    ensures word < WORD
  {
    AdvancedInRange(seed, draws);
    MixedOneToOne();
    Mixed(Advanced(seed, draws))
  }

  lemma AdvancedInRange(seed: nat, draws: nat)
    requires seed < WORD
    ensures Advanced(seed, draws) < WORD
  {
  }

  ghost predicate AllRejected(seed: nat, bound: nat, attempts: nat)
    requires Width(bound) < DRAW_COUNT && seed < WORD
  {
    forall j: nat :: j < attempts ==> DecimalOf(bound, Attempt(seed, j)).None?
  }

  /** Attempt `k` is the first that is accepted; it gives the result and the last words drawn. */
  ghost predicate DecidedBy(seed: nat, bound: nat, k: nat, r: int, next: nat)
    requires Width(bound) < DRAW_COUNT && seed < WORD
  {
    && AllRejected(seed, bound, k)
    && DecimalOf(bound, Attempt(seed, k)) == Some(r) && next == Advanced(seed, 2 * k + 2)
  }

  // ---------------------------------------------------------------- some draw is accepted

  /** Half the period of the seed: every attempt up to it has another high word. */
  const ATTEMPTS: nat := 0x8000_0000_0000_0000

  /** The inverse of the step modulo 2^64. */
  const STEP_INVERSE: nat := 0xf1de_83e1_9937_733d

  lemma {:induction false} AdvancedIs(seed: nat, draws: nat)
    requires seed < WORD
    ensures Advanced(seed, draws) == (seed + DRAW_STEP * draws) % WORD
  {
    if draws == 0 {
      RemainderUnique(WORD, 0, seed);
    } else {
      AdvancedIs(seed, draws - 1);
      RemainderFirst(WORD, seed + DRAW_STEP * (draws - 1), DRAW_STEP);
    }
  }

  lemma CongruentDifference(m: nat, x: nat, d: nat)
    requires m > 0 && (x + d) % m == x % m
    ensures d % m == 0
  {
    var a, b := x / m, (x + d) / m;
    assert x == m * a + x % m && x + d == m * b + x % m;
    assert d == m * (b - a) by { assert m * (b - a) == m * b - m * a; }
    RemainderUnique(m, b - a, 0);
  }

  lemma StepDivides(steps: nat)
    requires steps < WORD && Times(steps, DRAW_STEP) == 0
    ensures steps == 0
  {
    hide Times;
    StepInverse();
    TimesInverse(steps, DRAW_STEP, STEP_INVERSE);
    NothingTimes(STEP_INVERSE);
  }

  lemma StepInverse()
    ensures DRAW_STEP * STEP_INVERSE % WORD == 1
  {
  }

  lemma NothingTimes(factor: nat)
    ensures Times(0, factor) == 0
  {
  }

  /** The seed comes back only after all 2^64 words. */
  lemma SeedsDiffer(seed: nat, a: nat, b: nat)
    requires seed < WORD && a <= b < a + WORD && Advanced(seed, a) == Advanced(seed, b)
    ensures a == b
  {
    hide Advanced;
    AdvancedIs(seed, a);
    AdvancedIs(seed, b);
    assert DRAW_STEP * b == DRAW_STEP * a + DRAW_STEP * (b - a);
    CongruentDifference(WORD, seed + DRAW_STEP * a, DRAW_STEP * (b - a));
    StepDivides(b - a);
  }

  lemma HighWordsDiffer(seed: nat, i: nat, j: nat)
    requires seed < WORD && i < j < ATTEMPTS
    ensures WordAt(seed, 2 * i + 1) != WordAt(seed, 2 * j + 1)
  {
    hide Advanced, Mixed;
    MixedOneToOne();
    AdvancedInRange(seed, 2 * i + 1);
    AdvancedInRange(seed, 2 * j + 1);
    if WordAt(seed, 2 * i + 1) == WordAt(seed, 2 * j + 1) {
      SeedsDiffer(seed, 2 * i + 1, 2 * j + 1);
    }
  }

  /** The high words of the first attempts. */
  ghost function HighWords(seed: nat, attempts: nat): set<int>
    requires seed < WORD
  {
    if attempts == 0 then {} else HighWords(seed, attempts - 1) + {WordAt(seed, 2 * attempts - 1)}
  }

  lemma {:induction false} HighWordsCount(seed: nat, attempts: nat)
    requires seed < WORD && attempts <= ATTEMPTS
    ensures |HighWords(seed, attempts)| == attempts
    ensures forall w :: w in HighWords(seed, attempts) ==> exists k: nat :: k < attempts && w == WordAt(seed, 2 * k + 1)
  {
    hide WordAt;
    if attempts > 0 {
      HighWordsCount(seed, attempts - 1);
      var last := WordAt(seed, 2 * (attempts - 1) + 1);
      if last in HighWords(seed, attempts - 1) {
        var k: nat :| k < attempts - 1 && last == WordAt(seed, 2 * k + 1);
        HighWordsDiffer(seed, k, attempts - 1);
      }
      assert HighWords(seed, attempts) == HighWords(seed, attempts - 1) + {last};
    }
  }

  lemma {:induction false} UpTo(n: nat) returns (all: set<int>)
    ensures |all| == n && forall x :: x in all <==> 0 <= x < n
  {
    if n == 0 {
      all := {};
    } else {
      var fewer := UpTo(n - 1);
      all := fewer + {n - 1};
    }
  }

  /** Less than half of the draws are rejected. */
  lemma ThresholdBelowHalf(precision: nat)
    requires precision <= MAX_PRECISION
    ensures Width(Bound(precision)) < DRAW_COUNT && Threshold(Bound(precision)) <= (ATTEMPTS - 1) * WORD
  {
    FitsUpTo38(precision);
    if precision == 38 {
      Pow10Of38();
      RemainderUnique(Width(Bound(38)), 0, DRAW_COUNT - Width(Bound(38)));
    } else {
      hide Pow10;
      Pow10Grows(precision, 37);
      Pow10Of38();
      TenTimes(37);
    }
  }

  lemma TenTimes(n: nat)
    ensures Pow10(n + 1) == 10 * Pow10(n)
  {
  }

  /**
   * The program's loop always ends: within half the period of the seed the high words are all different,
   * and fewer words than that are high words of rejected draws.
   */
  lemma SomeAccepted(seed: nat, precision: nat)
    requires seed < WORD && precision <= MAX_PRECISION
    ensures Width(Bound(precision)) < DRAW_COUNT && !AllRejected(seed, Bound(precision), ATTEMPTS)
  {
    hide Bound, Threshold, Attempt, WordAt, HighWords;
    ThresholdBelowHalf(precision);
    if AllRejected(seed, Bound(precision), ATTEMPTS) {
      HighWordsCount(seed, ATTEMPTS);
      var low := UpTo(ATTEMPTS - 1);
      forall w | w in HighWords(seed, ATTEMPTS)
        ensures w in low
      {
        var k: nat :| k < ATTEMPTS && w == WordAt(seed, 2 * k + 1);
        HighOfRejected(seed, Bound(precision), k);
      }
      SubsetSize(HighWords(seed, ATTEMPTS), low);
    }
  }

  lemma HighOfRejected(seed: nat, bound: nat, k: nat)
    requires seed < WORD && Width(bound) < DRAW_COUNT && Threshold(bound) <= (ATTEMPTS - 1) * WORD
    requires DecimalOf(bound, Attempt(seed, k)).None?
    ensures WordAt(seed, 2 * k + 1) < ATTEMPTS - 1
  {
    hide Threshold, WordAt;
  }

  // ---------------------------------------------------------------- the program

  class Random {
    var seed: nat

    ghost predicate Valid()
      reads this
    {
      seed < WORD
    }

    constructor (seed: nat)
      requires seed < WORD
      ensures Valid() && this.seed == seed
    {
      this.seed := seed;
    }

    method Next() returns (word: nat)
      requires Valid()
      modifies this
      ensures Valid() && seed == (old(seed) + DRAW_STEP) % WORD && word == Mixed(seed)
    {
      seed := (seed + DRAW_STEP) % WORD;
      word := Mixed(seed);
    }

    /** The first accepted draw decides, and there is always one. */
    method Decimal(precision: nat) returns (r: int)
      requires Valid() && precision <= MAX_PRECISION
      modifies this
      ensures Valid() && Width(Bound(precision)) < DRAW_COUNT
      ensures InBounds(Bound(precision), r)
      ensures exists k: nat :: k < ATTEMPTS && DecidedBy(old(seed), Bound(precision), k, r, seed)
    {
      hide Bound, Threshold, Mixed;
      FitsUpTo38(precision);
      var bound := Bound(precision);
      var width := 2 * bound + 1;
      var threshold := Threshold(bound);
      ghost var k: nat := 0;
      while true
        invariant Valid() && seed == Advanced(old(seed), 2 * k)
        invariant k <= ATTEMPTS && AllRejected(old(seed), bound, k)
        decreases ATTEMPTS - k
      {
        if k == ATTEMPTS {
          SomeAccepted(old(seed), precision);
        }
        var high := Next();
        var low := Next();
        var value := high * WORD + low;
        assert value == Attempt(old(seed), k);
        if value >= threshold {
          var offset := value % width;
          r := if offset < bound then -(bound - offset) else offset - bound;
          DecimalInBounds(bound, value);
          assert DecidedBy(old(seed), bound, k, r, seed);
          return;
        }
        k := k + 1;
      }
    }
  }
}
