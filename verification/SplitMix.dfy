/** The SplitMix64 generator on 64-bit words; no two words are mixed into the same one. */
module SplitMix {
  import opened Bytes
  import opened Draws
  import opened Remainders

  // ---------------------------------------------------------------- bits of natural numbers

  /** Exclusive or, bit by bit. */
  function Xor(a: nat, b: nat): nat {
    if a == 0 && b == 0 then 0 else 2 * Xor(a / 2, b / 2) + (a + b) % 2
  }

  function ShiftRight(a: nat, bits: nat): nat {
    if bits == 0 then a else ShiftRight(a / 2, bits - 1)
  }

  /** A word with a copy of its higher bits laid over its lower ones. */
  function Folded(word: nat, bits: nat): nat {
    Xor(word, ShiftRight(word, bits))
  }

  function Times(word: nat, factor: nat): (r: nat)
    ensures r < WORD
  {
    word * factor % WORD
  }

  const FIRST_FACTOR: nat := 0xbf58_476d_1ce4_e5b9
  const SECOND_FACTOR: nat := 0x94d0_49bb_1331_11eb

  /** The generator's output for a seed. */
  function Mixed(seed: nat): nat {
    Folded(Times(Folded(Times(Folded(seed, 30), FIRST_FACTOR), 27), SECOND_FACTOR), 31)
  }

  // ---------------------------------------------------------------- folding is one-to-one

  lemma {:induction false} XorTwice(a: nat, b: nat)
    ensures Xor(Xor(a, b), b) == a
  {
    hide Xor;
    XorHalf(a, b);
    XorHalf(Xor(a, b), b);
    if a != 0 || b != 0 {
      XorTwice(a / 2, b / 2);
      BitTwice(a, b, Xor(a, b));
    } else {
      assert Xor(Xor(a, b), b) == 0 by { XorOfNothing(); }
    }
  }

  lemma BitTwice(a: nat, b: nat, both: nat)
    requires both % 2 == (a + b) % 2
    ensures (both + b) % 2 == a % 2
  {
  }

  lemma XorOfNothing()
    ensures Xor(0, 0) == 0
  {
  }

  lemma XorHalf(a: nat, b: nat)
    ensures Xor(a, b) / 2 == Xor(a / 2, b / 2) && Xor(a, b) % 2 == (a + b) % 2
  {
  }

  lemma {:induction false} ShiftedXor(a: nat, b: nat, bits: nat)
    ensures ShiftRight(Xor(a, b), bits) == Xor(ShiftRight(a, bits), ShiftRight(b, bits))
  {
    if bits > 0 {
      XorHalf(a, b);
      ShiftedXor(a / 2, b / 2, bits - 1);
    }
  }

  lemma {:induction false} ShiftGrows(a: nat, bits: nat)
    ensures ShiftRight(a, bits) <= a && (a > 0 && bits > 0 ==> ShiftRight(a, bits) < a)
  {
    if bits > 0 {
      ShiftGrows(a / 2, bits - 1);
    }
  }

  /** The higher bits are found from the folded ones, and then the lower bits. */
  lemma {:induction false} FoldedOneToOne(x: nat, y: nat, bits: nat)
    requires bits > 0 && Folded(x, bits) == Folded(y, bits)
    ensures x == y
    decreases x + y
  {
    hide Xor, ShiftRight;
    var a, b := ShiftRight(x, bits), ShiftRight(y, bits);
    ShiftGrows(x, bits);
    ShiftGrows(y, bits);
    if x != 0 || y != 0 {
      ShiftedXor(x, a, bits);
      ShiftedXor(y, b, bits);
      FoldedOneToOne(a, b, bits);
      XorTwice(x, a);
      XorTwice(y, b);
    }
  }

  lemma {:induction false} XorBelow(a: nat, b: nat, bits: nat)
    requires a < Pow2(bits) && b < Pow2(bits)
    ensures Xor(a, b) < Pow2(bits)
  {
    if bits > 0 {
      XorBelow(a / 2, b / 2, bits - 1);
      XorHalf(a, b);
    }
  }

  lemma FoldedBelow(word: nat, bits: nat)
    requires word < WORD
    ensures Folded(word, bits) < WORD
  {
    hide Pow2, Xor, ShiftRight;
    Pow2Of32();
    Pow2Sum(32, 32);
    ShiftGrows(word, bits);
    XorBelow(word, ShiftRight(word, bits), 64);
  }

  // ---------------------------------------------------------------- multiplication is one-to-one

  /** `factor` has an inverse modulo 2^64. */
  lemma TimesOneToOne(x: nat, y: nat, factor: nat, inverse: nat)
    requires x < WORD && y < WORD && factor * inverse % WORD == 1 && Times(x, factor) == Times(y, factor)
    ensures x == y
  {
    TimesInverse(x, factor, inverse);
    TimesInverse(y, factor, inverse);
  }

  lemma TimesInverse(x: nat, factor: nat, inverse: nat)
    requires x < WORD && factor * inverse % WORD == 1
    ensures Times(Times(x, factor), inverse) == x
  {
    var q, k := x * factor / WORD, factor * inverse / WORD;
    var t := Times(x, factor);
    assert x * factor == WORD * q + t && factor * inverse == WORD * k + 1;
    assert t * inverse + WORD * (q * inverse) == WORD * (x * k) + x by {
      assert (WORD * q + t) * inverse == x * factor * inverse == x * (factor * inverse) == x * (WORD * k + 1);
    }
    AddMultiple(WORD, t * inverse, q * inverse);
    RemainderUnique(WORD, x * k, x);
  }

  ghost predicate OneToOne(mix: Mix) {
    forall a: nat, b: nat :: a < WORD && b < WORD && mix(a) == mix(b) ==> a == b
  }

  /** Different seeds give different words. */
  lemma MixedOneToOne()
    ensures OneToOne(Mixed) && forall seed: nat :: seed < WORD ==> Mixed(seed) < WORD
  {
    hide Folded, Times;
    forall seed: nat | seed < WORD
      ensures Mixed(seed) < WORD
    {
      FoldedBelow(Times(Folded(Times(Folded(seed, 30), FIRST_FACTOR), 27), SECOND_FACTOR), 31);
    }
    forall a: nat, b: nat | a < WORD && b < WORD && Mixed(a) == Mixed(b)
      ensures a == b
    {
      SameSeed(a, b);
    }
  }

  lemma SameSeed(a: nat, b: nat)
    requires a < WORD && b < WORD && Mixed(a) == Mixed(b)
    ensures a == b
  {
    hide Folded, Times;
    var a1, b1 := Times(Folded(a, 30), FIRST_FACTOR), Times(Folded(b, 30), FIRST_FACTOR);
    FoldedOneToOne(Times(Folded(a1, 27), SECOND_FACTOR), Times(Folded(b1, 27), SECOND_FACTOR), 31);
    FoldedBelow(a1, 27);
    FoldedBelow(b1, 27);
    TimesOneToOne(Folded(a1, 27), Folded(b1, 27), SECOND_FACTOR, 0x3196_42b2_d24d_8ec3);
    FoldedOneToOne(a1, b1, 27);
    FoldedBelow(a, 30);
    FoldedBelow(b, 30);
    TimesOneToOne(Folded(a, 30), Folded(b, 30), FIRST_FACTOR, 0x96de_1b17_3f11_9089);
    FoldedOneToOne(a, b, 30);
  }
}
