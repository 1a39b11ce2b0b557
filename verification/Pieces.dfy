/** Lists cut into pieces of one size, of which only the last may be shorter. */
module Pieces {
  function Flat<T>(parts: seq<seq<T>>): seq<T> {
    if parts == [] then [] else parts[0] + Flat(parts[1..])
  }

  /** No piece is empty, and all but the last have the full size. */
  ghost predicate Cut<T>(parts: seq<seq<T>>, size: nat) {
    && (forall i :: 0 <= i < |parts| ==> 0 < |parts[i]| <= size)
    && (forall i :: 0 <= i < |parts| - 1 ==> |parts[i]| == size)
  }

  /** Every piece has the full size. */
  ghost predicate Full<T>(parts: seq<seq<T>>, size: nat) {
    forall i :: 0 <= i < |parts| ==> |parts[i]| == size
  }

  lemma {:induction false} FlatPlus<T>(a: seq<seq<T>>, b: seq<seq<T>>)
    ensures Flat(a + b) == Flat(a) + Flat(b)
  {
    if a == [] {
      assert a + b == b;
    } else {
      assert (a + b)[1..] == a[1..] + b;
      FlatPlus(a[1..], b);
    }
  }

  lemma FlatLast<T>(a: seq<seq<T>>, x: seq<T>)
    ensures Flat(a + [x]) == Flat(a) + x
  {
    FlatPlus(a, [x]);
    assert [x][1..] == [];
  }

  /** There is only one way to cut a list. */
  lemma {:induction false} CutIsUnique<T>(a: seq<seq<T>>, b: seq<seq<T>>, size: nat)
    requires Cut(a, size) && Cut(b, size) && Flat(a) == Flat(b)
    ensures a == b
  {
    if a != [] && b != [] {
      FirstPiece(a, size);
      FirstPiece(b, size);
      assert a[0] == b[0];
      assert Flat(a) == a[0] + Flat(a[1..]) && Flat(b) == b[0] + Flat(b[1..]);
      assert Flat(a[1..]) == Flat(a)[|a[0]|..] && Flat(b[1..]) == Flat(b)[|b[0]|..];
      CutIsUnique(a[1..], b[1..], size);
      assert a == [a[0]] + a[1..] && b == [b[0]] + b[1..];
    }
  }

  lemma FirstPiece<T>(a: seq<seq<T>>, size: nat)
    requires Cut(a, size) && a != []
    ensures a[0] == Flat(a)[..if |Flat(a)| < size then |Flat(a)| else size]
    ensures Cut(a[1..], size)
  {
    if |a| == 1 {
      assert a[1..] == [];
    } else {
      assert |a[0]| == size;
    }
  }

  lemma {:induction false} FullSize<T>(parts: seq<seq<T>>, size: nat)
    requires Full(parts, size)
    ensures |Flat(parts)| == |parts| * size
  {
    if parts != [] {
      FullSize(parts[1..], size);
    }
  }
}
