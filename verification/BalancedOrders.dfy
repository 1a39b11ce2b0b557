/** Run orders in which every item takes every position, and follows every other item, equally often. */
module BalancedOrders {
  import opened Remainders

  /** The zigzag 0, 1, n - 1, 2, n - 2, ... */
  function First(n: nat, position: nat): (r: nat)
    requires position < n
    ensures r < n
  {
    if position == 0 then 0
    else if position % 2 == 1 then (position + 1) / 2
    else n - position / 2
  }

  function Row(n: nat, shift: nat): (row: seq<nat>)
    ensures |row| == n
    ensures forall p :: 0 <= p < n ==> row[p] == (First(n, p) + shift) % n
  {
    seq(n, p requires 0 <= p < n => (First(n, p) + shift) % n)
  }

  function Reversed(row: seq<nat>): (r: seq<nat>)
    ensures |r| == |row| && forall p :: 0 <= p < |row| ==> r[p] == row[|row| - 1 - p]
  {
    seq(|row|, p requires 0 <= p < |row| => row[|row| - 1 - p])
  }

  function Rotations(n: nat): (orders: seq<seq<nat>>)
    ensures |orders| == n
  {
    seq(n, shift requires 0 <= shift < n => Row(n, shift))
  }

  function Backwards(orders: seq<seq<nat>>): (r: seq<seq<nat>>)
    ensures |r| == |orders|
  {
    seq(|orders|, i requires 0 <= i < |orders| => Reversed(orders[i]))
  }

  /** Every rotation of the zigzag, then every rotation backwards. */
  function Orders(n: nat): (orders: seq<seq<nat>>)
    ensures |orders| == 2 * n
    ensures forall r :: 0 <= r < 2 * n ==> |orders[r]| == n
    ensures forall r :: 0 <= r < n ==> orders[r] == Row(n, r)
    ensures forall r :: n <= r < 2 * n ==> orders[r] == Reversed(Row(n, r - n))
  {
    hide Row, Reversed;
    var forward := Rotations(n);
    forward + Backwards(forward)
  }

  // ---------------------------------------------------------------- remainders

  /** Remainder for arguments below `2 * n`. */
  function Wrapped(x: nat, n: nat): nat { if x < n then x else x - n }

  lemma SmallRemainder(x: nat, n: nat)
    requires x < 2 * n
    ensures x % n == Wrapped(x, n)
  {
    RemainderUnique(n, if x < n then 0 else 1, Wrapped(x, n));
  }

  lemma RemainderOfSum(base: nat, j: nat, m: nat)
    requires 0 < m && j < m
    ensures (base + j) % m == Wrapped(base % m + j, m)
  {
    var y := Wrapped(base % m + j, m);
    var k := base / m + (if base % m + j < m then 0 else 1);
    assert base == m * (base / m) + base % m;
    assert m * k == m * (base / m) + (if base % m + j < m then 0 else m);
    RemainderUnique(m, k, y);
  }

  // ---------------------------------------------------------------- rows and columns

  lemma RowAt(n: nat, shift: nat, p: nat)
    requires shift < n && p < n
    ensures Row(n, shift)[p] == Wrapped(First(n, p) + shift, n) < n
  {
    SmallRemainder(First(n, p) + shift, n);
  }

  /** Where an item stands in the zigzag. */
  function Place(n: nat, item: nat): nat
    requires item < n
  {
    if item == 0 then 0 else if 2 * item - 1 < n then 2 * item - 1 else 2 * (n - item)
  }

  lemma PlaceInvertsFirst(n: nat, k: nat)
    requires k < n
    ensures Place(n, k) < n && First(n, Place(n, k)) == k
    ensures Place(n, First(n, k)) == k
  {
  }

  /** What must be added to `x` to arrive at `y`, going around. */
  function Distance(n: nat, x: nat, y: nat): nat
    requires x < n && y < n
  {
    if x <= y then y - x else y + n - x
  }

  lemma DistanceIsUnique(n: nat, x: nat, y: nat, d: nat)
    requires x < n && y < n && d < n
    ensures Distance(n, x, y) < n
    ensures Wrapped(x + d, n) == y <==> d == Distance(n, x, y)
  {
  }

  /** The rotation, or the position, at which an item stands is given by the other one. */
  lemma WhereItemStands(n: nat, shift: nat, p: nat, item: nat)
    requires shift < n && p < n && item < n
    ensures Distance(n, First(n, p), item) < n && Distance(n, shift, item) < n
    ensures Row(n, shift)[p] == item <==> shift == Distance(n, First(n, p), item)
    ensures Row(n, shift)[p] == item <==> p == Place(n, Distance(n, shift, item))
    ensures Place(n, Distance(n, shift, item)) < n
    ensures Row(n, shift)[p] < n
  {
    hide First, Row, Place, Distance, Wrapped;
    RowAt(n, shift, p);
    DistanceIsUnique(n, First(n, p), item, shift);
    DistanceIsUnique(n, shift, item, First(n, p));
    PlaceInvertsFirst(n, p);
    PlaceInvertsFirst(n, Distance(n, shift, item));
  }

  /** Each row is a permutation: it holds every item, each at one position only. */
  lemma RowsArePermutations(n: nat, r: nat, item: nat)
    requires r < 2 * n && item < n
    ensures exists p :: 0 <= p < n && Orders(n)[r][p] == item
    ensures forall p, q :: 0 <= p < n && 0 <= q < n && Orders(n)[r][p] == item && Orders(n)[r][q] == item ==> p == q
    ensures forall p :: 0 <= p < n ==> Orders(n)[r][p] < n
  {
    hide First, Row, Place, Distance, Wrapped, Orders;
    var shift := if r < n then r else r - n;
    var row, order := Row(n, shift), Orders(n)[r];
    WhereItemStands(n, shift, 0, item);
    var place := Place(n, Distance(n, shift, item));
    forall p | 0 <= p < n
      ensures row[p] < n && (row[p] == item <==> p == place)
    {
      WhereItemStands(n, shift, p, item);
    }
    assert order[if r < n then place else n - 1 - place] == item;
  }

  /** At each position, each item stands in exactly one of the rotations and in one of the backward rows. */
  lemma ColumnsAreBalanced(n: nat, p: nat, item: nat, r: nat)
    requires p < n && item < n && r < 2 * n
    ensures Orders(n)[r][p] == item <==>
              r == Distance(n, First(n, p), item) || r == n + Distance(n, First(n, n - 1 - p), item)
    ensures Distance(n, First(n, p), item) < n && Distance(n, First(n, n - 1 - p), item) < n
  {
    hide First, Row, Place, Distance, Wrapped, Orders;
    WhereItemStands(n, 0, p, item);
    WhereItemStands(n, 0, n - 1 - p, item);
    if r < n {
      WhereItemStands(n, r, p, item);
    } else {
      WhereItemStands(n, r - n, n - 1 - p, item);
    }
  }

  // ---------------------------------------------------------------- neighbours

  /** How far apart neighbours are in the zigzag. */
  function Step(n: nat, p: nat): nat
    requires p + 1 < n
  {
    if p % 2 == 0 then p + 1 else n - 1 - p
  }

  /** In every rotation, neighbours at `p` are the same distance apart. */
  lemma NeighboursAt(n: nat, shift: nat, p: nat)
    requires shift < n && p + 1 < n
    ensures Row(n, shift)[p] < n && Row(n, shift)[p + 1] < n
    ensures Distance(n, Row(n, shift)[p], Row(n, shift)[p + 1]) == Step(n, p)
  {
    hide Row;
    RowAt(n, shift, p);
    RowAt(n, shift, p + 1);
  }

  /**
   * Order `r` starts with item `r` and goes back and forth from it, one item further at every step; the orders
   * after the first `n` are the same ones backwards.
   */
  lemma OrdersZigzag(n: nat, r: nat, p: nat)
    requires r < n && p < n
    ensures Orders(n)[r][0] == r && Orders(n)[n + r][p] == Orders(n)[r][n - 1 - p]
    ensures p + 1 < n ==>
              Orders(n)[r][p + 1] == (Orders(n)[r][p] + (if p % 2 == 0 then p + 1 else n - (p + 1))) % n
  {
    hide Row, Distance, First;
    OrderRows(n, r, p);
    if p + 1 < n {
      NeighboursAt(n, r, p);
      OneStep(n, Row(n, r)[p], Row(n, r)[p + 1], Step(n, p));
    }
  }

  lemma OrderRows(n: nat, r: nat, p: nat)
    requires r < n && p < n
    ensures Orders(n)[r] == Row(n, r) && Row(n, r)[0] == r
    ensures Orders(n)[n + r][p] == Row(n, r)[n - 1 - p]
  {
    hide Row;
    RowAt(n, r, 0);
  }

  lemma OneStep(n: nat, x: nat, y: nat, d: nat)
    requires x < n && y < n && d < n && Distance(n, x, y) == d
    ensures y == (x + d) % n
  {
    hide Distance;
    DistanceIsUnique(n, x, y, d);
    SmallRemainder(x + d, n);
  }

  /** `a` is directly before `b` at position `p` of row `r`. */
  predicate Adjacent(n: nat, r: nat, p: nat, a: nat, b: nat)
    requires r < 2 * n && p + 1 < n
  {
    Orders(n)[r][p] == a && Orders(n)[r][p + 1] == b
  }

  /** The rotation in which `a` stands at `p`; `b` follows there exactly when it is one step away. */
  lemma AdjacentInRotation(n: nat, shift: nat, p: nat, a: nat, b: nat)
    requires shift < n && p + 1 < n && a < n && b < n
    ensures Row(n, shift)[p] == a && Row(n, shift)[p + 1] == b <==>
              shift == Distance(n, First(n, p), a) && Step(n, p) == Distance(n, a, b)
  {
    hide First, Row, Step;
    WhereItemStands(n, shift, p, a);
    NeighboursAt(n, shift, p);
    WhereItemStands(n, shift, p + 1, b);
  }

  /** The same for the backward rows, where the pair stands the other way round in the rotation. */
  lemma AdjacentBackwards(n: nat, shift: nat, p: nat, a: nat, b: nat)
    requires shift < n && p + 1 < n && a < n && b < n
    ensures var q := n - 2 - p;
            Adjacent(n, n + shift, p, a, b) <==>
              shift == Distance(n, First(n, q), b) && Step(n, q) == Distance(n, b, a)
  {
    hide First, Step, Distance;
    AdjacentInRotation(n, shift, n - 2 - p, b, a);
  }

  /** A row and a position in it. */
  datatype Spot = Spot(row: nat, position: nat)

  /** The neighbours at `q` of some rotation, read forwards or backwards, when they are `a` and `b`. */
  function SpotAt(n: nat, a: nat, b: nat, q: nat, forwards: bool): Spot
    requires a < n && b < n && q + 1 < n
  {
    if forwards then Spot(Distance(n, First(n, q), a), q) else Spot(n + Distance(n, First(n, q), b), n - 2 - q)
  }

  function FirstSpot(n: nat, a: nat, b: nat): Spot
    requires a < n && b < n && a != b
  {
    var d := Distance(n, a, b);
    SpotAt(n, a, b, d - 1, d % 2 == 1)
  }

  function SecondSpot(n: nat, a: nat, b: nat): Spot
    requires a < n && b < n && a != b
  {
    var d := Distance(n, a, b);
    SpotAt(n, a, b, n - 1 - d, (n - d) % 2 == 0)
  }

  lemma StepPositions(n: nat, d: nat, p: nat)
    requires 0 < d < n && p + 1 < n
    ensures Step(n, p) == d <==> (d % 2 == 1 && p == d - 1) || ((n - d) % 2 == 0 && p == n - 1 - d)
    ensures Step(n, p) == n - d <==> ((n - d) % 2 == 1 && p == n - 1 - d) || (d % 2 == 0 && p == d - 1)
  {
  }

  /** Over all rows, every ordered pair stands together in exactly two spots. */
  lemma PairsAreBalanced(n: nat, a: nat, b: nat, r: nat, p: nat)
    requires a < n && b < n && a != b && r < 2 * n && p + 1 < n
    ensures Adjacent(n, r, p, a, b) <==> Spot(r, p) == FirstSpot(n, a, b) || Spot(r, p) == SecondSpot(n, a, b)
  {
    hide First, Step, Adjacent, Orders;
    var d := Distance(n, a, b);
    assert Distance(n, b, a) == n - d;
    if r < n {
      assert Adjacent(n, r, p, a, b) <==> r == Distance(n, First(n, p), a) && Step(n, p) == d by {
        AdjacentForwards(n, r, p, a, b);
      }
      StepPositions(n, d, p);
    } else {
      AdjacentBackwards(n, r - n, p, a, b);
      StepPositions(n, d, n - 2 - p);
    }
  }

  lemma AdjacentForwards(n: nat, shift: nat, p: nat, a: nat, b: nat)
    requires shift < n && p + 1 < n && a < n && b < n
    ensures Adjacent(n, shift, p, a, b) <==> shift == Distance(n, First(n, p), a) && Step(n, p) == Distance(n, a, b)
  {
    hide First, Step, Distance;
    AdjacentInRotation(n, shift, p, a, b);
  }

  /** The two spots are different and exist. */
  lemma SpotsDiffer(n: nat, a: nat, b: nat)
    requires a < n && b < n && a != b
    ensures FirstSpot(n, a, b) != SecondSpot(n, a, b)
    ensures FirstSpot(n, a, b).row < 2 * n && FirstSpot(n, a, b).position + 1 < n
    ensures SecondSpot(n, a, b).row < 2 * n && SecondSpot(n, a, b).position + 1 < n
  {
    hide First;
  }

  // ---------------------------------------------------------------- repetitions

  /** The order that a repetition of a case uses. */
  function OrderIndex(n: nat, repetition: nat, index: nat): (o: nat)
    requires n > 0
    ensures o < 2 * n
  {
    (repetition + index) % (2 * n)
  }

  /** The next repetition of a case uses the next order, and so does the next case in the same repetition. */
  lemma NextOrder(n: nat, repetition: nat, index: nat)
    requires n > 0
    ensures OrderIndex(n, 0, 0) == 0
    ensures OrderIndex(n, repetition + 1, index) == OrderIndex(n, repetition, index + 1)
    ensures OrderIndex(n, repetition + 1, index)
         == if OrderIndex(n, repetition, index) == 2 * n - 1 then 0 else OrderIndex(n, repetition, index) + 1
  {
    RemainderOfSum(repetition + index, 1, 2 * n);
  }

  /** The repetition in a cycle that starts at `base` and uses order `o`. */
  function RepetitionOf(n: nat, base: nat, index: nat, o: nat): nat
    requires n > 0 && o < 2 * n
  {
    base + Distance(2 * n, OrderIndex(n, base, index), o)
  }

  /** Any 2n consecutive repetitions use each order exactly once. */
  lemma EachOrderOnce(n: nat, base: nat, index: nat, o: nat, repetition: nat)
    requires n > 0 && o < 2 * n && base <= repetition < base + 2 * n
    ensures base <= RepetitionOf(n, base, index, o) < base + 2 * n
    ensures OrderIndex(n, repetition, index) == o <==> repetition == RepetitionOf(n, base, index, o)
  {
    hide Distance, Wrapped;
    RemainderOfSum(base + index, repetition - base, 2 * n);
    DistanceIsUnique(2 * n, OrderIndex(n, base, index), o, repetition - base);
  }

  /** The repetition and position of each time that `b` runs directly after `a`. */
  function Following(n: nat, base: nat, index: nat, a: nat, b: nat): set<Spot>
    requires n > 0
  {
    set repetition: nat, p: nat |
      base <= repetition < base + 2 * n && 0 <= p < n - 1 && Adjacent(n, OrderIndex(n, repetition, index), p, a, b) ::
      Spot(repetition, p)
  }

  /** In any 2n consecutive repetitions of a case, every item directly follows every other exactly twice. */
  lemma EveryCycleIsBalanced(n: nat, base: nat, index: nat, a: nat, b: nat)
    requires a < n && b < n && a != b
    ensures |Following(n, base, index, a, b)| == 2
  {
    hide First, Distance, Adjacent, Orders, FirstSpot, SecondSpot, OrderIndex, RepetitionOf;
    SpotsDiffer(n, a, b);
    var x, y := FirstSpot(n, a, b), SecondSpot(n, a, b);
    var s := Spot(RepetitionOf(n, base, index, x.row), x.position);
    var t := Spot(RepetitionOf(n, base, index, y.row), y.position);
    EachOrderOnce(n, base, index, x.row, base);
    EachOrderOnce(n, base, index, y.row, base);
    EachOrderOnce(n, base, index, x.row, s.row);
    EachOrderOnce(n, base, index, y.row, t.row);
    assert s != t;
    forall repetition: nat, p: nat | base <= repetition < base + 2 * n && p < n - 1
      ensures Adjacent(n, OrderIndex(n, repetition, index), p, a, b) <==> Spot(repetition, p) in {s, t}
    {
      EachOrderOnce(n, base, index, x.row, repetition);
      EachOrderOnce(n, base, index, y.row, repetition);
      PairsAreBalanced(n, a, b, OrderIndex(n, repetition, index), p);
    }
    assert Following(n, base, index, a, b) == {s, t};
  }

  /** The repetitions in which an item runs at position `p`. */
  function RunningAt(n: nat, base: nat, index: nat, p: nat, item: nat): set<nat>
    requires p < n
  {
    set repetition: nat | base <= repetition < base + 2 * n && Orders(n)[OrderIndex(n, repetition, index)][p] == item
  }

  /** In any 2n consecutive repetitions, every item runs at every position exactly twice. */
  lemma EveryCycleRotates(n: nat, base: nat, index: nat, p: nat, item: nat)
    requires p < n && item < n
    ensures |RunningAt(n, base, index, p, item)| == 2
  {
    hide First, Distance, Orders, OrderIndex, RepetitionOf;
    ColumnsAreBalanced(n, p, item, 0);
    var x, y := Distance(n, First(n, p), item), n + Distance(n, First(n, n - 1 - p), item);
    var s, t := RepetitionOf(n, base, index, x), RepetitionOf(n, base, index, y);
    EachOrderOnce(n, base, index, x, base);
    EachOrderOnce(n, base, index, y, base);
    EachOrderOnce(n, base, index, x, s);
    EachOrderOnce(n, base, index, y, t);
    assert s != t;
    forall repetition: nat | base <= repetition < base + 2 * n
      ensures Orders(n)[OrderIndex(n, repetition, index)][p] == item <==> repetition in {s, t}
    {
      EachOrderOnce(n, base, index, x, repetition);
      EachOrderOnce(n, base, index, y, repetition);
      ColumnsAreBalanced(n, p, item, OrderIndex(n, repetition, index));
    }
    assert RunningAt(n, base, index, p, item) == {s, t};
  }
}
