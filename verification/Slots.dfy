/** The ring of 32 event times, with its bit mask and cached minimum. */
module Slots {
  import opened Options
  import opened Sets
  import opened Times

  const SLOTS: nat := 32
  const NO_INDEX: nat := 0xffff_ffff_ffff_ffff

  /** The range whose event a slot holds, for the window starting at `front`. */
  function IndexAt(slot: nat, front: nat): nat {
    front + (slot + SLOTS - front % SLOTS) % SLOTS
  }

  lemma IndexAtSlot(index: nat, front: nat)
    requires front <= index < front + SLOTS
    ensures IndexAt(index % SLOTS, front) == index
  {
  }

  /** The lexicographic minimum of (time, index), or the infinite pair when there is no event. */
  ghost function Minimum(contents: seq<Time>): (Time, nat) {
    if Empty(contents) then (Never, NO_INDEX)
    else (contents[Earliest(contents)], Earliest(contents))
  }

  /** `(at, index) < known` for pairs compared lexicographically. */
  predicate Precedes(at: real, index: nat, known: (Time, nat)) {
    known.0.Never? || at < known.0.t || (at == known.0.t && index < known.1)
  }

  lemma SlotOfIndex(slot: nat, front: nat)
    requires slot < SLOTS
    ensures front <= IndexAt(slot, front) < front + SLOTS
    ensures IndexAt(slot, front) % SLOTS == slot
  {
  }

  /** The least set bit of `mask` rotated right by `front`, rotated back. */
  method FirstSlot(mask: set<int>, front: nat) returns (slot: nat)
    requires exists s :: 0 <= s < SLOTS && s in mask
    ensures slot < SLOTS && slot in mask
    ensures forall s :: 0 <= s < SLOTS && s in mask ==> IndexAt(slot, front) <= IndexAt(s, front)
  {
    hide IndexAt;
    var zeros: nat := 0;
    ghost var found: nat :| found < SLOTS && found in mask;
    forall s: nat | s < SLOTS
      ensures front <= IndexAt(s, front) < front + SLOTS && IndexAt(s, front) % SLOTS == s
    {
      SlotOfIndex(s, front);
    }
    while (front + zeros) % SLOTS !in mask
      invariant forall s: nat :: s < SLOTS && s in mask ==> front + zeros <= IndexAt(s, front)
      decreases front + SLOTS - zeros
    {
      assert front + zeros <= IndexAt(found, front);
      zeros := zeros + 1;
    }
    assert front + zeros <= IndexAt(found, front);
    slot := (front + zeros) % SLOTS;
    IndexAtSlot(front + zeros, front);
  }

  /** Least time over all slots; equal times prefer the earlier range of the window. */
  method MinimumScalar(values: array<Time>, front: nat) returns (least: Time, slot: nat)
    requires values.Length == SLOTS
    ensures slot < SLOTS && values[slot] == least
    ensures forall s :: 0 <= s < SLOTS ==> Leq(least, values[s])
    ensures forall s :: 0 <= s < SLOTS && values[s] == least ==> IndexAt(slot, front) <= IndexAt(s, front)
  {
    least := Never;
    var mask: set<int> := {};
    for s := 0 to SLOTS
      invariant forall k :: 0 <= k < s ==> Leq(least, values[k])
      invariant forall k :: k in mask <==> 0 <= k < s && values[k] == least
      invariant s > 0 ==> exists k :: 0 <= k < s && k in mask
      invariant s == 0 ==> least == Never
    {
      var at := values[s];
      if at.At? && (least.Never? || at.t < least.t) {
        least := at;
        mask := {s};
      } else if at == least {
        mask := mask + {s};
      }
    }
    slot := FirstSlot(mask, front);
  }

  class EventSlots {
    const values: array<Time>
    var best: Option<(Time, nat)>
    var mask: set<int>
    /** The held event times by range index. */
    ghost var Contents: seq<Time>
    /** The range that occupies each slot of the mask. */
    ghost var owner: seq<nat>

    ghost predicate Valid()
      reads this, values
    {
      && values.Length == SLOTS == |owner|
      && (forall s :: s in mask ==> 0 <= s < SLOTS)
      && (forall s :: 0 <= s < SLOTS ==> SlotValid(s))
      && (forall i :: 0 <= i < |Contents| && Contents[i].At? ==> i % SLOTS in mask && owner[i % SLOTS] == i)
      && (best.Some? ==> best.value == Minimum(Contents))
    }

    ghost predicate SlotValid(s: nat)
      requires s < SLOTS == values.Length == |owner|
      reads `mask, `owner, `Contents, values
    {
      && (s in mask <==> values[s].At?)
      && (s in mask ==> owner[s] < |Contents| && owner[s] % SLOTS == s && Contents[owner[s]] == values[s])
    }

    /** Every held event belongs to a range of the window. */
    ghost predicate Within(front: nat)
      reads this
    {
      forall i :: 0 <= i < |Contents| && Contents[i].At? ==> front <= i < front + SLOTS
    }

    constructor (n: nat)
      ensures Valid() && fresh(values)
      ensures Contents == seq(n, _ => Never)
      ensures mask == {}
    {
      values := new Time[SLOTS](_ => Never);
      best := Some((Never, NO_INDEX));
      mask := {};
      Contents := seq(n, _ => Never);
      owner := seq(SLOTS, _ => 0);
    }

    method Push(at: real, index: nat)
      requires Valid() && at >= 0.0
      requires index < |Contents| && index % SLOTS !in mask
      modifies this, values
      ensures Valid()
      ensures Contents == old(Contents)[index := At(at)]
      ensures mask == old(mask) + {index % SLOTS}
    {
      var slot := index % SLOTS;
      values[slot] := At(at);
      if best.Some? && Precedes(at, index, best.value) {
        best := Some((At(at), index));
      }
      mask := mask + {slot};
      PushMinimum(Contents, at, index);
      Contents := Contents[index := At(at)];
      owner := owner[slot := index];
      forall s | 0 <= s < SLOTS
        ensures SlotValid(s)
      {
        assert old(SlotValid(s));
      }
    }

    method Take(index: nat)
      requires Valid() && index < |Contents| && Contents[index].At?
      modifies this, values
      ensures Valid()
      ensures Contents == old(Contents)[index := Never]
      ensures mask == old(mask) - {index % SLOTS}
    {
      var slot := index % SLOTS;
      values[slot] := Never;
      best := None;
      mask := mask - {slot};
      Contents := Contents[index := Never];
      forall s | 0 <= s < SLOTS
        ensures SlotValid(s)
      {
        assert old(SlotValid(s));
      }
    }

    method Peek(front: nat) returns (known: (Time, nat))
      requires Valid() && Within(front)
      modifies `best
      ensures Valid()
      ensures known == Minimum(Contents)
    {
      if mask == {} {
        best := Some((Never, NO_INDEX));
      }
      if best.Some? {
        return best.value;
      }
      var at, slot := MinimumScalar(values, front);
      PeekMinimum(front, at, slot);
      known := (at, IndexAt(slot, front));
      best := Some(known);
    }

    lemma PeekMinimum(front: nat, at: Time, slot: nat)
      requires Valid() && Within(front) && mask != {}
      requires slot < SLOTS && values[slot] == at
      requires forall s :: 0 <= s < SLOTS ==> Leq(at, values[s])
      requires forall s :: 0 <= s < SLOTS && values[s] == at ==> IndexAt(slot, front) <= IndexAt(s, front)
      ensures Minimum(Contents) == (at, IndexAt(slot, front))
    {
      SomeMember(mask);
      var s :| s in mask;
      assert SlotValid(s) && SlotValid(slot);
      var i := owner[slot];
      IndexAtSlot(i, front);
      forall j | 0 <= j < |Contents| && Contents[j].At?
        ensures at.t < Contents[j].t || (at == Contents[j] && i <= j)
      {
        assert SlotValid(j % SLOTS);
        IndexAtSlot(j, front);
      }
      EarliestUnique(Contents, i, Earliest(Contents));
    }
  }

  lemma PushMinimum(contents: seq<Time>, at: real, index: nat)
    requires index < |contents| && contents[index].Never?
    ensures Minimum(contents[index := At(at)])
         == if Precedes(at, index, Minimum(contents)) then (At(at), index) else Minimum(contents)
  {
    var after := contents[index := At(at)];
    var best := if Precedes(at, index, Minimum(contents)) then index else Earliest(contents);
    assert forall j :: 0 <= j < |after| && j != index ==> after[j] == contents[j];
    assert IsEarliest(after, best);
    EarliestUnique(after, best, Earliest(after));
  }
}
