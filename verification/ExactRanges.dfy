/** The ranges found in a page are exactly the bytes of its selected rows. */
module ExactRanges {
  import opened Bytes
  import opened PageValues
  import opened Spans

  predicate Ascending(selected: seq<nat>) {
    forall i, j :: 0 <= i < j < |selected| ==> selected[i] < selected[j]
  }

  // ---------------------------------------------------------------- where rows lie

  /** The value length of a row, found by counting the valid rows before it. */
  function RowLength(s: Structure, row: nat): int
    requires row < |s.valid| && |s.lengths| == Trues(s.valid)
  {
    if s.valid[row] then
      LengthIndex(s, row);
      s.lengths[Trues(s.valid[..row])]
    else 0
  }

  lemma LengthIndex(s: Structure, row: nat)
    requires row < |s.valid| && s.valid[row] && |s.lengths| == Trues(s.valid)
    ensures Trues(s.valid[..row]) < |s.lengths|
  {
    TruesUpTo(s.valid, row, |s.valid|);
  }

  lemma {:induction false} TruesUpTo(flags: seq<bool>, row: nat, k: nat)
    requires row < k <= |flags|
    ensures Trues(flags[..row]) + (if flags[row] then 1 else 0) <= Trues(flags[..k])
    ensures flags[..|flags|] == flags
  {
    assert flags[..k][..k - 1] == flags[..k - 1];
    if row < k - 1 {
      TruesUpTo(flags, row, k - 1);
    }
  }

  /** Where a row's value starts: the payload's start plus the lengths of all rows before it. */
  function RowStart(s: Structure, row: nat): int
    requires row <= |s.valid| && |s.lengths| == Trues(s.valid)
  {
    if row == 0 then s.payloadStart else RowStart(s, row - 1) + RowLength(s, row - 1)
  }

  /** Byte `b` belongs to the value of `row`. */
  predicate InRow(s: Structure, row: nat, b: int)
    requires row < |s.valid| && |s.lengths| == Trues(s.valid)
  {
    RowStart(s, row) <= b < RowStart(s, row + 1)
  }

  /** Byte `b` belongs to a selected row among the first `k`. */
  ghost predicate Wanted(s: Structure, selected: seq<nat>, k: nat, b: int)
    requires k <= |s.valid| && |s.lengths| == Trues(s.valid)
  {
    exists row :: 0 <= row < k && row in selected && InRow(s, row, b)
  }

  // ---------------------------------------------------------------- the loop's invariant

  ghost predicate Placed(s: Structure, selected: seq<nat>, k: nat, p: Placement)
    requires k <= |s.valid| && |s.lengths| == Trues(s.valid)
  {
    && p.nextLength == Trues(s.valid[..k])
    && p.offset == RowStart(s, k)
    && (forall row :: 0 <= row < k ==> RowLength(s, row) >= 0)
    && Separated(p.spans, s.payloadStart, p.offset)
    && (forall b :: Covered(p.spans, b) <==> Wanted(s, selected, k, b))
    && p.nextSelected <= |selected|
    && (forall i :: 0 <= i < p.nextSelected ==> selected[i] < k)
    && (forall i :: p.nextSelected <= i < |selected| ==> selected[i] >= k)
  }

  lemma WantedNext(s: Structure, selected: seq<nat>, k: nat, b: int)
    requires k < |s.valid| && |s.lengths| == Trues(s.valid)
    ensures Wanted(s, selected, k + 1, b) <==> Wanted(s, selected, k, b) || (k in selected && InRow(s, k, b))
  {
    if Wanted(s, selected, k, b) {
      var row :| 0 <= row < k && row in selected && InRow(s, row, b);
      assert 0 <= row < k + 1;
    }
  }

  lemma CoveredAdded(spans: seq<Span>, start: nat, end: nat, low: nat, b: int)
    requires Separated(spans, low, start) && start <= end && AddSpan(spans, start, end).Ok?
    ensures Covered(AddSpan(spans, start, end).value, b) <==> Covered(spans, b) || start <= b < end
  {
    var added := AddSpan(spans, start, end).value;
    if Covered(spans, b) {
      var i :| 0 <= i < |spans| && spans[i].start <= b < spans[i].end;
      assert added[i].start <= b < added[i].end;
    }
    if start <= b < end {
      assert added[|added| - 1].start <= b < added[|added| - 1].end;
    }
    if Covered(added, b) {
      var i :| 0 <= i < |added| && added[i].start <= b < added[i].end;
      assert i < |spans| && spans[i] == added[i] ==> spans[i].start <= b < spans[i].end;
      if !(start <= b < end) {
        assert i < |spans|;
        assert spans[i].start <= b < spans[i].end;
      }
    }
  }

  lemma SeparatedAdded(spans: seq<Span>, start: nat, end: nat, low: nat)
    requires Separated(spans, low, start) && low <= start <= end && AddSpan(spans, start, end).Ok?
    ensures Separated(AddSpan(spans, start, end).value, low, end)
  {
  }

  lemma NextIsSelected(selected: seq<nat>, next: nat, k: nat)
    requires Ascending(selected) && next <= |selected|
    requires forall i :: 0 <= i < next ==> selected[i] < k
    requires forall i :: next <= i < |selected| ==> selected[i] >= k
    ensures k in selected <==> next < |selected| && selected[next] == k
    ensures next < |selected| && selected[next] == k ==> forall i :: next < i < |selected| ==> selected[i] > k
  {
  }

  lemma PlaceRowCovers(s: Structure, pageBytes: nat, selected: seq<nat>, k: nat, p: Placement, b: int)
    requires k < |s.valid| && |s.lengths| == Trues(s.valid) && Ascending(selected)
    requires Placed(s, selected, k, p) && s.payloadStart <= p.offset
    requires PlaceRow(s, pageBytes, selected, k, p).Ok?
    requires RowStart(s, k + 1) == PlaceRow(s, pageBytes, selected, k, p).value.offset
    ensures Covered(PlaceRow(s, pageBytes, selected, k, p).value.spans, b) <==> Wanted(s, selected, k + 1, b)
  {
    hide Covered, Wanted, Separated, AddSpan, Trues, RowLength, Ascending;
    var q := PlaceRow(s, pageBytes, selected, k, p).value;
    NextIsSelected(selected, p.nextSelected, k);
    WantedNext(s, selected, k, b);
    if k in selected {
      CoveredAdded(p.spans, p.offset, q.offset, s.payloadStart, b);
    }
  }

  lemma PlaceRowKeeps(s: Structure, pageBytes: nat, selected: seq<nat>, k: nat, p: Placement)
    requires k < |s.valid| && |s.lengths| == Trues(s.valid) && Ascending(selected)
    requires Placed(s, selected, k, p) && s.payloadStart <= p.offset
    requires PlaceRow(s, pageBytes, selected, k, p).Ok?
    ensures Placed(s, selected, k + 1, PlaceRow(s, pageBytes, selected, k, p).value)
  {
    hide Covered, Wanted, Separated, AddSpan, Ascending, InRow;
    var q := PlaceRow(s, pageBytes, selected, k, p).value;
    assert s.valid[..k + 1][..k] == s.valid[..k];
    NextIsSelected(selected, p.nextSelected, k);
    assert RowStart(s, k + 1) == q.offset;
    forall b
      ensures Covered(q.spans, b) <==> Wanted(s, selected, k + 1, b)
    {
      PlaceRowCovers(s, pageBytes, selected, k, p, b);
    }
    if k in selected {
      SeparatedAdded(p.spans, p.offset, q.offset, s.payloadStart);
    } else {
      SeparatedWider(p.spans, s.payloadStart, p.offset, q.offset);
    }
  }

  lemma SeparatedWider(spans: seq<Span>, low: nat, high: nat, higher: nat)
    requires Separated(spans, low, high) && high <= higher
    ensures Separated(spans, low, higher)
  {
  }

  lemma {:induction false} PlaceUpToKeeps(s: Structure, pageBytes: nat, selected: seq<nat>, k: nat)
    requires k <= |s.valid| && |s.lengths| == Trues(s.valid) && Ascending(selected)
    ensures var placed := PlaceUpTo(s, pageBytes, selected, k);
            placed.Ok? ==> Placed(s, selected, k, placed.value) && s.payloadStart <= placed.value.offset
    ensures PlaceUpTo(s, pageBytes, selected, k).Ok? && k > 0 ==> RowStart(s, k) <= pageBytes
  {
    hide PlaceRow, Covered, Separated, InRow;
    if k == 0 {
      NothingPlaced(s, selected);
    } else {
      PlaceUpToKeeps(s, pageBytes, selected, k - 1);
      var before := PlaceUpTo(s, pageBytes, selected, k - 1);
      if before.Ok? && PlaceRow(s, pageBytes, selected, k - 1, before.value).Ok? {
        PlaceRowKeeps(s, pageBytes, selected, k - 1, before.value);
        PlaceRowBounds(s, pageBytes, selected, k - 1, before.value);
      }
    }
  }

  lemma PlaceRowBounds(s: Structure, pageBytes: nat, selected: seq<nat>, k: nat, p: Placement)
    requires k < |s.valid| && PlaceRow(s, pageBytes, selected, k, p).Ok?
    ensures p.offset <= PlaceRow(s, pageBytes, selected, k, p).value.offset <= pageBytes
  {
  }

  lemma NothingPlaced(s: Structure, selected: seq<nat>)
    requires |s.lengths| == Trues(s.valid)
    ensures Placed(s, selected, 0, Placement(s.payloadStart, [], 0, 0))
  {
    assert forall b :: !Wanted(s, selected, 0, b);
  }

  /**
   * On success the ranges are in order, apart, inside the payload, and cover exactly the
   * bytes of the selected rows; all lengths are non-negative and end at the page's end.
   */
  lemma RangesAreExact(s: Structure, pageBytes: nat, selected: seq<nat>, payload: Payload)
    requires |s.lengths| == Trues(s.valid) && Ascending(selected)
    requires PlaceRows(s, pageBytes, selected) == Ok(payload)
    ensures payload.start == s.payloadStart <= pageBytes
    ensures forall row :: 0 <= row < |s.valid| ==> RowLength(s, row) >= 0
    ensures RowStart(s, |s.valid|) == pageBytes
    ensures Separated(payload.spans, payload.start, pageBytes)
    ensures forall b :: Covered(payload.spans, b) <==> Wanted(s, selected, |s.valid|, b)
  {
    PlaceUpToKeeps(s, pageBytes, selected, |s.valid|);
  }

  // ---------------------------------------------------------------- how many ranges there are

  /** Selected rows with bytes whose preceding byte is not wanted: each of them starts a range of its own. */
  ghost function Stretches(s: Structure, selected: seq<nat>, k: nat): nat
    requires k <= |s.valid| && |s.lengths| == Trues(s.valid)
  {
    if k == 0 then 0
    else
      Stretches(s, selected, k - 1)
      + (if k - 1 in selected && RowLength(s, k - 1) > 0 && !Wanted(s, selected, k - 1, RowStart(s, k - 1) - 1) then 1 else 0)
  }

  lemma {:induction false} StretchesGrow(s: Structure, selected: seq<nat>, j: nat, k: nat)
    requires j <= k <= |s.valid| && |s.lengths| == Trues(s.valid)
    ensures Stretches(s, selected, j) <= Stretches(s, selected, k)
  {
    if j < k {
      StretchesGrow(s, selected, j, k - 1);
    }
  }

  /** A range can be joined to the last one exactly when the byte before it is covered. */
  lemma JoinsLast(spans: seq<Span>, low: nat, start: nat)
    requires Separated(spans, low, start)
    ensures spans != [] && spans[|spans| - 1].end == start <==> Covered(spans, start - 1)
  {
    if spans != [] {
      var last := spans[|spans| - 1];
      assert forall i :: 0 <= i < |spans| - 1 ==> spans[i].end < last.start;
    }
    if spans != [] && spans[|spans| - 1].end == start {
      assert spans[|spans| - 1].start <= start - 1 < spans[|spans| - 1].end;
    }
  }

  /** One more row: whether it starts a range, and whether there is room for it. */
  lemma PlaceRowCounts(s: Structure, pageBytes: nat, selected: seq<nat>, k: nat, p: Placement)
    requires k < |s.valid| && |s.lengths| == Trues(s.valid) && Ascending(selected)
    requires Placed(s, selected, k, p) && s.payloadStart <= p.offset && |p.spans| == Stretches(s, selected, k) <= 8192
    requires RowLength(s, k) >= 0 && RowStart(s, k + 1) <= pageBytes
    ensures var placed := PlaceRow(s, pageBytes, selected, k, p);
            && (placed.Ok? <==> Stretches(s, selected, k + 1) <= 8192)
            && (placed.Ok? ==> |placed.value.spans| == Stretches(s, selected, k + 1))
            && (placed.Err? ==> placed.error == Fallback(SelectedRanges))
  {
    hide Wanted, Separated, Covered, InRow;
    NextIsSelected(selected, p.nextSelected, k);
    JoinsLast(p.spans, s.payloadStart, p.offset);
    if s.valid[k] {
      LengthIndex(s, k);
    }
  }

  /** With well-placed rows, placing them fails exactly when they take more than 8192 ranges. */
  lemma {:induction false} StretchesPlaced(s: Structure, pageBytes: nat, selected: seq<nat>, k: nat)
    requires k <= |s.valid| && |s.lengths| == Trues(s.valid) && Ascending(selected)
    requires forall row :: 0 <= row < |s.valid| ==> RowLength(s, row) >= 0
    requires RowStart(s, |s.valid|) == pageBytes
    ensures var placed := PlaceUpTo(s, pageBytes, selected, k);
            && (placed.Ok? <==> Stretches(s, selected, k) <= 8192)
            && (placed.Ok? ==> |placed.value.spans| == Stretches(s, selected, k))
            && (placed.Err? ==> placed.error == Fallback(SelectedRanges))
  {
    hide Wanted, Separated, Covered, PlaceRow, Placed, InRow;
    if k > 0 {
      StretchesPlaced(s, pageBytes, selected, k - 1);
      StretchesGrow(s, selected, k - 1, k);
      var before := PlaceUpTo(s, pageBytes, selected, k - 1);
      if before.Ok? {
        PlaceUpToKeeps(s, pageBytes, selected, k - 1);
        StartsAscend(s, k, |s.valid|);
        PlaceRowCounts(s, pageBytes, selected, k - 1, before.value);
      }
    }
  }

  lemma {:induction false} StartsAscend(s: Structure, j: nat, k: nat)
    requires j <= k <= |s.valid| && |s.lengths| == Trues(s.valid)
    requires forall row :: 0 <= row < |s.valid| ==> RowLength(s, row) >= 0
    ensures RowStart(s, j) <= RowStart(s, k)
  {
    if j < k {
      StartsAscend(s, j, k - 1);
    }
  }

  /**
   * Exactly which structures have a payload: non-negative lengths that end at the page's end, and at most
   * 8192 separate ranges.
   */
  lemma PlacementSucceeds(s: Structure, pageBytes: nat, selected: seq<nat>)
    requires |s.lengths| == Trues(s.valid) && Ascending(selected)
    ensures PlaceRows(s, pageBytes, selected).Ok? <==>
              && (forall row :: 0 <= row < |s.valid| ==> RowLength(s, row) >= 0) && RowStart(s, |s.valid|) == pageBytes
              && Stretches(s, selected, |s.valid|) <= 8192
    ensures (forall row :: 0 <= row < |s.valid| ==> RowLength(s, row) >= 0) && RowStart(s, |s.valid|) == pageBytes
            && PlaceRows(s, pageBytes, selected).Err? ==>
              PlaceRows(s, pageBytes, selected) == Err(Fallback(SelectedRanges))
  {
    hide Wanted, PlaceUpTo, Stretches, RowLength;
    if (forall row :: 0 <= row < |s.valid| ==> RowLength(s, row) >= 0) && RowStart(s, |s.valid|) == pageBytes {
      StretchesPlaced(s, pageBytes, selected, |s.valid|);
      PlaceUpToKeeps(s, pageBytes, selected, |s.valid|);
    }
    var placed := PlaceRows(s, pageBytes, selected);
    if placed.Ok? {
      RangesAreExact(s, pageBytes, selected, placed.value);
    }
  }
}
