/** Writing a stream of rows as files of one size in batches of one size, whatever batches it arrives in. */
module Rechunking {
  import opened Numbers
  import opened Options
  import opened Pieces

  const BATCH_ROWS: nat := 8192

  /** One value per column; None is null. */
  type Row = seq<Option<int>>

  // ---------------------------------------------------------------- statistics

  datatype Bounds = Bounds(min: Option<int>, max: Option<int>, nulls: nat)

  ghost predicate Fits(rows: seq<Row>, width: nat) {
    forall i :: 0 <= i < |rows| ==> |rows[i]| == width
  }

  function Lower(a: Option<int>, b: Option<int>): Option<int> {
    if a.None? then b else if b.None? then a else if b.value < a.value then b else a
  }

  function Upper(a: Option<int>, b: Option<int>): Option<int> {
    if a.None? then b else if b.None? then a else if b.value > a.value then b else a
  }

  /** Smallest and largest value of a column, and its nulls. */
  function BoundsOf(rows: seq<Row>, width: nat, c: nat): Bounds
    requires Fits(rows, width) && c < width
  {
    if rows == [] then Bounds(None, None, 0)
    else
      var value := rows[|rows| - 1][c];
      var before := BoundsOf(rows[..|rows| - 1], width, c);
      Bounds(Lower(before.min, value), Upper(before.max, value), before.nulls + (if value.None? then 1 else 0))
  }

  /** Bounds of two lists one after the other. */
  function Merged(a: Bounds, b: Bounds): Bounds {
    Bounds(Lower(a.min, b.min), Upper(a.max, b.max), a.nulls + b.nulls)
  }

  lemma {:induction false} BoundsPlus(a: seq<Row>, b: seq<Row>, width: nat, c: nat)
    requires Fits(a, width) && Fits(b, width) && c < width
    ensures Fits(a + b, width)
    ensures BoundsOf(a + b, width, c) == Merged(BoundsOf(a, width, c), BoundsOf(b, width, c))
  {
    if b == [] {
      assert a + b == a;
    } else {
      var n := |b| - 1;
      assert (a + b)[..|a| + n] == a + b[..n];
      BoundsPlus(a, b[..n], width, c);
    }
  }

  /** No value passes the bounds. */
  lemma {:induction false} BoundsHold(rows: seq<Row>, width: nat, c: nat, i: nat)
    requires Fits(rows, width) && c < width && i < |rows| && rows[i][c].Some?
    ensures var b := BoundsOf(rows, width, c);
            b.min.Some? && b.max.Some? && b.min.value <= rows[i][c].value <= b.max.value
  {
    if i < |rows| - 1 {
      BoundsHold(rows[..|rows| - 1], width, c, i);
    }
  }

  /** Some value attains each bound; without values there are none. */
  lemma {:induction false} BoundsAttained(rows: seq<Row>, width: nat, c: nat) returns (low: nat, high: nat)
    requires Fits(rows, width) && c < width
    ensures var b := BoundsOf(rows, width, c);
            && (b.min.Some? ==> low < |rows| && rows[low][c] == b.min)
            && (b.max.Some? ==> high < |rows| && rows[high][c] == b.max)
            && (b.min.Some? <==> b.max.Some?)
  {
    low, high := 0, 0;
    if rows != [] {
      var n := |rows| - 1;
      var before := BoundsOf(rows[..n], width, c);
      low, high := BoundsAttained(rows[..n], width, c);
      var b := BoundsOf(rows, width, c);
      low := if b.min == before.min then low else n;
      high := if b.max == before.max then high else n;
    }
  }

  lemma {:induction false} NullsCounted(rows: seq<Row>, width: nat, c: nat)
    requires Fits(rows, width) && c < width
    ensures BoundsOf(rows, width, c).nulls == |set i | 0 <= i < |rows| && rows[i][c].None?|
  {
    if rows != [] {
      var n := |rows| - 1;
      NullsCounted(rows[..n], width, c);
      var before := set i | 0 <= i < n && rows[..n][i][c].None?;
      var after := set i | 0 <= i < |rows| && rows[i][c].None?;
      assert forall i :: i in after <==> i in before || (i == n && rows[n][c].None?);
      assert after == before + (if rows[n][c].None? then {n} else {});
      assert n !in before;
    }
  }

  class Stats {
    const width: nat
    var columns: seq<Option<Bounds>>
    var rows: nat
    ghost var seen: seq<Row>

    /** After any rows, every column holds the bounds of all of them. */
    ghost predicate Valid()
      reads this
    {
      && rows == |seen| && |columns| == width && Fits(seen, width)
      && forall c :: 0 <= c < width ==>
           (columns[c].Some? ==> columns[c].value == BoundsOf(seen, width, c)) && (columns[c].None? ==> seen == [])
    }

    constructor (width: nat)
      ensures Valid() && this.width == width && seen == []
    {
      this.width := width;
      columns := seq(width, _ => None);
      rows := 0;
      seen := [];
    }

    /** Folds the bounds of one more batch into those of the batches before. */
    method Update(batch: seq<Row>)
      requires Valid() && Fits(batch, width)
      modifies this
      ensures Valid() && seen == old(seen) + batch
    {
      rows := rows + |batch|;
      for c: nat := 0 to width
        invariant rows == |seen + batch| && seen == old(seen) && |columns| == width
        invariant forall k :: 0 <= k < c ==> columns[k].Some? && columns[k].value == BoundsOf(seen + batch, width, k)
        invariant forall k :: c <= k < width ==>
                    (columns[k].Some? ==> columns[k].value == BoundsOf(seen, width, k)) && (columns[k].None? ==> seen == [])
      {
        var next := BoundsOf(batch, width, c);
        BoundsPlus(seen, batch, width, c);
        if columns[c].Some? {
          var previous := columns[c].value;
          if next.min.Some? && (previous.min.None? || next.min.value < previous.min.value) {
            previous := previous.(min := next.min);
          }
          if next.max.Some? && (previous.max.None? || next.max.value > previous.max.value) {
            previous := previous.(max := next.max);
          }
          previous := previous.(nulls := previous.nulls + next.nulls);
          columns := columns[c := Some(previous)];
        } else {
          columns := columns[c := Some(next)];
        }
      }
      seen := seen + batch;
    }
  }

  // ---------------------------------------------------------------- files

  type Batch = seq<Row>

  /** A finished file: its batches, and the bounds recorded for it. */
  datatype File = File(batches: seq<Batch>, columns: seq<Option<Bounds>>, rows: nat)

  /** The recorded bounds are those of all the file's rows. */
  ghost predicate Described(file: File, width: nat) {
    var rows := Flat(file.batches);
    && Fits(rows, width) && file.rows == |rows| && |file.columns| == width
    && forall c :: 0 <= c < width ==> file.columns[c] == Some(BoundsOf(rows, width, c))
  }

  ghost predicate AllDescribed(files: seq<File>, width: nat) {
    forall k :: 0 <= k < |files| ==> Described(files[k], width)
  }

  /** The rows of each file. */
  ghost function Contents(files: seq<File>): (r: seq<seq<Row>>)
    ensures |r| == |files| && forall k :: 0 <= k < |files| ==> r[k] == Flat(files[k].batches)
  {
    seq(|files|, k requires 0 <= k < |files| => Flat(files[k].batches))
  }

  /** Every file is cut into batches of the fixed size. */
  ghost predicate Encoded(files: seq<File>) {
    forall k :: 0 <= k < |files| ==> files[k].batches != [] && Cut(files[k].batches, BATCH_ROWS)
  }

  /** Rows in full files, full batches of the file being written, and what is pending. */
  ghost predicate Filled(capacity: nat, rows: seq<Row>, files: seq<File>, written: seq<Batch>, pending: seq<Row>) {
    && Full(Contents(files), capacity) && Full(written, BATCH_ROWS)
    && |Flat(written)| < capacity && |pending| <= Min(BATCH_ROWS, capacity - |Flat(written)|)
    && rows == Flat(Contents(files)) + Flat(written) + pending
  }

  /** The same, when no batch is waiting to be written. */
  ghost predicate Layout(capacity: nat, rows: seq<Row>, files: seq<File>, written: seq<Batch>, pending: seq<Row>) {
    Filled(capacity, rows, files, written, pending) && |pending| < Min(BATCH_ROWS, capacity - |Flat(written)|)
  }

  lemma FilledGrows(capacity: nat, rows: seq<Row>, files: seq<File>, written: seq<Batch>, pending: seq<Row>, slice: seq<Row>)
    requires Filled(capacity, rows, files, written, pending)
    requires |pending + slice| <= Min(BATCH_ROWS, capacity - |Flat(written)|)
    ensures Filled(capacity, rows + slice, files, written, pending + slice)
  {
  }

  /** A full batch is written, to a file that stays open or is full as well. */
  lemma FlushedLayout(capacity: nat, rows: seq<Row>, files: seq<File>, written: seq<Batch>, pending: seq<Row>)
    requires Filled(capacity, rows, files, written, pending)
    requires |pending| == Min(BATCH_ROWS, capacity - |Flat(written)|)
    ensures var next := written + [pending];
            && |Flat(next)| <= capacity
            && (|Flat(next)| < capacity ==> Layout(capacity, rows, files, next, []))
            && (|Flat(next)| == capacity ==>
                  forall file: File :: file.batches == next ==> Layout(capacity, rows, files + [file], [], []))
  {
    var next := written + [pending];
    FlatLast(written, pending);
    hide Flat;
    forall file: File | file.batches == next && |Flat(next)| == capacity
      ensures Layout(capacity, rows, files + [file], [], [])
    {
      assert Contents(files + [file]) == Contents(files) + [Flat(next)];
      FlatLast(Contents(files), Flat(next));
      FlatNothing();
    }
    FlatNothing();
  }

  class TableWriter {
    const width: nat
    const groupRows: nat
    const groupsPerFile: nat
    var pending: seq<Batch>
    var pendingRows: nat
    var current: Option<seq<Batch>>
    var stats: Stats
    var files: seq<File>
    ghost var rows: seq<Row> // pushed since the last file was ended
    ghost var ended: seq<File> // all files up to then

    function Capacity(): nat { groupRows * groupsPerFile }

    ghost function Written(): seq<Batch>
      reads this
    {
      match current
      case Some(batches) => batches
      case None => []
    }

    /** The fields agree with each other. */
    ghost predicate Shape()
      reads this, stats
    {
      && Capacity() > 0
      && pendingRows == |Flat(pending)| && Fits(Flat(pending), width)
      && stats.Valid() && stats.width == width && stats.seen == Flat(Written())
      && (current.None? <==> stats.seen == [])
      && AllDescribed(files, width) && Encoded(files)
    }

    /** Files since the last end are full; what is written of the next one is in full batches. */
    ghost predicate Valid()
      reads this, stats
    {
      && Shape() && ended <= files
      && Layout(Capacity(), rows, files[|ended|..], Written(), Flat(pending))
    }

    constructor (width: nat, groupRows: nat, groupsPerFile: nat)
      requires groupRows * groupsPerFile > 0
      ensures Valid() && fresh(stats) && rows == [] && files == [] == ended
      ensures this.width == width && this.groupRows == groupRows && this.groupsPerFile == groupsPerFile
    {
      this.width, this.groupRows, this.groupsPerFile := width, groupRows, groupsPerFile;
      pending, pendingRows, current, files := [], 0, None, [];
      rows, ended := [], [];
      stats := new Stats(width);
    }

    /** Closes the file that is being written, if any, and records its bounds. */
    method FinishFile()
      requires Shape() && (current.Some? ==> Cut(current.value, BATCH_ROWS))
      modifies this, stats
      ensures Shape() && current.None? && (fresh(stats) || stats == old(stats))
      ensures pending == old(pending) && pendingRows == old(pendingRows) && rows == old(rows) && ended == old(ended)
      ensures old(current).None? ==> files == old(files)
      ensures old(current).Some? ==>
                |files| == |old(files)| + 1 && files[..|old(files)|] == old(files)
                && files[|old(files)|].batches == old(current).value
    {
      if current.None? {
        return;
      }
      var columns := stats.columns;
      files := files + [File(current.value, columns, stats.rows)];
      current := None;
      stats := new Stats(width);
    }

    /** Writes what is pending as one batch; a file that is full is finished. */
    method FlushBatch()
      requires Shape() && Full(Written(), BATCH_ROWS) && |Flat(Written())| < Capacity()
      requires pendingRows <= Min(BATCH_ROWS, Capacity() - |Flat(Written())|)
      modifies this, stats
      ensures Shape() && (fresh(stats) || stats == old(stats))
      ensures rows == old(rows) && ended == old(ended)
      ensures pendingRows == 0 && Flat(pending) == []
      ensures old(pendingRows) == 0 ==> files == old(files) && current == old(current)
      ensures old(pendingRows) > 0 ==>
                var written := old(Written()) + [old(Flat(pending))];
                && Cut(written, BATCH_ROWS) && Flat(written) == old(Flat(Written()) + Flat(pending))
                && (|Flat(written)| < Capacity() ==> files == old(files) && current == Some(written))
                && (|Flat(written)| == Capacity() ==>
                      |files| == |old(files)| + 1 && files[..|old(files)|] == old(files)
                      && files[|old(files)|].batches == written && current.None?)
    {
      if pendingRows == 0 {
        return;
      }
      var batch := if |pending| == 1 then pending[0] else Flat(pending);
      if |pending| == 1 { OnePart(pending); }
      ghost var written := Written() + [batch];
      FlatLast(Written(), batch);
      pending, pendingRows := [], 0;
      if current.None? {
        current := Some([]);
      }
      stats.Update(batch);
      current := Some(current.value + [batch]);
      assert Written() == written;
      if stats.rows == groupRows * groupsPerFile {
        FinishFile();
      }
    }

    /** There is always room for more pending rows. */
    lemma Room()
      requires Valid()
      ensures stats.rows < Capacity() && pendingRows < Min(BATCH_ROWS, Capacity() - stats.rows)
    {
    }

    /** Takes rows in, and writes the batch if that completes it. */
    method Take(slice: Batch)
      requires Valid() && Fits(slice, width)
      requires pendingRows + |slice| <= Min(BATCH_ROWS, Capacity() - stats.rows)
      modifies this, stats
      ensures Valid() && (fresh(stats) || stats == old(stats))
      ensures rows == old(rows) + slice && ended == old(ended) && old(files) <= files
    {
      hide Full, Layout, Filled, AllDescribed, Encoded, Min;
      Room();
      ghost var since, written, before := files[|ended|..], Written(), Flat(pending);
      var batchRows := Min(BATCH_ROWS, groupRows * groupsPerFile - stats.rows);
      LayoutIsFilled(Capacity(), rows, since, written, before);
      FilledGrows(Capacity(), rows, since, written, before, slice);
      FlatLast(pending, slice);
      pending := pending + [slice];
      pendingRows := pendingRows + |slice|;
      rows := rows + slice;
      if pendingRows == batchRows {
        FlushFull();
      } else {
        FilledIsLayout(Capacity(), rows, since, written, before + slice);
      }
    }

    /** Writes a batch that is complete. */
    method FlushFull()
      requires Shape() && ended <= files
      requires Filled(Capacity(), rows, files[|ended|..], Written(), Flat(pending))
      requires pendingRows == Min(BATCH_ROWS, Capacity() - |Flat(Written())|)
      modifies this, stats
      ensures Valid() && (fresh(stats) || stats == old(stats))
      ensures rows == old(rows) && ended == old(ended) && old(files) <= files
    {
      hide Full, Layout, Filled, AllDescribed, Encoded, Min, Cut, Flat, Fits, Stats.Valid;
      ghost var since, written, full := files[|ended|..], Written(), Flat(pending);
      FlushedLayout(Capacity(), rows, since, written, full);
      FilledFacts(Capacity(), rows, since, written, full);
      FlatLast(written, full);
      FlushBatch();
      assert Flat<Row>([]) == [] by {
        FlatNothing();
      }
      if files != old(files) {
        assert files[|ended|..] == since + [files[|old(files)|]];
      }
    }

    /** Cuts the rows of a batch into what completes the pending batch, full batches, and what stays pending. */
    method Push(batch: Batch)
      requires Valid() && Fits(batch, width)
      modifies this, stats
      ensures Valid() && (fresh(stats) || stats == old(stats))
      ensures rows == old(rows) + batch && ended == old(ended) && old(files) <= files
    {
      hide Valid;
      var offset: nat := 0;
      assert rows == old(rows) + batch[..0];
      while offset < |batch|
        invariant offset <= |batch| && Valid() && (fresh(stats) || stats == old(stats))
        invariant rows == old(rows) + batch[..offset] && ended == old(ended) && old(files) <= files
      {
        Room();
        var remaining := groupRows * groupsPerFile - stats.rows;
        var batchRows := Min(BATCH_ROWS, remaining);
        var length := Min(batchRows - pendingRows, |batch| - offset);
        Take(batch[offset..offset + length]);
        assert batch[..offset + length] == batch[..offset] + batch[offset..offset + length];
        offset := offset + length;
      }
      assert batch[..offset] == batch;
    }

    /** Writes what is left as a file of its own, if there is anything. */
    method CloseRest()
      requires Shape() && Full(Written(), BATCH_ROWS) && |Flat(Written()) + Flat(pending)| < Capacity()
      requires pendingRows <= Min(BATCH_ROWS, Capacity() - |Flat(Written())|)
      modifies this, stats
      ensures Shape() && (fresh(stats) || stats == old(stats)) && Written() == [] && Flat(pending) == []
      ensures rows == old(rows) && ended == old(ended)
      ensures old(Written()) == [] && old(Flat(pending)) == [] ==> files == old(files)
      ensures old(Written()) != [] || old(Flat(pending)) != [] ==>
                |files| == |old(files)| + 1 && files[..|old(files)|] == old(files)
                && LastFile(files[|old(files)|], old(Written()), old(Flat(pending)))
    {
      hide Full, AllDescribed, Encoded, Min, Cut, Flat, Fits, LastFile;
      ghost var written, last := Written(), Flat(pending);
      FlatLast(written, last);
      FullIsCut(written);
      NothingIsLayout(Capacity());
      FlushBatch();
      FinishFile();
      if files != old(files) {
        IsLastFile(files[|old(files)|], written, last);
      }
    }

    /** Writes what is left and closes the file; the next rows start a new one. */
    method EndFile()
      requires Valid()
      modifies this, stats
      ensures Valid() && (fresh(stats) || stats == old(stats))
      ensures rows == [] && ended == files && old(ended) <= files
      ensures Cut(Contents(files[|old(ended)|..]), Capacity())
      ensures Flat(Contents(files[|old(ended)|..])) == old(rows)
      ensures Encoded(files) && AllDescribed(files, width)
    {
      hide Full, Layout, Filled, AllDescribed, Encoded, Min, Cut, Flat, Fits, Stats.Valid, LastFile;
      ghost var since, written, last := files[|ended|..], Written(), Flat(pending);
      LayoutIsFilled(Capacity(), rows, since, written, last);
      FilledFacts(Capacity(), rows, since, written, last);
      EndedLayout(Capacity(), rows, since, written, last);
      LastFits(Capacity(), rows, since, written, last);
      CloseRest();
      if written != [] || last != [] {
        assert files[|ended|..] == since + [files[|old(files)|]];
      }
      rows := [];
      ended := files;
      assert files[|ended|..] == [];
      NothingIsLayout(Capacity());
    }
  }

  lemma FullIsCut(parts: seq<Batch>)
    requires Full(parts, BATCH_ROWS)
    ensures Cut(parts, BATCH_ROWS)
  {
  }

  lemma LastFits(capacity: nat, rows: seq<Row>, files: seq<File>, written: seq<Batch>, pending: seq<Row>)
    requires Layout(capacity, rows, files, written, pending)
    ensures |Flat(written) + pending| < capacity
  {
  }

  lemma NothingIsLayout(capacity: nat)
    requires capacity > 0
    ensures Layout(capacity, [], [], [], []) && Flat<Row>([]) == [] && Flat<Batch>([]) == []
  {
    assert Contents([]) == [];
  }

  /** What is written and pending, closed as a file of its own. */
  ghost predicate LastFile(file: File, written: seq<Batch>, pending: seq<Row>) {
    && (pending != [] || written != [])
    && file.batches == written + (if pending == [] then [] else [pending])
  }

  lemma IsLastFile(file: File, written: seq<Batch>, pending: seq<Row>)
    requires pending != [] || written != []
    requires file.batches == if pending == [] then written else written + [pending]
    ensures LastFile(file, written, pending)
  {
  }

  /** Closing a file leaves full files and at most one shorter, not empty one. */
  lemma EndedLayout(capacity: nat, rows: seq<Row>, files: seq<File>, written: seq<Batch>, pending: seq<Row>)
    requires Layout(capacity, rows, files, written, pending)
    ensures pending == [] && written == [] ==> Cut(Contents(files), capacity) && Flat(Contents(files)) == rows
    ensures forall file: File :: LastFile(file, written, pending) ==>
                Cut(Contents(files + [file]), capacity) && Flat(Contents(files + [file])) == rows
  {
    assert pending == [] && written == [] ==> Flat(written) + pending == [];
    forall file: File | LastFile(file, written, pending)
      ensures Cut(Contents(files + [file]), capacity) && Flat(Contents(files + [file])) == rows
    {
      FlatLast(written, pending);
      assert pending == [] ==> file.batches == written;
      assert Flat(file.batches) == Flat(written) + pending;
      SomeRows(written);
      assert Contents(files + [file]) == Contents(files) + [Flat(file.batches)];
      FlatLast(Contents(files), Flat(file.batches));
    }
  }

  lemma SomeRows(written: seq<Batch>)
    requires Full(written, BATCH_ROWS)
    ensures written != [] ==> Flat(written) != []
  {
    FullSize(written, BATCH_ROWS);
  }

  /**
   * However the rows arrived, the files are the same: same rows in each, same batches, same bounds.
   * All but the last hold exactly the configured number of rows.
   */
  lemma SameRowsSameFiles(a: seq<File>, b: seq<File>, capacity: nat, width: nat)
    requires Cut(Contents(a), capacity) && Cut(Contents(b), capacity)
    requires Flat(Contents(a)) == Flat(Contents(b))
    requires Encoded(a) && Encoded(b) && AllDescribed(a, width) && AllDescribed(b, width)
    ensures a == b
  {
    CutIsUnique(Contents(a), Contents(b), capacity);
    forall k | 0 <= k < |a|
      ensures a[k] == b[k]
    {
      assert Contents(a)[k] == Contents(b)[k];
      CutIsUnique(a[k].batches, b[k].batches, BATCH_ROWS);
      assert a[k].columns == b[k].columns;
    }
  }

  lemma FlatNothing()
    ensures Flat<Row>([]) == []
  {
  }

  lemma LayoutIsFilled(capacity: nat, rows: seq<Row>, files: seq<File>, written: seq<Batch>, pending: seq<Row>)
    requires Layout(capacity, rows, files, written, pending)
    ensures Filled(capacity, rows, files, written, pending)
  {
  }

  lemma FilledIsLayout(capacity: nat, rows: seq<Row>, files: seq<File>, written: seq<Batch>, pending: seq<Row>)
    requires Filled(capacity, rows, files, written, pending)
    requires |pending| != Min(BATCH_ROWS, capacity - |Flat(written)|)
    ensures Layout(capacity, rows, files, written, pending)
  {
  }

  lemma FilledFacts(capacity: nat, rows: seq<Row>, files: seq<File>, written: seq<Batch>, pending: seq<Row>)
    requires Filled(capacity, rows, files, written, pending)
    ensures Full(written, BATCH_ROWS) && |Flat(written)| < capacity
    ensures |pending| <= Min(BATCH_ROWS, capacity - |Flat(written)|)
    ensures |Flat(written)| < capacity ==> Min(BATCH_ROWS, capacity - |Flat(written)|) > 0
  {
  }

  lemma OnePart(parts: seq<Batch>)
    requires |parts| == 1
    ensures Flat(parts) == parts[0]
  {
    assert parts[1..] == [];
  }

  /** Writes a table from batches of any sizes. */
  method WriteTable(inputs: seq<Batch>, width: nat, groupRows: nat, groupsPerFile: nat) returns (files: seq<File>)
    requires groupRows * groupsPerFile > 0 && forall i :: 0 <= i < |inputs| ==> Fits(inputs[i], width)
    ensures Cut(Contents(files), groupRows * groupsPerFile) && Flat(Contents(files)) == Flat(inputs)
    ensures AllDescribed(files, width)
    ensures forall k :: 0 <= k < |files| ==> files[k].batches != [] && Cut(files[k].batches, 8192)
  {
    hide Flat, Cut, Full, Layout, AllDescribed, TableWriter.Valid;
    var writer := new TableWriter(width, groupRows, groupsPerFile);
    NothingIsLayout(groupRows * groupsPerFile);
    assert inputs[..0] == [];
    for i := 0 to |inputs|
      invariant writer.Valid() && writer.rows == Flat(inputs[..i]) && writer.ended == []
      invariant fresh(writer) && fresh(writer.stats)
    {
      writer.Push(inputs[i]);
      assert inputs[..i + 1] == inputs[..i] + [inputs[i]];
      FlatLast(inputs[..i], inputs[i]);
    }
    assert inputs[..|inputs|] == inputs;
    writer.EndFile();
    files := writer.files;
    assert files[0..] == files;
  }

  // ---------------------------------------------------------------- reading planned files

  /** The rows that come before the first empty batch. */
  function BeforeEmpty(batches: seq<Batch>): seq<Row> {
    if batches == [] || batches[0] == [] then [] else batches[0] + BeforeEmpty(batches[1..])
  }

  /** A source of batches, of which one may have been read in part. */
  class RowSource {
    const batches: seq<Batch>
    var at: nat
    var pending: Option<Batch>

    ghost predicate Valid()
      reads this
    {
      at <= |batches| && (pending.Some? ==> pending.value != [])
    }

    /** All rows not taken yet. */
    ghost function Remaining(): seq<Row>
      requires Valid()
      reads this
    {
      (match pending case Some(batch) => batch case None => []) + Flat(batches[at..])
    }

    /** The rows that can still be taken: an empty batch ends them. */
    ghost function Usable(): seq<Row>
      requires Valid()
      reads this
    {
      (match pending case Some(batch) => batch case None => []) + BeforeEmpty(batches[at..])
    }

    constructor (batches: seq<Batch>)
      ensures Valid() && Remaining() == Flat(batches) && this.batches == batches
    {
      this.batches, at, pending := batches, 0, None;
    }

    /** The rest of the batch read in part, or the next batch. */
    method Next() returns (batch: Option<Batch>)
      requires Valid()
      modifies this
      ensures Valid() && pending.None?
      ensures batch.None? || batch.value == [] ==> old(Usable()) == []
      ensures batch.Some? ==> old(Remaining()) == batch.value + Remaining()
      ensures batch.Some? && batch.value != [] ==> old(Usable()) == batch.value + Usable()
    {
      if pending.Some? {
        batch := pending;
        pending := None;
      } else if at == |batches| {
        batch := None;
      } else {
        batch := Some(batches[at]);
        assert batches[at..][1..] == batches[at + 1..];
        at := at + 1;
      }
    }

    /** Puts back the part of a batch that was not needed. */
    method PutBack(rest: Batch)
      requires Valid() && pending.None? && rest != []
      modifies this`pending
      ensures Valid() && Remaining() == rest + old(Remaining()) && Usable() == rest + old(Usable())
    {
      pending := Some(rest);
    }

    /** Takes exactly the next `count` rows, or fails when the source ends or an empty batch comes before that. */
    method NextFile(count: nat) returns (file: Option<seq<Row>>)
      requires Valid()
      modifies this
      ensures Valid()
      ensures file.Some? ==>
                && count <= |old(Remaining())|
                && file.value == old(Remaining())[..count] && Remaining() == old(Remaining())[count..]
      ensures file.Some? <==> count <= |old(Usable())|
    {
      hide Remaining, Usable, Flat;
      var taken: seq<Row> := [];
      var remaining: nat := count;
      while remaining > 0
        invariant Valid() && remaining + |taken| == count
        invariant taken + Remaining() == old(Remaining()) && taken + Usable() == old(Usable())
      {
        ghost var before, usable := Remaining(), Usable();
        var batch := Next();
        if batch.None? || batch.value == [] {
          return None;
        }
        var n := Min(remaining, |batch.value|);
        assert taken + before == taken + batch.value[..n] + (batch.value[n..] + Remaining());
        assert taken + usable == taken + batch.value[..n] + (batch.value[n..] + Usable());
        if n < |batch.value| {
          PutBack(batch.value[n..]);
        }
        taken := taken + batch.value[..n];
        remaining := remaining - n;
      }
      ghost var all := old(Remaining());
      assert all == taken + Remaining();
      assert all[..count] == taken && all[count..] == Remaining();
      file := Some(taken);
    }
  }
}
