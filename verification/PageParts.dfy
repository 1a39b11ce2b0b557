/** Splitting a requested range into pages and the stretches between them, and putting the pieces back together. */
module PageParts {
  import opened Bytes
  import opened Costs
  import opened Limits
  import opened ObjectStore
  import opened Options
  import opened PageReader
  import opened ProbeBudgets
  import opened Spans

  datatype Part = Part(range: Span, page: Option<Page>)

  predicate Overlaps(page: Page, range: Span) {
    page.range.start < range.end && page.range.end > range.start
  }

  predicate Inside(page: Page, range: Span) {
    range.start <= page.range.start && page.range.end <= range.end
  }

  function Overlapping(candidates: seq<Page>, range: Span): seq<Page> {
    if candidates == [] then []
    else
      var last := candidates[|candidates| - 1];
      Overlapping(candidates[..|candidates| - 1], range) + (if Overlaps(last, range) then [last] else [])
  }

  ghost predicate InOrder(pages: seq<Page>) {
    && (forall i :: 0 <= i < |pages| ==> pages[i].range.start <= pages[i].range.end)
    && (forall i, j :: 0 <= i < j < |pages| ==> pages[i].range.end <= pages[j].range.start)
  }

  /** The parts follow one another from `start` to `end` without gap or overlap. */
  ghost predicate Tiles(parts: seq<Part>, start: nat, end: nat) {
    if parts == [] then start == end
    else
      var last := parts[|parts| - 1].range;
      last.start <= last.end == end && Tiles(parts[..|parts| - 1], start, last.start)
  }

  lemma {:induction false} InOverlapping(candidates: seq<Page>, range: Span, page: Page)
    ensures page in Overlapping(candidates, range) <==> page in candidates && Overlaps(page, range)
  {
    if candidates != [] {
      InOverlapping(candidates[..|candidates| - 1], range, page);
      assert page in candidates <==> page in candidates[..|candidates| - 1] || page == candidates[|candidates| - 1];
    }
  }

  /** A part inside the range: a candidate that is read as a page, or a stretch that is read plainly. */
  ghost predicate OwnPart(part: Part, candidates: seq<Page>, range: Span) {
    && range.start <= part.range.start && part.range.end <= range.end
    && match part.page
       case Some(page) => page in candidates && part.range == page.range
       case None => part.range.start <= part.range.end
  }

  ghost predicate OwnParts(parts: seq<Part>, candidates: seq<Page>, range: Span) {
    forall k :: 0 <= k < |parts| ==> OwnPart(parts[k], candidates, range)
  }

  ghost predicate Straddled(candidates: seq<Page>, range: Span) {
    exists page :: page in candidates && Overlaps(page, range) && !Inside(page, range)
  }

  ghost predicate Forwards(pages: seq<Page>) {
    forall page :: page in pages ==> page.range.start <= page.range.end
  }

  /** Where the parts end, when they begin at `start`. */
  function EndOf(parts: seq<Part>, start: nat): nat {
    if parts == [] then start else parts[|parts| - 1].range.end
  }

  /** No part leaves a gap after the one before it. */
  ghost predicate Chained(parts: seq<Part>, start: nat) {
    if parts == [] then true
    else
      var n := |parts| - 1;
      parts[n].range.start <= parts[n].range.end && parts[n].range.start <= EndOf(parts[..n], start)
      && Chained(parts[..n], start)
  }

  /**
   * What splitting a range yields, for any list of candidates: pages are read as such unless one of them
   * crosses the border, and the parts tile the range exactly when one does or the pages in it are in order.
   */
  ghost predicate Split(parts: seq<Part>, candidates: seq<Page>, range: Span) {
    && OwnParts(parts, candidates, range)
    && (Straddled(candidates, range) ==> parts == [Part(range, None)])
    && (!Straddled(candidates, range) ==>
          forall page :: page in candidates && Overlaps(page, range) ==> Part(page.range, Some(page)) in parts)
    && (Tiles(parts, range.start, range.end) <==> Straddled(candidates, range) || InOrder(Overlapping(candidates, range)))
    && EndOf(parts, range.start) == range.end
    && (Forwards(candidates) ==> Chained(parts, range.start))
  }

  predicate In(span: Span, b: int) { span.start <= b < span.end }

  ghost predicate AllIn(page: Page, range: Span) {
    forall b :: In(page.range, b) ==> In(range, b)
  }

  ghost predicate NoneIn(page: Page, range: Span) {
    forall b :: In(page.range, b) ==> !In(range, b)
  }

  lemma OverlapByBytes(page: Page, range: Span)
    requires page.range.start < page.range.end && range.start < range.end
    ensures Inside(page, range) <==> AllIn(page, range)
    ensures Overlaps(page, range) <==> !NoneIn(page, range)
    ensures Inside(page, range) ==> Overlaps(page, range)
  {
    assert In(page.range, page.range.start) && In(page.range, page.range.end - 1);
    if Overlaps(page, range) {
      var b := if page.range.start <= range.start then range.start else page.range.start;
      assert In(page.range, b) && In(range, b);
    }
  }

  /**
   * Told by bytes: the range is read as a whole if only some bytes of a page lie in it; otherwise every page
   * of which all bytes lie in it is read as a page.
   */
  lemma SplitByBytes(parts: seq<Part>, candidates: seq<Page>, range: Span)
    requires Split(parts, candidates, range) && range.start < range.end
    requires forall page :: page in candidates ==> page.range.start < page.range.end
    ensures (exists page :: page in candidates && !AllIn(page, range) && !NoneIn(page, range)) ==>
              parts == [Part(range, None)]
    ensures (forall page :: page in candidates ==> AllIn(page, range) || NoneIn(page, range)) ==>
              forall page :: page in candidates && AllIn(page, range) ==> Part(page.range, Some(page)) in parts
  {
    hide AllIn, NoneIn, Tiles, Overlapping, Chained, OwnParts, Overlaps, Inside;
    forall page | page in candidates
      ensures Inside(page, range) <==> AllIn(page, range)
      ensures Overlaps(page, range) <==> !NoneIn(page, range)
      ensures Inside(page, range) ==> Overlaps(page, range)
    {
      OverlapByBytes(page, range);
    }
  }

  method RangeParts(range: Span, candidates: seq<Page>) returns (parts: seq<Part>)
    requires range.start <= range.end
    ensures Split(parts, candidates, range)
  {
    hide Tiles, Overlapping, Chained;
    var pages := Overlapping(candidates, range);
    forall page
      ensures page in pages <==> page in candidates && Overlaps(page, range)
    {
      InOverlapping(candidates, range, page);
    }
    if pages == [] || exists i :: 0 <= i < |pages| && !Inside(pages[i], range) {
      NoTiles(range.start);
      NoParts(candidates, range);
      PartThen([], range.start, range.start, range.end, None);
      parts := [Part(range, None)];
      assert [] + parts == parts;
      assert pages == [] ==> forall page :: page in pages ==> false;
      assert pages != [] ==> Straddled(candidates, range) by {
        if pages != [] {
          var i :| 0 <= i < |pages| && !Inside(pages[i], range);
          assert pages[i] in pages;
        }
      }
      return;
    }
    assert !Straddled(candidates, range);
    parts := TilePages(range, candidates, pages);
  }

  /** One part for each page, and one for each stretch around them. */
  method TilePages(range: Span, candidates: seq<Page>, pages: seq<Page>) returns (parts: seq<Part>)
    requires range.start <= range.end
    requires forall page :: page in pages ==> page in candidates && Overlaps(page, range) && Inside(page, range)
    ensures Tiles(parts, range.start, range.end) <==> InOrder(pages)
    ensures OwnParts(parts, candidates, range) && EndOf(parts, range.start) == range.end
    ensures Forwards(candidates) ==> Chained(parts, range.start)
    ensures forall page :: page in pages ==> Part(page.range, Some(page)) in parts
  {
    hide Tiles, OwnParts, Inside, InOrder, Chained, EndOf;
    NoTiles(range.start);
    parts := [];
    NoParts(candidates, range);
    NoneInOrder();
    var cursor: nat := range.start;
    assert pages[..0] == [];
    for k := 0 to |pages|
      invariant cursor == Cursor(pages, k, range.start) && range.start <= cursor <= range.end
      invariant EndOf(parts, range.start) == cursor
      invariant Tiles(parts, range.start, cursor) <==> InOrder(pages[..k])
      invariant OwnParts(parts, candidates, range)
      invariant Forwards(candidates) ==> Chained(parts, range.start)
      invariant forall i :: 0 <= i < k ==> Part(pages[i].range, Some(pages[i])) in parts
    {
      var page := pages[k];
      assert page in pages;
      InsideEnds(page, range);
      NextInOrder(pages, k, range.start);
      if cursor < page.range.start {
        PartThen(parts, range.start, cursor, page.range.start, None);
        OwnPartsPlus(parts, candidates, range, Part(Span(cursor, page.range.start), None));
        parts := parts + [Part(Span(cursor, page.range.start), None)];
      } else {
        TilesEnd(parts, range.start, page.range.start);
      }
      PartThen(parts, range.start, page.range.start, page.range.end, Some(page));
      OwnPartsPlus(parts, candidates, range, Part(page.range, Some(page)));
      cursor := page.range.end;
      parts := parts + [Part(page.range, Some(page))];
    }
    assert pages[..|pages|] == pages;
    if cursor < range.end {
      PartThen(parts, range.start, cursor, range.end, None);
      OwnPartsPlus(parts, candidates, range, Part(Span(cursor, range.end), None));
      parts := parts + [Part(Span(cursor, range.end), None)];
    }
  }

  /** Where the parts made from the first `k` pages end. */
  function Cursor(pages: seq<Page>, k: nat, start: nat): nat
    requires k <= |pages|
  {
    if k == 0 then start else pages[k - 1].range.end
  }

  /** Parts can only tile up to where they end. */
  lemma TilesEnd(parts: seq<Part>, start: nat, other: nat)
    ensures Tiles(parts, start, other) ==> other == EndOf(parts, start)
  {
  }

  /** One more part keeps the tiling and the chain, or the lack of them. */
  lemma PartThen(parts: seq<Part>, start: nat, middle: nat, end: nat, page: Option<Page>)
    ensures var more := parts + [Part(Span(middle, end), page)];
            && (Tiles(more, start, end) <==> middle <= end && Tiles(parts, start, middle))
            && (Chained(more, start) <==> middle <= end && middle <= EndOf(parts, start) && Chained(parts, start))
            && EndOf(more, start) == end
  {
    assert (parts + [Part(Span(middle, end), page)])[..|parts|] == parts;
  }

  lemma NoneInOrder()
    ensures InOrder([])
  {
  }

  /** The next page is in order when it is forward and starts no earlier than the pages before it end. */
  lemma NextInOrder(pages: seq<Page>, k: nat, start: nat)
    requires k < |pages| && start <= pages[k].range.start
    ensures InOrder(pages[..k + 1]) <==>
              InOrder(pages[..k]) && Cursor(pages, k, start) <= pages[k].range.start <= pages[k].range.end
  {
    var before, through := pages[..k], pages[..k + 1];
    if InOrder(before) && Cursor(pages, k, start) <= pages[k].range.start <= pages[k].range.end {
      forall i, j | 0 <= i < j < |through|
        ensures through[i].range.end <= through[j].range.start
      {
        if j < k {
          assert before[i].range.end <= before[j].range.start;
        } else if i < k - 1 {
          assert before[i].range.end <= before[k - 1].range.start <= before[k - 1].range.end;
        }
      }
      forall i | 0 <= i < |through|
        ensures through[i].range.start <= through[i].range.end
      {
        assert i < k ==> through[i] == before[i];
      }
    }
    if InOrder(through) {
      assert forall i :: 0 <= i < k ==> before[i] == through[i];
    }
  }

  lemma InsideEnds(page: Page, range: Span)
    requires Inside(page, range)
    ensures range.start <= page.range.start && page.range.end <= range.end
  {
  }

  lemma NoParts(candidates: seq<Page>, range: Span)
    ensures OwnParts([], candidates, range) && EndOf([], range.start) == range.start && Chained([], range.start)
  {
  }

  lemma OwnPartsPlus(parts: seq<Part>, candidates: seq<Page>, range: Span, part: Part)
    requires OwnParts(parts, candidates, range) && OwnPart(part, candidates, range)
    ensures OwnParts(parts + [part], candidates, range)
  {
  }

  lemma NoTiles(at: nat)
    ensures Tiles([], at, at)
  {
  }

  // ---------------------------------------------------------------- the pieces back together

  function Concat(pieces: seq<seq<Byte>>): seq<Byte> {
    if pieces == [] then [] else Concat(pieces[..|pieces| - 1]) + pieces[|pieces| - 1]
  }

  /** How many bytes the parts ask for; also where the next part's piece starts. */
  function Size(parts: seq<Part>): nat {
    if parts == [] then 0 else Size(parts[..|parts| - 1]) + Length(parts[|parts| - 1].range)
  }

  /** The pieces have the sizes of their parts. */
  ghost predicate Sized(parts: seq<Part>, pieces: seq<seq<Byte>>) {
    |pieces| == |parts| && forall k :: 0 <= k < |parts| ==> |pieces[k]| == Length(parts[k].range)
  }

  /** The piece stands at that offset of the whole answer. */
  ghost predicate InPlace(all: seq<Byte>, at: nat, piece: seq<Byte>) {
    at + |piece| <= |all| && all[at..at + |piece|] == piece
  }

  lemma StaysInPlace(before: seq<Byte>, more: seq<Byte>, at: nat, piece: seq<Byte>)
    requires InPlace(before, at, piece)
    ensures InPlace(before + more, at, piece)
  {
    assert (before + more)[at..at + |piece|] == before[at..at + |piece|];
  }

  lemma LastInPlace(before: seq<Byte>, piece: seq<Byte>)
    ensures InPlace(before + piece, |before|, piece)
  {
  }

  /** Every piece stands after the pieces of the parts before it. */
  lemma {:induction false} PiecesInPlace(parts: seq<Part>, pieces: seq<seq<Byte>>)
    requires Sized(parts, pieces)
    ensures |Concat(pieces)| == Size(parts)
    ensures forall k :: 0 <= k < |parts| ==> InPlace(Concat(pieces), Size(parts[..k]), pieces[k])
  {
    hide InPlace;
    if parts != [] {
      var n := |parts| - 1;
      PiecesInPlace(parts[..n], pieces[..n]);
      var before := Concat(pieces[..n]);
      forall k | 0 <= k < n
        ensures InPlace(before + pieces[n], Size(parts[..k]), pieces[k])
      {
        assert parts[..n][..k] == parts[..k] && pieces[..n][k] == pieces[k];
        StaysInPlace(before, pieces[n], Size(parts[..k]), pieces[k]);
      }
      LastInPlace(before, pieces[n]);
    }
  }

  /** Parts without gaps ask for at least their whole stretch, and for no more exactly when they tile it. */
  lemma {:induction false} SizeIsExact(parts: seq<Part>, start: nat)
    requires Chained(parts, start)
    ensures start + Size(parts) >= EndOf(parts, start)
    ensures start + Size(parts) == EndOf(parts, start) <==> Tiles(parts, start, EndOf(parts, start))
  {
    if parts != [] {
      var n := |parts| - 1;
      SizeIsExact(parts[..n], start);
      TilesEnd(parts[..n], start, parts[n].range.start);
    }
  }

  /** Parts that tile a stretch stand in the answer where they stand in the stretch. */
  lemma {:induction false} TilesInPlace(parts: seq<Part>, start: nat, end: nat)
    requires Tiles(parts, start, end)
    ensures start + Size(parts) == end
    ensures forall k :: 0 <= k < |parts| ==> start + Size(parts[..k]) == parts[k].range.start
  {
    if parts != [] {
      var n := |parts| - 1;
      TilesInPlace(parts[..n], start, parts[n].range.start);
      forall k | 0 <= k < n
        ensures start + Size(parts[..k]) == parts[k].range.start
      {
        assert parts[..n][..k] == parts[..k] && parts[..n][k] == parts[k];
      }
    }
  }

  /** What a piece of an answer is: a page like the stored one, or the stored bytes. */
  ghost predicate LikePart(part: Part, piece: seq<Byte>, header: HeaderSize, file: seq<Byte>)
    requires InFile(part, file)
  {
    var stored := file[part.range.start..part.range.end];
    match part.page
    case Some(page) => LikePage(piece, stored, header, page)
    case None => piece == stored
  }

  /** The part lies in the file; a page is at least as long as a first prefix. */
  ghost predicate InFile(part: Part, file: seq<Byte>) {
    && part.range.start <= part.range.end <= |file|
    && match part.page
       case Some(page) => page.range == part.range && page.range.start + PREFIX_BYTES <= page.range.end
       case None => true
  }

  lemma ValidBudget(budget: ProbeBudget)
    requires budget.Valid()
    ensures Affordable(budget.terms, budget.Contents())
  {
  }

  lemma PlainPart(store: Store, file: seq<Byte>, start: nat, end: nat)
    requires Stores(store, file) && start <= end <= |file|
    ensures Read(store, start, end).Ok? ==> Read(store, start, end).value == file[start..end]
  {
  }

  ghost predicate UnreadablePart(part: Part, header: HeaderSize, file: seq<Byte>) {
    && part.page.Some?
    && part.page.value.range.start + PREFIX_BYTES <= part.page.value.range.end <= |file|
    && Unreadable(part.page.value, header, file)
  }

  /** What other requests ask of the shared budget before each of a page's own requests. */
  type Others = nat -> seq<Reservation>

  /** An outcome that an affordable account justifies. */
  ghost predicate Fair(o: Outcome, account: Account, page: Page, n: nat, model: CostModel, terms: Terms, piece: seq<Byte>)
    requires page.range.start + PREFIX_BYTES <= page.range.end && n <= PREFIX_BYTES
  {
    Affordable(terms, account) && Justified(o, page, n, PREFIX_BYTES - n, model, terms, account, piece)
  }

  /**
   * A page that was read as such: by what its prefix reports and what the budget allowed at that time, it was
   * read sparsely if some plan saves, and only then.
   */
  ghost predicate PageWeighed(page: Page, piece: seq<Byte>, store: Store, header: HeaderSize, model: CostModel, terms: Terms)
    requires page.range.start + PREFIX_BYTES <= page.range.end
  {
    var prefix := Read(store, page.range.start, page.range.start + PREFIX_BYTES);
    && prefix.Ok? && header(prefix.value).Ok?
    && match header(prefix.value).value
       case Some(n) =>
         n <= PREFIX_BYTES && exists o: Outcome, account: Account :: Fair(o, account, page, n, model, terms, piece)
       case None => true
  }

  lemma WeighedBy(page: Page, piece: seq<Byte>, store: Store, header: HeaderSize, model: CostModel, terms: Terms,
                  account: Account, o: Outcome)
    requires page.range.start + PREFIX_BYTES <= page.range.end && Affordable(terms, account)
    requires var prefix := Read(store, page.range.start, page.range.start + PREFIX_BYTES);
             && prefix.Ok? && header(prefix.value).Ok?
             && match header(prefix.value).value
                case Some(n) =>
                  n <= PREFIX_BYTES && Justified(o, page, n, PREFIX_BYTES - n, model, terms, account, piece)
                case None => true
    ensures PageWeighed(page, piece, store, header, model, terms)
  {
    hide Justified, Affordable, Read;
    var found := header(Read(store, page.range.start, page.range.start + PREFIX_BYTES).value).value;
    if found.Some? {
      assert Fair(o, account, page, found.value, model, terms, piece);
    }
  }

  ghost predicate PartWeighed(part: Part, piece: seq<Byte>, store: Store, header: HeaderSize, model: CostModel, terms: Terms) {
    part.page.Some? ==>
      part.page.value.range.start + PREFIX_BYTES <= part.page.value.range.end
      && PageWeighed(part.page.value, piece, store, header, model, terms)
  }

  /** Every page of an answer was read as such. */
  ghost predicate AllWeighed(all: seq<Byte>, parts: seq<Part>, store: Store, header: HeaderSize, model: CostModel,
                             terms: Terms)
  {
    forall k :: 0 <= k < |parts| ==>
      && Size(parts[..k]) + Length(parts[k].range) <= |all|
      && PartWeighed(parts[k], all[Size(parts[..k])..Size(parts[..k]) + Length(parts[k].range)], store, header, model, terms)
  }

  lemma PieceWeighed(all: seq<Byte>, at: nat, part: Part, piece: seq<Byte>, store: Store, header: HeaderSize,
                     model: CostModel, terms: Terms)
    requires InPlace(all, at, piece) && |piece| == Length(part.range)
    requires PartWeighed(part, piece, store, header, model, terms)
    ensures at + Length(part.range) <= |all|
    ensures PartWeighed(part, all[at..at + Length(part.range)], store, header, model, terms)
  {
    hide PageWeighed;
  }

  /** Reads one part of a range. */
  method ReadPart(part: Part, header: HeaderSize, model: CostModel, store: Store, budget: ProbeBudget, others: Others,
                  ghost file: seq<Byte>)
    returns (r: Result<seq<Byte>>, ghost log: seq<Reservation>)
    requires model.Valid() && InPrefix(header) && InFile(part, file) && budget.Valid()
    modifies budget, budget.rounds
    ensures budget.Valid() && budget.Contents() == AfterAll(budget.terms, old(budget.Contents()), log)
    ensures r.Ok? ==> |r.value| == Length(part.range) && PartWeighed(part, r.value, store, header, model, budget.terms)
    ensures r.Ok? && Stores(store, file) ==> LikePart(part, r.value, header, file)
    ensures Reliable(store, file) && r.Err? ==> UnreadablePart(part, header, file)
  {
    hide Stores, Reliable, InPrefix, Read, LikePage, Unreadable, ProbeBudget.Valid, Justified, Affordable;
    match part.page
    case Some(page) =>
      ghost var outcome;
      ghost var before := budget.Contents();
      ValidBudget(budget);
      r, log, outcome := ReadPage(page, header, model, store, budget, others, file);
      if r.Ok? {
        WeighedBy(page, r.value, store, header, model, budget.terms, before, outcome);
      }
    case None =>
      log := [];
      r := Read(store, part.range.start, part.range.end);
      if Reliable(store, file) {
        ReliableReads(store, file, part.range.start, part.range.end);
      }
      if Stores(store, file) {
        PlainPart(store, file, part.range.start, part.range.end);
      }
  }

  /** What an answer shows of one part, at that offset of the answer. */
  ghost predicate Answers(all: seq<Byte>, at: nat, part: Part, header: HeaderSize, file: seq<Byte>) {
    && at + Length(part.range) <= |all| && InFile(part, file)
    && LikePart(part, all[at..at + Length(part.range)], header, file)
  }

  /** An answer made of the parts: each of them is the stored bytes, or a page that reads like the stored one. */
  ghost predicate Assembled(all: seq<Byte>, parts: seq<Part>, header: HeaderSize, file: seq<Byte>) {
    && |all| == Size(parts)
    && forall k :: 0 <= k < |parts| ==> Answers(all, Size(parts[..k]), parts[k], header, file)
  }

  ghost predicate SomeUnreadable(parts: seq<Part>, header: HeaderSize, file: seq<Byte>) {
    exists k :: 0 <= k < |parts| && UnreadablePart(parts[k], header, file)
  }

  lemma PieceAnswers(all: seq<Byte>, at: nat, part: Part, piece: seq<Byte>, header: HeaderSize, file: seq<Byte>)
    requires InPlace(all, at, piece) && |piece| == Length(part.range) && InFile(part, file)
    requires LikePart(part, piece, header, file)
    ensures Answers(all, at, part, header, file)
  {
    hide LikePart;
  }

  /** The answer to one requested range, its pieces in the order of the parts. */
  method ReadRange(parts: seq<Part>, header: HeaderSize, model: CostModel, store: Store, budget: ProbeBudget,
                   others: nat -> Others, ghost file: seq<Byte>)
    returns (r: Result<seq<Byte>>, ghost log: seq<Reservation>)
    requires model.Valid() && InPrefix(header) && budget.Valid()
    requires forall k :: 0 <= k < |parts| ==> InFile(parts[k], file)
    modifies budget, budget.rounds
    ensures budget.Valid() && budget.Contents() == AfterAll(budget.terms, old(budget.Contents()), log)
    ensures r.Ok? ==> AllWeighed(r.value, parts, store, header, model, budget.terms)
    ensures r.Ok? && Stores(store, file) ==> Assembled(r.value, parts, header, file)
    ensures Reliable(store, file) && r.Err? ==> SomeUnreadable(parts, header, file)
  {
    hide Stores, Reliable, InPrefix, InFile, PartWeighed, LikePart, InPlace, Concat, Answers, UnreadablePart, ProbeBudget.Valid, Size,
         AfterAll;
    log := [];
    NothingAsked(budget.terms, budget.Contents());
    var output: seq<seq<Byte>> := [];
    for k := 0 to |parts|
      invariant |output| == k && budget.Valid()
      invariant budget.Contents() == AfterAll(budget.terms, old(budget.Contents()), log)
      invariant forall j :: 0 <= j < k ==>
                  |output[j]| == Length(parts[j].range)
                  && PartWeighed(parts[j], output[j], store, header, model, budget.terms)
      invariant Stores(store, file) ==> forall j :: 0 <= j < k ==> LikePart(parts[j], output[j], header, file)
    {
      ghost var asked;
      var piece;
      piece, asked := ReadPart(parts[k], header, model, store, budget, others(k), file);
      AfterBoth(budget.terms, old(budget.Contents()), log, asked);
      log := log + asked;
      if piece.Err? {
        return piece, log;
      }
      output := output + [piece.value];
    }
    r := Ok(Concat(output));
    PiecesInPlace(parts, output);
    forall k | 0 <= k < |parts|
      ensures Size(parts[..k]) + Length(parts[k].range) <= |r.value|
      ensures PartWeighed(parts[k], r.value[Size(parts[..k])..Size(parts[..k]) + Length(parts[k].range)], store, header, model,
                          budget.terms)
    {
      PieceWeighed(r.value, Size(parts[..k]), parts[k], output[k], store, header, model, budget.terms);
    }
    if Stores(store, file) {
      forall k | 0 <= k < |parts|
        ensures Answers(r.value, Size(parts[..k]), parts[k], header, file)
      {
        PieceAnswers(r.value, Size(parts[..k]), parts[k], output[k], header, file);
      }
    }
  }

  lemma NothingAsked(terms: Terms, account: Account)
    ensures AfterAll(terms, account, []) == account
  {
  }

  /** Pages long enough to be read sparsely; they may overlap. */
  ghost predicate LongEnough(pages: seq<Page>) {
    forall page :: page in pages ==> page.range.start + PREFIX_BYTES <= page.range.end
  }

  lemma PartsInFile(parts: seq<Part>, range: Span, candidates: seq<Page>, file: seq<Byte>)
    requires OwnParts(parts, candidates, range) && LongEnough(candidates) && range.end <= |file|
    ensures forall k :: 0 <= k < |parts| ==> InFile(parts[k], file)
  {
    forall k | 0 <= k < |parts|
      ensures InFile(parts[k], file)
    {
      assert OwnPart(parts[k], candidates, range);
    }
  }

  /**
   * The parts ask for exactly the requested bytes when they tile the range, and otherwise for more; when
   * they tile it, each of them stands in the answer where it stands in the range.
   */
  lemma SplitInPlace(parts: seq<Part>, candidates: seq<Page>, range: Span)
    requires Split(parts, candidates, range) && Forwards(candidates) && range.start <= range.end
    ensures Size(parts) >= Length(range)
    ensures Size(parts) == Length(range) <==> Straddled(candidates, range) || InOrder(Overlapping(candidates, range))
    ensures Tiles(parts, range.start, range.end) ==>
              forall k :: 0 <= k < |parts| ==> range.start + Size(parts[..k]) == parts[k].range.start
  {
    hide InOrder, Overlapping, Straddled, Size, Chained, OwnParts;
    SizeIsExact(parts, range.start);
    if Tiles(parts, range.start, range.end) {
      TilesInPlace(parts, range.start, range.end);
    }
  }

  /**
   * Splits a requested range into pages and the rest and answers it: every byte of the answer is the
   * stored one, except inside a page that was read sparsely, and there every selected row's bytes are.
   * The answer has the requested size exactly when the pages in the range are in order and apart, or one of
   * them crosses its border.
   */
  method ReadRequest(range: Span, candidates: seq<Page>, header: HeaderSize, model: CostModel, store: Store,
                     budget: ProbeBudget, others: nat -> Others, ghost file: seq<Byte>)
    returns (r: Result<seq<Byte>>, ghost parts: seq<Part>, ghost log: seq<Reservation>)
    requires model.Valid() && InPrefix(header) && budget.Valid() && LongEnough(candidates)
    requires range.start <= range.end <= |file|
    modifies budget, budget.rounds
    ensures budget.Valid() && budget.Contents() == AfterAll(budget.terms, old(budget.Contents()), log)
    ensures Split(parts, candidates, range)
    ensures r.Ok? ==> AllWeighed(r.value, parts, store, header, model, budget.terms)
    ensures r.Ok? && Stores(store, file) ==> Assembled(r.value, parts, header, file)
    ensures r.Ok? && Stores(store, file) ==>
              (|r.value| == Length(range) <==> Straddled(candidates, range) || InOrder(Overlapping(candidates, range)))
    ensures Tiles(parts, range.start, range.end) ==>
              forall k :: 0 <= k < |parts| ==> range.start + Size(parts[..k]) == parts[k].range.start
    ensures Reliable(store, file) && r.Err? ==> SomeUnreadable(parts, header, file)
  {
    hide Stores, Reliable, InPrefix, InFile, Tiles, Answers, SomeUnreadable, ProbeBudget.Valid, InOrder, Overlapping,
         Straddled, Size, AfterAll, Chained, PartWeighed;
    var split := RangeParts(range, candidates);
    parts := split;
    PartsInFile(split, range, candidates, file);
    SplitInPlace(split, candidates, range);
    r, log := ReadRange(split, header, model, store, budget, others, file);
  }
}
