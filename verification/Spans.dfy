/** Half-open byte ranges, and lists of them. */
module Spans {
  /** The bytes `start..end`. */
  datatype Span = Span(start: nat, end: nat)

  function Length(span: Span): nat { if span.start < span.end then span.end - span.start else 0 }

  function SpanBytes(spans: seq<Span>): nat {
    if spans == [] then 0 else SpanBytes(spans[..|spans| - 1]) + Length(spans[|spans| - 1])
  }

  ghost predicate Covered(spans: seq<Span>, b: int) {
    exists i :: 0 <= i < |spans| && spans[i].start <= b < spans[i].end
  }

  /** Non-empty ranges in order, with at least one byte between neighbours, inside `low..high`. */
  ghost predicate Separated(spans: seq<Span>, low: nat, high: nat) {
    && (forall i :: 0 <= i < |spans| ==> low <= spans[i].start < spans[i].end <= high)
    && (forall i, j :: 0 <= i < j < |spans| ==> spans[i].end < spans[j].start)
  }

  lemma CoveredAlone(span: Span, b: int)
    ensures Covered([span], b) <==> span.start <= b < span.end
    ensures !Covered([], b)
  {
    if span.start <= b < span.end {
      assert [span][0].start <= b < [span][0].end;
    }
  }

  lemma CoveredByEither(x: seq<Span>, y: seq<Span>, b: int)
    ensures Covered(x + y, b) <==> Covered(x, b) || Covered(y, b)
  {
    if Covered(x, b) {
      var i :| 0 <= i < |x| && x[i].start <= b < x[i].end;
      assert (x + y)[i].start <= b < (x + y)[i].end;
    }
    if Covered(y, b) {
      var i :| 0 <= i < |y| && y[i].start <= b < y[i].end;
      assert (x + y)[|x| + i].start <= b < (x + y)[|x| + i].end;
    }
    if Covered(x + y, b) {
      var i :| 0 <= i < |x + y| && (x + y)[i].start <= b < (x + y)[i].end;
      assert i < |x| ==> x[i].start <= b < x[i].end;
      assert i >= |x| ==> y[i - |x|].start <= b < y[i - |x|].end;
    }
  }

  lemma CoveredWithLast(spans: seq<Span>, b: int)
    requires spans != []
    ensures var last := |spans| - 1;
            Covered(spans, b) <==> Covered(spans[..last], b) || spans[last].start <= b < spans[last].end
  {
    var last := |spans| - 1;
    assert spans == spans[..last] + [spans[last]];
    CoveredByEither(spans[..last], [spans[last]], b);
    CoveredAlone(spans[last], b);
  }
}
