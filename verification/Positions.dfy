/** Source positions and spans, ordered as the row and column tuples of calls.rs. */
module Positions {
  datatype Pos = Pos(row: nat, col: nat)

  predicate Le(a: Pos, b: Pos) {
    a.row < b.row || (a.row == b.row && a.col <= b.col)
  }

  // Both ends belong to the span.
  datatype Span = Span(start: Pos, end: Pos)

  predicate Holds(s: Span, p: Pos) {
    Le(s.start, p) && Le(p, s.end)
  }

  ghost predicate Inside(inner: Span, outer: Span) {
    Le(outer.start, inner.start) && Le(inner.end, outer.end)
  }

  ghost predicate Nested(a: Span, b: Span) {
    Inside(a, b) || Inside(b, a)
  }

  datatype Width = Width(rows: nat, cols: int)

  // span_width: rows by a saturating difference, then columns by a signed one.
  function SpanWidth(s: Span): Width {
    Width(if s.end.row >= s.start.row then s.end.row - s.start.row else 0, s.end.col - s.start.col)
  }

  predicate WidthLe(a: Width, b: Width) {
    a.rows < b.rows || (a.rows == b.rows && a.cols <= b.cols)
  }

  // Nesting never widens, and a nested span of equal width is the same span.
  lemma NestedWidths(inner: Span, outer: Span)
    requires Inside(inner, outer) && Le(inner.start, inner.end)
    ensures WidthLe(SpanWidth(inner), SpanWidth(outer))
    ensures SpanWidth(inner) == SpanWidth(outer) <==> inner == outer
  {
  }
}
