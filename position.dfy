/**
 * Buffer-space positions (src/position.js): a `Point` is a logical line
 * index and a column inside that line, ordered lexicographically.
 */
module Position {

  /** A (line, column) location; the JavaScript defaults are (0, 0). */
  datatype Point = Point(line: int, column: int)

  /** A (start, end) span; it is not normalised on construction. */
  datatype Range = Range(start: Point, end: Point)

  /** The point `new Point()` builds when no arguments are given. */
  const Origin := Point(0, 0)

  /**
   * `Point.from`: a new point with the same coordinates. Object identity is
   * not part of a value model, so the copy is the value itself.
   */
  function From(p: Point): (r: Point)
    ensures Equals(r, p) && Equals(p, r)
  {
    Point(p.line, p.column)
  }

  /** `p.equals(q)`: same line and same column. */
  predicate Equals(p: Point, q: Point) {
    p.line == q.line && p.column == q.column
  }

  /** `p.before(q)`: p strictly precedes q in (line, column) order. */
  predicate Before(p: Point, q: Point) {
    if p.line < q.line then true
    else if p.line == q.line then p.column < q.column
    else false
  }

  /** `p.after(q)`: p strictly follows q in (line, column) order. */
  predicate After(p: Point, q: Point) {
    if p.line > q.line then true
    else if p.line == q.line then p.column > q.column
    else false
  }

  /** `equals` is exactly value equality of the two coordinates. */
  lemma EqualsIsIdentity(p: Point, q: Point)
    ensures Equals(p, q) <==> p == q
  {
  }

  /** `after` is `before` with its arguments swapped. */
  lemma AfterIsConverseOfBefore(p: Point, q: Point)
    ensures After(p, q) <==> Before(q, p)
  {
  }

  /** For any two points exactly one of before, equals and after holds. */
  lemma Trichotomy(p: Point, q: Point)
    ensures Before(p, q) || Equals(p, q) || After(p, q)
    ensures !(Before(p, q) && Equals(p, q))
    ensures !(Before(p, q) && After(p, q))
    ensures !(Equals(p, q) && After(p, q))
  {
  }

  /** `before` is a strict order: irreflexive and transitive. */
  lemma BeforeIsStrictOrder(p: Point, q: Point, r: Point)
    ensures !Before(p, p)
    ensures Before(p, q) && Before(q, r) ==> Before(p, r)
  {
  }
}
