// The integer point value type used by the contour tracer: a pair of
// coordinates with componentwise addition and subtraction and equality
// by value. Coordinates stay within [-1, dimension] during a trace, so
// plain unbounded integers stand for the source's 32-bit fields.

module Points {

  datatype Point = Point(x: int, y: int)

  const Origin := Point(0, 0)

  /** Operator `-`: the offset that leads from `b` to `a`. */
  function Sub(a: Point, b: Point): (r: Point)
    ensures r == Origin <==> a == b
  {
    Point(a.x - b.x, a.y - b.y)
  }

  /** Operator `+`: `a` moved by the offset `b`. */
  function Add(a: Point, b: Point): Point
  {
    Point(a.x + b.x, a.y + b.y)
  }

  /** Operator `==`: fieldwise comparison, which is exactly value equality. */
  function Eq(a: Point, b: Point): (r: bool)
    ensures r <==> a == b
  {
    a.x == b.x && a.y == b.y
  }

  /** Operator `!=`: the negation of `==`. */
  function NotEq(a: Point, b: Point): (r: bool)
    ensures r <==> a != b
  {
    !Eq(a, b)
  }

  /** Moving `b` by the offset from `b` to `a` lands on `a`, and the other way round. */
  lemma SubAddRoundTrip(a: Point, b: Point)
    ensures Add(Sub(a, b), b) == a
    ensures Sub(Add(a, b), b) == a
  {
  }

  lemma AddCommutes(a: Point, b: Point)
    ensures Add(a, b) == Add(b, a)
  {
  }

  lemma SubSelf(a: Point)
    ensures Sub(a, a) == Origin
  {
  }
}
