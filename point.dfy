/** The grid coordinate of src/common/point.rs: an (x, y) pair of i32 values.
    Its unit steps and `+`/`-` panic on i32 overflow, which the model turns
    into preconditions. */
module CommonPoint {
  import opened Ints

  datatype Point = Point(x: i32, y: i32)

  function New(x: i32, y: i32): Point
  {
    Point(x, y)
  }

  /** A point used as a size: its width is x and its height is y. */
  function Width(p: Point): i32 { p.x }
  function Height(p: Point): i32 { p.y }

  lemma SizeAccessors(w: i32, h: i32)
    ensures Width(New(w, h)) == w && Height(New(w, h)) == h
  {
  }

  // The eight one-cell steps. `up` decreases y: the grid grows downwards.

  function Left(p: Point): Point requires p.x > I32_MIN { Point(p.x - 1, p.y) }
  function Right(p: Point): Point requires p.x < I32_MAX { Point(p.x + 1, p.y) }
  function Up(p: Point): Point requires p.y > I32_MIN { Point(p.x, p.y - 1) }
  function Down(p: Point): Point requires p.y < I32_MAX { Point(p.x, p.y + 1) }
  function UpLeft(p: Point): Point requires p.x > I32_MIN && p.y > I32_MIN { Point(p.x - 1, p.y - 1) }
  function UpRight(p: Point): Point requires p.x < I32_MAX && p.y > I32_MIN { Point(p.x + 1, p.y - 1) }
  function DownLeft(p: Point): Point requires p.x > I32_MIN && p.y < I32_MAX { Point(p.x - 1, p.y + 1) }
  function DownRight(p: Point): Point requires p.x < I32_MAX && p.y < I32_MAX { Point(p.x + 1, p.y + 1) }

  /** `Add` and `Sub`, owned and by reference alike (both impls have the same body). */
  function Add(p: Point, q: Point): Point
    requires IsI32(p.x + q.x) && IsI32(p.y + q.y)
  {
    Point(p.x + q.x, p.y + q.y)
  }

  function Sub(p: Point, q: Point): Point
    requires IsI32(p.x - q.x) && IsI32(p.y - q.y)
  {
    Point(p.x - q.x, p.y - q.y)
  }

  /** Every step is the addition of its unit vector. */
  lemma StepsAreUnitOffsets(p: Point)
    requires I32_MIN < p.x < I32_MAX && I32_MIN < p.y < I32_MAX
    ensures Left(p) == Add(p, Point(-1, 0)) && Right(p) == Add(p, Point(1, 0))
    ensures Up(p) == Add(p, Point(0, -1)) && Down(p) == Add(p, Point(0, 1))
    ensures UpLeft(p) == Add(p, Point(-1, -1)) && UpRight(p) == Add(p, Point(1, -1))
    ensures DownLeft(p) == Add(p, Point(-1, 1)) && DownRight(p) == Add(p, Point(1, 1))
  {
  }

  /** A diagonal step is an orthogonal step in each axis, in either order. */
  lemma DiagonalsCompose(p: Point)
    requires I32_MIN < p.x < I32_MAX && I32_MIN < p.y < I32_MAX
    ensures UpLeft(p) == Left(Up(p)) == Up(Left(p))
    ensures UpRight(p) == Right(Up(p)) == Up(Right(p))
    ensures DownLeft(p) == Left(Down(p)) == Down(Left(p))
    ensures DownRight(p) == Right(Down(p)) == Down(Right(p))
  {
  }

  /** Opposite steps cancel. */
  lemma OppositesCancel(p: Point)
    requires I32_MIN < p.x < I32_MAX && I32_MIN < p.y < I32_MAX
    ensures Down(Up(p)) == p && Up(Down(p)) == p
    ensures Right(Left(p)) == p && Left(Right(p)) == p
    ensures DownRight(UpLeft(p)) == p && UpLeft(DownRight(p)) == p
    ensures DownLeft(UpRight(p)) == p && UpRight(DownLeft(p)) == p
  {
  }

  lemma AddCommutes(p: Point, q: Point)
    requires IsI32(p.x + q.x) && IsI32(p.y + q.y)
    ensures Add(p, q) == Add(q, p)
  {
  }

  /** Subtracting what was added gives the point back, and conversely. */
  lemma AddSubCancel(p: Point, q: Point)
    requires IsI32(p.x + q.x) && IsI32(p.y + q.y)
    ensures Sub(Add(p, q), q) == p
  {
  }

  lemma SubAddCancel(p: Point, q: Point)
    requires IsI32(p.x - q.x) && IsI32(p.y - q.y)
    ensures Add(Sub(p, q), q) == p
  {
  }

  /** The derived `Ord` of a struct compares its fields in declaration order:
      x first, then y. */
  datatype Ordering = Less | Equal | Greater

  function CmpInt(a: int, b: int): Ordering
  {
    if a < b then Less else if a == b then Equal else Greater
  }

  function Cmp(p: Point, q: Point): Ordering
  {
    if CmpInt(p.x, q.x) != Equal then CmpInt(p.x, q.x) else CmpInt(p.y, q.y)
  }

  predicate Lt(p: Point, q: Point) { Cmp(p, q) == Less }

  /** `Cmp` is a lexicographic total order: it says Equal exactly for equal
      points, it is antisymmetric, and Lt is transitive. */
  lemma CmpIsLexicographic(p: Point, q: Point)
    ensures Cmp(p, q) == Equal <==> p == q
    ensures Lt(p, q) <==> p.x < q.x || (p.x == q.x && p.y < q.y)
    ensures Cmp(p, q) == Less <==> Cmp(q, p) == Greater
  {
  }

  lemma LtTransitive(p: Point, q: Point, r: Point)
    requires Lt(p, q) && Lt(q, r)
    ensures Lt(p, r)
  {
  }
}
