/** src/common.rs: the screen coordinate `Point2`, absolute rectangles and
    their intersection, and two display constants. */
module Common {
  import opened Ints

  datatype Point2 = Point2(x: i32, y: i32)

  /** The size of one cell on the terminal, in character columns and rows. */
  const TILE_SIZE: Point2 := Point2(3, 1)
  const FRAMES_PER_SECOND: u16 := 8

  function New(x: i32, y: i32): Point2 { Point2(x, y) }
  function Width(p: Point2): i32 { p.x }
  function Height(p: Point2): i32 { p.y }

  function Left(p: Point2): Point2 requires p.x > I32_MIN { Point2(p.x - 1, p.y) }
  function Right(p: Point2): Point2 requires p.x < I32_MAX { Point2(p.x + 1, p.y) }
  function Up(p: Point2): Point2 requires p.y > I32_MIN { Point2(p.x, p.y - 1) }
  function Down(p: Point2): Point2 requires p.y < I32_MAX { Point2(p.x, p.y + 1) }

  function Add(p: Point2, q: Point2): Point2
    requires IsI32(p.x + q.x) && IsI32(p.y + q.y)
  {
    Point2(p.x + q.x, p.y + q.y)
  }

  function Sub(p: Point2, q: Point2): Point2
    requires IsI32(p.x - q.x) && IsI32(p.y - q.y)
  {
    Point2(p.x - q.x, p.y - q.y)
  }

  lemma SizeAccessors(w: i32, h: i32)
    ensures Width(New(w, h)) == w && Height(New(w, h)) == h
    ensures Width(TILE_SIZE) == 3 && Height(TILE_SIZE) == 1
  {
  }

  /** Each step moves one unit along its own axis and leaves the other axis alone. */
  lemma StepsMoveOneAxis(p: Point2)
    requires I32_MIN < p.x < I32_MAX && I32_MIN < p.y < I32_MAX
    ensures Left(p) == Add(p, Point2(-1, 0)) && Right(p) == Add(p, Point2(1, 0))
    ensures Up(p) == Add(p, Point2(0, -1)) && Down(p) == Add(p, Point2(0, 1))
    ensures Right(Left(p)) == p && Down(Up(p)) == p
  {
  }

  lemma AddSubCancel(p: Point2, q: Point2)
    requires IsI32(p.x + q.x) && IsI32(p.y + q.y)
    ensures Add(p, q) == Add(q, p)
    ensures Sub(Add(p, q), q) == p
  {
  }

  /** `RectAbsolute<W>`: a rectangle given by two corners. Nothing keeps
      x1 <= x2 or y1 <= y2. */
  datatype RectAbsolute<W> = RectAbsolute(x1: W, y1: W, x2: W, y2: W)

  function Max(a: int, b: int): int { if a >= b then a else b }
  function Min(a: int, b: int): int { if a <= b then a else b }

  /** The overlap of two rectangles: the later top-left corner and the
      earlier bottom-right corner. The result may be empty (x1 > x2 or
      y1 > y2); that is not an error. */
  function Intersect(r1: RectAbsolute<i32>, r2: RectAbsolute<i32>): (r: RectAbsolute<i32>)
    ensures r.x1 >= r1.x1 && r.x1 >= r2.x1 && (r.x1 == r1.x1 || r.x1 == r2.x1)
    ensures r.y1 >= r1.y1 && r.y1 >= r2.y1 && (r.y1 == r1.y1 || r.y1 == r2.y1)
    ensures r.x2 <= r1.x2 && r.x2 <= r2.x2 && (r.x2 == r1.x2 || r.x2 == r2.x2)
    ensures r.y2 <= r1.y2 && r.y2 <= r2.y2 && (r.y2 == r1.y2 || r.y2 == r2.y2)
  {
    RectAbsolute(Max(r1.x1, r2.x1), Max(r1.y1, r2.y1), Min(r1.x2, r2.x2), Min(r1.y2, r2.y2))
  }

  /** A cell (x, y) lies in a rectangle when it is between both corners. */
  predicate Contains(r: RectAbsolute<i32>, x: int, y: int)
  {
    r.x1 <= x <= r.x2 && r.y1 <= y <= r.y2
  }

  /** The intersection contains exactly the cells that both rectangles contain. */
  lemma IntersectContains(r1: RectAbsolute<i32>, r2: RectAbsolute<i32>, x: int, y: int)
    ensures Contains(Intersect(r1, r2), x, y) <==> Contains(r1, x, y) && Contains(r2, x, y)
  {
  }

  lemma IntersectCommutative(r1: RectAbsolute<i32>, r2: RectAbsolute<i32>)
    ensures Intersect(r1, r2) == Intersect(r2, r1)
  {
  }

  lemma IntersectAssociative(r1: RectAbsolute<i32>, r2: RectAbsolute<i32>, r3: RectAbsolute<i32>)
    ensures Intersect(Intersect(r1, r2), r3) == Intersect(r1, Intersect(r2, r3))
  {
  }

  lemma IntersectIdempotent(r: RectAbsolute<i32>)
    ensures Intersect(r, r) == r
  {
  }
}
