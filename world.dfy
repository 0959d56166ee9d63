/** src/state/world.rs: the automaton engine. A toroidal grid of u32 cells
    stored row-major (index = width * y + x), a hard-coded seed written on
    resize, and one generation step under birth/survival rule lists with
    the Moore neighbourhood. */
module StateWorld {
  import opened Ints
  import opened CommonPoint

  // ---------------------------------------------------------------------
  // Integer arithmetic: Rust's truncating `%` and the toroidal wrap.

  function Abs(n: int): int { if n < 0 then -n else n }

  lemma {:induction false} MulAtLeast(a: int, m: int)
    requires a >= 1 && m > 0
    ensures a * m >= m
    decreases a
  {
    if a > 1 {
      MulAtLeast(a - 1, m);
      assert a * m == (a - 1) * m + m;
    }
  }

  /** Quotient and remainder are unique: n == k * m + r with 0 <= r < m
      fixes Dafny's (Euclidean) n / m and n % m. */
  lemma DivModUnique(n: int, m: int, r: int, k: int)
    requires m > 0 && 0 <= r < m && n == k * m + r
    ensures n % m == r && n / m == k
  {
    var q, s := n / m, n % m;
    assert n == q * m + s;
    if k > q {
      assert (k - q) * m == k * m - q * m;
      MulAtLeast(k - q, m);
    } else if k < q {
      assert (q - k) * m == q * m - k * m;
      MulAtLeast(q - k, m);
    }
  }

  /** Rust's `%` on integers: division truncates toward zero, so the
      remainder takes the sign of the dividend. (Dafny's `%` is Euclidean.) */
  function RustRem(n: int, m: int): (r: int)
    requires m != 0
    ensures -Abs(m) < r < Abs(m)
    ensures n >= 0 ==> r >= 0
    ensures n < 0 ==> r <= 0
  {
    var q := Abs(n) % Abs(m);
    if n < 0 then -q else q
  }

  /** Rust's `/` on integers, truncating toward zero. */
  function RustQuot(n: int, m: int): int
    requires m != 0
  {
    var q := Abs(n) / Abs(m);
    if (n < 0) == (m < 0) then q else -q
  }

  /** The truncating quotient and remainder recompose the dividend. */
  lemma RustDivMod(n: int, m: int)
    requires m != 0
    ensures n == m * RustQuot(n, m) + RustRem(n, m)
  {
    var a, b := Abs(n), Abs(m);
    assert a == b * (a / b) + a % b;
  }

  /** `toroidal_mod`: wraps n into [0, m) by adding m to a negative remainder. */
  function ToroidalMod(n: i32, m: i32): (r: i32)
    requires m > 0
    ensures 0 <= r < m
  {
    var modulus := RustRem(n, m);
    if modulus < 0 then m + modulus else modulus
  }

  /** The wrap agrees with the Euclidean remainder, so it is congruent to n
      modulo m, and it leaves an n already in [0, m) unchanged. */
  lemma ToroidalModIsEuclidean(n: i32, m: i32)
    requires m > 0
    ensures ToroidalMod(n, m) == n % m
    ensures 0 <= n < m ==> ToroidalMod(n, m) == n
  {
    if n < 0 {
      var a: int := -(n as int);
      var q, s := a / m, a % m;
      assert a == m * q + s;
      if s == 0 {
        DivModUnique(n, m, 0, -q);
      } else {
        DivModUnique(n, m, m - s, -q - 1);
      }
    } else if n < m {
      DivModUnique(n, m, n, 0);
    }
  }

  // ---------------------------------------------------------------------
  // Row-major indexing.

  lemma RowMajorInRange(w: int, h: int, x: int, y: int)
    requires 0 <= x < w && 0 <= y < h
    ensures 0 <= w * y + x < w * h
  {
    assert (h - y) * w == w * h - w * y;
    MulAtLeast(h - y, w);
    if y > 0 {
      MulAtLeast(y, w);
    }
  }

  /** The column of index i in rows of width w: i with whole rows taken off. */
  function Column(i: int, w: int): (x: int)
    requires w > 0 && i >= 0
    ensures 0 <= x < w
    decreases i
  {
    if i < w then i else Column(i - w, w)
  }

  /** The row of index i: how many whole rows of width w come before it. */
  function Row(i: int, w: int): nat
    requires w > 0 && i >= 0
    decreases i
  {
    if i < w then 0 else 1 + Row(i - w, w)
  }

  /** Every index is w * row + column. */
  lemma {:induction false} RowColumnSplit(w: int, i: int)
    requires w > 0 && i >= 0
    ensures i == w * Row(i, w) + Column(i, w)
  {
    if i >= w {
      RowColumnSplit(w, i - w);
      assert w * (Row(i - w, w) + 1) == w * Row(i - w, w) + w;
    }
  }

  /** An index of a w-by-h grid has its row below h. */
  lemma RowColumnOfIndex(w: int, h: int, i: int)
    requires 0 < w && 0 <= h && 0 <= i < w * h
    ensures i == w * Row(i, w) + Column(i, w) && Row(i, w) < h
  {
    RowColumnSplit(w, i);
    assert w * Row(i, w) - w * h == w * (Row(i, w) - h);
  }

  /** The cell at column x of row y has index w * y + x, and that index
      gives back x and y. */
  lemma {:induction false} RowColumnOfCell(w: int, x: int, y: int)
    requires 0 <= x < w && 0 <= y
    ensures 0 <= w * y + x
    ensures Column(w * y + x, w) == x && Row(w * y + x, w) == y
  {
    if y > 0 {
      MulAtLeast(y, w);
      assert w * y + x - w == w * (y - 1) + x;
      RowColumnOfCell(w, x, y - 1);
    }
  }

  /** Column and row are the remainder and the quotient of Euclidean division. */
  lemma ColumnRowAreDivMod(w: int, i: int)
    requires w > 0 && i >= 0
    ensures Column(i, w) == i % w && Row(i, w) == i / w
  {
    RowColumnSplit(w, i);
    DivModUnique(i, w, Column(i, w), Row(i, w));
  }

  // ---------------------------------------------------------------------
  // The Moore neighbourhood on the torus: a reference definition built on
  // Dafny's Euclidean `%`, independent of the source's steps and wrap.

  /** The index of cell (x, y) after wrapping both coordinates. */
  function WrappedIndex(w: int, h: int, x: int, y: int): (i: int)
    requires w > 0 && h > 0
    ensures 0 <= i < w * h
  {
    RowMajorInRange(w, h, x % w, y % h);
    w * (y % h) + x % w
  }

  /** The column and row offsets of the eight neighbours, in the order the
      source visits them: left, right, up, up-left, up-right, down,
      down-left, down-right. */
  const DX: seq<int> := [-1, 1, 0, -1, 1, 0, -1, 1]
  const DY: seq<int> := [0, 0, -1, -1, -1, 1, 1, 1]

  /** The index of the k-th neighbour of (x, y) on the torus. */
  function NeighbourIndex(w: int, h: int, x: int, y: int, k: nat): (i: int)
    requires w > 0 && h > 0 && k < 8
    ensures 0 <= i < w * h
  {
    WrappedIndex(w, h, x + DX[k], y + DY[k])
  }

  /** The indices of the eight neighbours of (x, y); on a grid narrower or
      lower than 3 an index may occur more than once. */
  function TorusNeighbours(w: int, h: int, x: int, y: int): (r: seq<int>)
    requires w > 0 && h > 0
    ensures |r| == 8 && forall k :: 0 <= k < 8 ==> 0 <= r[k] < w * h
  {
    seq(8, k requires 0 <= k < 8 => NeighbourIndex(w, h, x, y, k))
  }

  /** How many of the first k neighbours of (x, y) are alive (non-zero);
      a neighbour index that occurs twice is counted twice. */
  function LiveAmong(cells: seq<u32>, w: int, h: int, x: int, y: int, k: nat): (n: nat)
    requires w > 0 && h > 0 && |cells| == w * h && k <= 8
    ensures n <= k
  {
    if k == 0 then 0
    else
      LiveAmong(cells, w, h, x, y, k - 1)
      + (if cells[NeighbourIndex(w, h, x, y, k - 1)] != 0 then 1 else 0)
  }

  /** The number of live cells in the Moore neighbourhood of (x, y) on the torus. */
  function LiveNeighbours(cells: seq<u32>, w: int, h: int, x: int, y: int): (n: nat)
    requires w > 0 && h > 0 && |cells| == w * h
    ensures n <= 8
  {
    LiveAmong(cells, w, h, x, y, 8)
  }

  /** The next state of one cell: a dead (0) cell is born when its count is in
      the birth list, any other cell survives when its count is in the
      survival list; the result is always 0 or 1. */
  function NextCell(cell: u32, count: nat, birth: seq<u32>, survival: seq<u32>): u32
  {
    if cell == 0 then (if count in birth then 1 else 0)
    else (if count in survival then 1 else 0)
  }

  /** The rule's result is 0 or 1, and 1 exactly for a birth or a survival. */
  lemma NextCellRule(cell: u32, count: nat, birth: seq<u32>, survival: seq<u32>)
    ensures var r := NextCell(cell, count, birth, survival);
      && (r == 0 || r == 1)
      && (r == 1 <==> (cell == 0 && count in birth) || (cell != 0 && count in survival))
  {
  }

  /** One generation of the whole grid, computed from the old cells only. */
  function Step(cells: seq<u32>, w: int, h: int, birth: seq<u32>, survival: seq<u32>): (r: seq<u32>)
    requires 0 <= w && 0 <= h && |cells| == w * h
    ensures |r| == |cells|
  {
    if w == 0 || h == 0 then []
    else
      seq(|cells|, i requires 0 <= i < |cells| =>
        NextCell(cells[i], LiveNeighbours(cells, w, h, Column(i, w), Row(i, w)), birth, survival))
  }

  // ---------------------------------------------------------------------
  // The source's own neighbour computation.

  /** `transform_toroidal_point`: wraps each coordinate by `toroidal_mod`. */
  function TransformToroidalPoint(size: Point, p: Point): (q: Point)
    requires size.x > 0 && size.y > 0
    ensures 0 <= q.x < size.x && 0 <= q.y < size.y
  {
    Point(ToroidalMod(p.x, size.x), ToroidalMod(p.y, size.y))
  }

  /** The row-major index `width * y + x` of a point inside the grid. */
  function CellIndex(size: Point, p: Point): int
  {
    size.x * p.y + p.x
  }

  /** Wrapping a point with the source's `toroidal_mod` lands on the same
      cell as the Euclidean reference. */
  lemma TransformedIndexIsWrapped(size: Point, p: Point)
    requires size.x > 0 && size.y > 0
    ensures CellIndex(size, TransformToroidalPoint(size, p)) == WrappedIndex(size.x, size.y, p.x, p.y)
  {
    ToroidalModIsEuclidean(p.x, size.x);
    ToroidalModIsEuclidean(p.y, size.y);
  }

  /** `get_neighbour_indices`: the eight unit steps of p, wrapped, turned into
      row-major indices. They are exactly the reference Moore neighbourhood on
      the torus, so all eight lie in [0, width * height). */
  function GetNeighbourIndices(size: Point, p: Point): (r: seq<int>)
    requires size.x > 0 && size.y > 0
    requires I32_MIN < p.x < I32_MAX && I32_MIN < p.y < I32_MAX
    ensures r == TorusNeighbours(size.x, size.y, p.x, p.y)
  {
    TransformedIndexIsWrapped(size, Left(p));
    TransformedIndexIsWrapped(size, Right(p));
    TransformedIndexIsWrapped(size, Up(p));
    TransformedIndexIsWrapped(size, UpLeft(p));
    TransformedIndexIsWrapped(size, UpRight(p));
    TransformedIndexIsWrapped(size, Down(p));
    TransformedIndexIsWrapped(size, DownLeft(p));
    TransformedIndexIsWrapped(size, DownRight(p));
    [ CellIndex(size, TransformToroidalPoint(size, Left(p))),
      CellIndex(size, TransformToroidalPoint(size, Right(p))),
      CellIndex(size, TransformToroidalPoint(size, Up(p))),
      CellIndex(size, TransformToroidalPoint(size, UpLeft(p))),
      CellIndex(size, TransformToroidalPoint(size, UpRight(p))),
      CellIndex(size, TransformToroidalPoint(size, Down(p))),
      CellIndex(size, TransformToroidalPoint(size, DownLeft(p))),
      CellIndex(size, TransformToroidalPoint(size, DownRight(p))) ]
  }

  /** Each cell of a step is the rule applied to that cell and its own
      neighbour count. */
  lemma StepIndex(cells: seq<u32>, w: int, h: int, birth: seq<u32>, survival: seq<u32>, i: int)
    requires 0 <= w && 0 <= h && |cells| == w * h && 0 <= i < w * h
    ensures w > 0 && h > 0
    ensures Step(cells, w, h, birth, survival)[i]
      == NextCell(cells[i], LiveNeighbours(cells, w, h, Column(i, w), Row(i, w)), birth, survival)
  {
  }

  /** Every generation's cells are 0 or 1. */
  lemma StepIsBinary(cells: seq<u32>, w: int, h: int, birth: seq<u32>, survival: seq<u32>, i: int)
    requires 0 <= w && 0 <= h && |cells| == w * h && 0 <= i < w * h
    ensures Step(cells, w, h, birth, survival)[i] == 0 || Step(cells, w, h, birth, survival)[i] == 1
  {
    StepIndex(cells, w, h, birth, survival, i);
  }

  /** The cell at (x, y), index i = w * y + x, is 1 after a step exactly when
      it was dead and its live-neighbour count is a birth count, or it was
      alive and the count is a survival count; otherwise it is 0. */
  lemma StepAt(cells: seq<u32>, w: int, h: int, birth: seq<u32>, survival: seq<u32>, x: int, y: int, i: int)
    requires 0 <= x < w && 0 <= y < h && |cells| == w * h && i == w * y + x
    ensures 0 <= i < |cells|
    ensures Step(cells, w, h, birth, survival)[i]
      == NextCell(cells[i], LiveNeighbours(cells, w, h, x, y), birth, survival)
    ensures var n, next := LiveNeighbours(cells, w, h, x, y), Step(cells, w, h, birth, survival)[i];
      && (next == 1 <==> (cells[i] == 0 && n in birth) || (cells[i] != 0 && n in survival))
      && (next == 0 || next == 1)
  {
    RowMajorInRange(w, h, x, y);
    RowColumnOfCell(w, x, y);
    assert Column(i, w) == x && Row(i, w) == y;
    StepIndex(cells, w, h, birth, survival, i);
    var n := LiveNeighbours(cells, w, h, x, y);
    assert Step(cells, w, h, birth, survival)[i] == NextCell(cells[i], n, birth, survival);
    NextCellRule(cells[i], n, birth, survival);
  }

  /** Conway's rules B3/S23 (with StepAt, for any cell of a step): a dead
      cell with exactly 3 live neighbours is born, one with 2 or 4 is not, a
      live cell with 2 or 3 survives and a lone live cell dies. */
  lemma ConwayCases(cell: u32, count: nat)
    ensures cell == 0 && count == 3 ==> NextCell(cell, count, [3], [2, 3]) == 1
    ensures cell == 0 && (count == 2 || count == 4) ==> NextCell(cell, count, [3], [2, 3]) == 0
    ensures cell != 0 && (count == 2 || count == 3) ==> NextCell(cell, count, [3], [2, 3]) == 1
    ensures cell != 0 && count == 0 ==> NextCell(cell, count, [3], [2, 3]) == 0
  {
  }

  /** A grid with no cells stays empty. */
  lemma EmptyGridStep(cells: seq<u32>, w: int, h: int, birth: seq<u32>, survival: seq<u32>)
    requires 0 <= w && 0 <= h && |cells| == w * h && (w == 0 || h == 0)
    ensures Step(cells, w, h, birth, survival) == []
  {
  }

  /** `generations` steps in a row. */
  function Run(cells: seq<u32>, w: int, h: int, birth: seq<u32>, survival: seq<u32>, generations: nat): (r: seq<u32>)
    requires 0 <= w && 0 <= h && |cells| == w * h
    ensures |r| == |cells|
  {
    if generations == 0 then cells
    else Step(Run(cells, w, h, birth, survival, generations - 1), w, h, birth, survival)
  }

  /** With an empty birth list a step never makes a dead cell alive. */
  lemma StepWithoutBirth(cells: seq<u32>, w: int, h: int, survival: seq<u32>, i: int)
    requires 0 <= w && 0 <= h && |cells| == w * h && 0 <= i < w * h
    ensures Step(cells, w, h, [], survival)[i] != 0 ==> cells[i] != 0
  {
    StepIndex(cells, w, h, [], survival, i);
  }

  /** With an empty birth list no cell is ever born: after any number of
      generations every live cell was already alive at the start. */
  lemma {:induction false} NoBirthWithoutBirthRule(cells: seq<u32>, w: int, h: int, survival: seq<u32>, generations: nat, i: int)
    requires 0 <= w && 0 <= h && |cells| == w * h && 0 <= i < w * h
    ensures Run(cells, w, h, [], survival, generations)[i] != 0 ==> cells[i] != 0
  {
    if generations > 0 {
      NoBirthWithoutBirthRule(cells, w, h, survival, generations - 1, i);
      StepWithoutBirth(Run(cells, w, h, [], survival, generations - 1), w, h, survival, i);
    }
  }

  /** `next` holds, at the row-major index i = w * y + x of every cell
      (x, y), the rule applied to that cell and its live-neighbour count. */
  ghost predicate RuleAppliedAt(next: seq<u32>, cells: seq<u32>, w: int, h: int, birth: seq<u32>, survival: seq<u32>)
    requires 0 <= w && 0 <= h && |cells| == w * h
  {
    && |next| == |cells|
    && forall x, y, i {:trigger next[i], LiveNeighbours(cells, w, h, x, y)} ::
         0 <= x < w && 0 <= y < h && i == w * y + x && 0 <= i < |cells| ==>
         next[i] == NextCell(cells[i], LiveNeighbours(cells, w, h, x, y), birth, survival)
  }

  /** A step applies the rule at every cell ... */
  lemma StepAppliesRule(cells: seq<u32>, w: int, h: int, birth: seq<u32>, survival: seq<u32>)
    requires 0 <= w && 0 <= h && |cells| == w * h
    ensures RuleAppliedAt(Step(cells, w, h, birth, survival), cells, w, h, birth, survival)
  {
    forall x, y, i | 0 <= x < w && 0 <= y < h && i == w * y + x && 0 <= i < |cells|
      ensures Step(cells, w, h, birth, survival)[i]
        == NextCell(cells[i], LiveNeighbours(cells, w, h, x, y), birth, survival)
    {
      StepAt(cells, w, h, birth, survival, x, y, i);
    }
  }

  /** Some grid applies the rule at every cell (a step does). */
  lemma RuleApplied(cells: seq<u32>, w: int, h: int, birth: seq<u32>, survival: seq<u32>) returns (next: seq<u32>)
    requires 0 <= w && 0 <= h && |cells| == w * h
    ensures RuleAppliedAt(next, cells, w, h, birth, survival)
  {
    next := Step(cells, w, h, birth, survival);
    StepAppliesRule(cells, w, h, birth, survival);
  }

  /** ... and it is the only grid that does. */
  lemma RuleAppliedIsStep(next: seq<u32>, cells: seq<u32>, w: int, h: int, birth: seq<u32>, survival: seq<u32>)
    requires 0 <= w && 0 <= h && |cells| == w * h
    requires RuleAppliedAt(next, cells, w, h, birth, survival)
    ensures next == Step(cells, w, h, birth, survival)
  {
    var r := Step(cells, w, h, birth, survival);
    forall j | 0 <= j < |next|
      ensures next[j] == r[j]
    {
      StepIndex(cells, w, h, birth, survival, j);
      RowColumnOfIndex(w, h, j);
    }
  }

  // ---------------------------------------------------------------------
  // The world object.

  /** The indices `resize` sets to 1, in the order it writes them. */
  function SeedIndices(w: int): seq<int>
  {
    [w * 5 + 3, w * 5 + 4, w * 6 + 4, w * 6 + 5, w * 7 + 4]
  }

  class World {
    var size: Point
    var cells: seq<u32>
    var birthRule: seq<u32>
    var survivalRule: seq<u32>

    /** The grid holds one cell per (x, y) and its size fits the i32 arithmetic
        of `update`. */
    ghost predicate Valid()
      reads this
    {
      0 <= size.x && 0 <= size.y && size.x * size.y <= I32_MAX && |cells| == size.x * size.y
    }

    /** `new`: an empty 0x0 grid with Conway's rules B3/S23. */
    constructor ()
      ensures Valid()
      ensures size == Point(0, 0) && cells == []
      ensures birthRule == [3] && survivalRule == [2, 3]
    {
      size := Point(0, 0);
      cells := [];
      birthRule := [3];
      survivalRule := [2, 3];
    }

    /** `resize`: a fresh all-dead grid of the new size with the five seed
        cells set. The source indexes the new vector directly, so it panics
        unless every seed index is inside the grid. */
    method Resize(newSize: Point)
      requires 0 <= newSize.x && 0 <= newSize.y && newSize.x * newSize.y <= I32_MAX
      requires forall i <- SeedIndices(newSize.x) :: i < newSize.x * newSize.y
      modifies this
      ensures size == newSize
      ensures |cells| == newSize.x * newSize.y
      ensures forall i :: 0 <= i < |cells| ==> cells[i] == if i in SeedIndices(newSize.x) then 1 else 0
      ensures Valid()
      ensures birthRule == old(birthRule) && survivalRule == old(survivalRule)
    {
      var w: int := newSize.x;
      assert w * 5 + 3 in SeedIndices(w) && w * 5 + 4 in SeedIndices(w) && w * 6 + 4 in SeedIndices(w);
      assert w * 6 + 5 in SeedIndices(w) && w * 7 + 4 in SeedIndices(w);
      var n := newSize.x * newSize.y;
      assert 0 <= n;
      cells := seq(n, _ => 0);
      cells := cells[w * 5 + 3 := 1];
      cells := cells[w * 5 + 4 := 1];
      cells := cells[w * 6 + 4 := 1];
      cells := cells[w * 6 + 5 := 1];
      cells := cells[w * 7 + 4 := 1];
      assert |cells| == n;
      ghost var seeds := SeedIndices(w);
      forall i | 0 <= i < n
        ensures cells[i] == if i in seeds then 1 else 0
      {
        if i !in seeds {
          assert i != w * 5 + 3 && i != w * 5 + 4 && i != w * 6 + 4 && i != w * 6 + 5 && i != w * 7 + 4;
        }
      }
      size := newSize;
    }

    /** `count_neighbor_cells`: counts the non-zero cells among the eight
        neighbour indices. */
    method CountNeighbourCells(p: Point) returns (count: u32)
      requires Valid() && 0 < size.x && 0 < size.y
      requires I32_MIN < p.x < I32_MAX && I32_MIN < p.y < I32_MAX
      ensures count == LiveNeighbours(cells, size.x, size.y, p.x, p.y)
      ensures count <= 8
    {
      count := 0;
      var neighbourIndices := GetNeighbourIndices(size, p);
      var k := 0;
      while k < |neighbourIndices|
        invariant 0 <= k <= |neighbourIndices|
        invariant count == LiveAmong(cells, size.x, size.y, p.x, p.y, k)
      {
        if cells[neighbourIndices[k]] != 0 {
          count := count + 1;
        }
        k := k + 1;
      }
    }

    /** `update`: one generation. Every new cell is written into a separate
        buffer computed from the old cells alone, which then replaces them. */
    method Update()
      requires Valid()
      modifies this
      ensures Valid()
      ensures size == old(size) && birthRule == old(birthRule) && survivalRule == old(survivalRule)
      ensures cells == Step(old(cells), size.x, size.y, birthRule, survivalRule)
    {
      var w: int, h: int := size.x, size.y;
      var newCells := new u32[w * h](_ => 0);
      ghost var next := RuleApplied(cells, w, h, birthRule, survivalRule);
      var y := 0;
      ghost var rowStart := 0;
      while y < h
        modifies newCells
        invariant 0 <= y <= h && rowStart == w * y
        invariant rowStart <= |next| == |cells| == newCells.Length
        invariant forall j :: 0 <= j < rowStart ==> newCells[j] == next[j]
      {
        if w > 0 {
          RowMajorInRange(w, h, w - 1, y);
        }
        var x := 0;
        while x < w
          modifies newCells
          invariant 0 <= x <= w
          invariant rowStart + w <= |next| == newCells.Length
          invariant forall j :: 0 <= j < rowStart + x ==> newCells[j] == next[j]
        {
          var i: int := w * y + x;
          RowMajorInRange(w, h, x, y);
          var cell := cells[i];
          var neighbourCellCount := CountNeighbourCells(Point(x, y));
          assert next[i] == NextCell(cell, neighbourCellCount, birthRule, survivalRule);
          if cell == 0 {
            if neighbourCellCount in birthRule {
              newCells[i] := 1;
            } else {
              newCells[i] := 0;
            }
          } else {
            if neighbourCellCount in survivalRule {
              newCells[i] := 1;
            } else {
              newCells[i] := 0;
            }
          }
          assert i == rowStart + x && newCells[i] == next[i];
          x := x + 1;
        }
        rowStart := rowStart + w;
        y := y + 1;
      }
      assert newCells[..] == next;
      RuleAppliedIsStep(next, cells, w, h, birthRule, survivalRule);
      cells := newCells[..];
    }
  }

  /** A new world has the empty grid and `update` leaves it empty. */
  method UpdateOnNewWorld() returns (world: World)
    ensures fresh(world) && world.Valid()
    ensures world.size == Point(0, 0) && world.cells == []
  {
    world := new World();
    world.Update();
  }
}
