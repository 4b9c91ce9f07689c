/** The playing field as a value: a `w` x `h` grid of marks, stored row by
    row so that `rows[y][x]` is the cell in column `x` of row `y`, like
    `field[y][x]` in Map.java. Beside the grid itself this module holds what
    the win detector decides: when `len` cells in a line hold one mark, when
    some line of the board does, when no cell is empty, and which empty cell
    is the first (in row-major order) at which one more mark would win. */
module Board {
  import opened Enums

  datatype Option<T> = None | Some(value: T)

  datatype Grid = Grid(w: nat, h: nat, rows: seq<seq<Dot>>)

  /** `h` rows of `w` cells each. */
  ghost predicate Valid(g: Grid) {
    |g.rows| == g.h && forall y :: 0 <= y < g.h ==> |g.rows[y]| == g.w
  }

  predicate InBounds(g: Grid, x: int, y: int) {
    0 <= x < g.w && 0 <= y < g.h
  }

  function At(g: Grid, x: int, y: int): Dot
    requires Valid(g) && InBounds(g, x, y)
  {
    g.rows[y][x]
  }

  /** The grid with cell (x, y) set to `d` and every other cell as before. */
  function Place(g: Grid, x: int, y: int, d: Dot): (r: Grid)
    requires Valid(g) && InBounds(g, x, y)
    ensures Valid(r) && r.w == g.w && r.h == g.h
    ensures At(r, x, y) == d
    ensures forall x', y' :: InBounds(g, x', y') && (x' != x || y' != y) ==> At(r, x', y') == At(g, x', y')
  {
    Grid(g.w, g.h, g.rows[y := g.rows[y][x := d]])
  }

  /** A fresh `w` x `h` field: every cell empty. */
  function EmptyGrid(w: nat, h: nat): (g: Grid)
    ensures Valid(g) && g.w == w && g.h == h
    ensures forall x, y :: InBounds(g, x, y) ==> At(g, x, y) == Empty
  {
    Grid(w, h, seq(h, _ => seq(w, _ => Empty)))
  }

  /** The cell `i` steps from (x, y) in direction (vx, vy) is on the grid and holds `dot`. */
  ghost predicate StepIs(g: Grid, x: int, y: int, vx: int, vy: int, i: int, dot: Dot)
    requires Valid(g)
  {
    InBounds(g, x + i * vx, y + i * vy) && At(g, x + i * vx, y + i * vy) == dot
  }

  /** The line of `len` cells from (x, y) in direction (vx, vy): its end cell
      (x + (len-1)vx, y + (len-1)vy) is on the grid and each of its cells is
      on the grid and holds `dot`. */
  ghost predicate Run(g: Grid, x: int, y: int, vx: int, vy: int, len: int, dot: Dot)
    requires Valid(g)
  {
    && InBounds(g, x + (len - 1) * vx, y + (len - 1) * vy)
    && forall i :: 0 <= i < len ==> StepIs(g, x, y, vx, vy, i, dot)
  }

  /** A run of `dot` starts at (x, y) in one of the four scanned directions:
      right (1,0), down (0,1), down-right (1,1) and up-right (1,-1). */
  ghost predicate WinAt(g: Grid, x: int, y: int, len: int, dot: Dot)
    requires Valid(g)
  {
    || Run(g, x, y, 1, 0, len, dot)
    || Run(g, x, y, 0, 1, len, dot)
    || Run(g, x, y, 1, 1, len, dot)
    || Run(g, x, y, 1, -1, len, dot)
  }

  /** Some cell of the grid starts a run of `len` marks `dot`. */
  ghost predicate HasWin(g: Grid, len: int, dot: Dot)
    requires Valid(g)
  {
    exists x, y :: InBounds(g, x, y) && WinAt(g, x, y, len, dot)
  }

  /** No cell is empty. */
  ghost predicate Full(g: Grid)
    requires Valid(g)
  {
    forall x, y :: InBounds(g, x, y) ==> At(g, x, y) != Empty
  }

  /** (x1, y1) comes strictly before (x2, y2) in row-major order. */
  predicate RowMajorBefore(x1: int, y1: int, x2: int, y2: int) {
    y1 < y2 || (y1 == y2 && x1 < x2)
  }

  /** (x, y) is empty, and putting `dot` there gives `dot` a run. */
  ghost predicate WinningCell(g: Grid, len: int, dot: Dot, x: int, y: int)
    requires Valid(g)
  {
    InBounds(g, x, y) && At(g, x, y) == Empty && HasWin(Place(g, x, y, dot), len, dot)
  }

  /** The first winning cell for `dot` from (x, y) on, scanning rows top to
      bottom and each row left to right. */
  ghost function FirstWinningFrom(g: Grid, len: int, dot: Dot, x: nat, y: nat): Option<(int, int)>
    requires Valid(g)
    decreases g.h - y, g.w - x
  {
    if y >= g.h then None
    else if x >= g.w then FirstWinningFrom(g, len, dot, 0, y + 1)
    else if WinningCell(g, len, dot, x, y) then Some((x, y))
    else FirstWinningFrom(g, len, dot, x + 1, y)
  }

  /** The first winning cell for `dot` on the whole grid, in row-major order. */
  ghost function FirstWinning(g: Grid, len: int, dot: Dot): Option<(int, int)>
    requires Valid(g)
  {
    FirstWinningFrom(g, len, dot, 0, 0)
  }

  // ---------------------------------------------------------------------
  // Lemmas

  /** What the scan from (x, y) returns: the first winning cell at or after
      (x, y), or nothing when no cell at or after (x, y) wins. */
  lemma {:induction false} FirstWinningFromCorrect(g: Grid, len: int, dot: Dot, x: nat, y: nat)
    requires Valid(g)
    ensures match FirstWinningFrom(g, len, dot, x, y)
      case None =>
        forall x', y' :: InBounds(g, x', y') && !RowMajorBefore(x', y', x, y) ==> !WinningCell(g, len, dot, x', y')
      case Some(c) =>
        && WinningCell(g, len, dot, c.0, c.1)
        && !RowMajorBefore(c.0, c.1, x, y)
        && forall x', y' :: InBounds(g, x', y') && !RowMajorBefore(x', y', x, y) && RowMajorBefore(x', y', c.0, c.1)
             ==> !WinningCell(g, len, dot, x', y')
    decreases g.h - y, g.w - x
  {
    if y >= g.h {
    } else if x >= g.w {
      FirstWinningFromCorrect(g, len, dot, 0, y + 1);
    } else if WinningCell(g, len, dot, x, y) {
    } else {
      FirstWinningFromCorrect(g, len, dot, x + 1, y);
    }
  }

  /** `FirstWinning` is empty exactly when no cell wins; otherwise it is a
      winning cell and no cell before it in row-major order wins. */
  lemma FirstWinningCorrect(g: Grid, len: int, dot: Dot)
    requires Valid(g)
    ensures FirstWinning(g, len, dot).None? <==> forall x, y :: InBounds(g, x, y) ==> !WinningCell(g, len, dot, x, y)
    ensures FirstWinning(g, len, dot).Some? ==>
      var c := FirstWinning(g, len, dot).value;
      && WinningCell(g, len, dot, c.0, c.1)
      && forall x, y :: InBounds(g, x, y) && RowMajorBefore(x, y, c.0, c.1) ==> !WinningCell(g, len, dot, x, y)
  {
    FirstWinningFromCorrect(g, len, dot, 0, 0);
  }

  /** a + i*v lies between a and a + n*v when 0 <= i <= n. */
  lemma Between(a: int, v: int, i: int, n: int)
    requires 0 <= i <= n
    ensures v >= 0 ==> a <= a + i * v <= a + n * v
    ensures v < 0 ==> a + n * v <= a + i * v <= a
  {
  }

  /** When the first and the last of `len` cells along a direction are on
      the grid, so is every cell between them; this is why the win
      detector only tests the end cell before reading the line. */
  lemma SegmentInBounds(g: Grid, x: int, y: int, vx: int, vy: int, len: int, i: int)
    requires InBounds(g, x, y) && InBounds(g, x + (len - 1) * vx, y + (len - 1) * vy)
    requires 0 <= i < len
    ensures InBounds(g, x + i * vx, y + i * vy)
  {
    Between(x, vx, i, len - 1);
    Between(y, vy, i, len - 1);
  }

  /** Whether `dot` has a run depends only on which cells hold `dot`. */
  lemma SameMarksSameWin(a: Grid, b: Grid, len: int, dot: Dot)
    requires Valid(a) && Valid(b) && a.w == b.w && a.h == b.h
    requires forall x, y :: InBounds(a, x, y) ==> (At(a, x, y) == dot <==> At(b, x, y) == dot)
    ensures HasWin(a, len, dot) <==> HasWin(b, len, dot)
  {
    forall x, y, vx, vy | InBounds(a, x, y)
      ensures Run(a, x, y, vx, vy, len, dot) <==> Run(b, x, y, vx, vy, len, dot)
    {
      forall i ensures StepIs(a, x, y, vx, vy, i, dot) <==> StepIs(b, x, y, vx, vy, i, dot) {
      }
    }
    if HasWin(a, len, dot) {
      var x, y :| InBounds(a, x, y) && WinAt(a, x, y, len, dot);
      assert InBounds(b, x, y) && WinAt(b, x, y, len, dot);
    }
    if HasWin(b, len, dot) {
      var x, y :| InBounds(b, x, y) && WinAt(b, x, y, len, dot);
      assert InBounds(a, x, y) && WinAt(a, x, y, len, dot);
    }
  }

  /** Putting a mark `d` on an empty cell neither makes nor breaks a run of
      any other mark `dot`. */
  lemma PlaceKeepsOtherWin(g: Grid, x: int, y: int, d: Dot, len: int, dot: Dot)
    requires Valid(g) && InBounds(g, x, y) && At(g, x, y) == Empty
    requires d != dot && dot != Empty
    ensures HasWin(Place(g, x, y, d), len, dot) <==> HasWin(g, len, dot)
  {
    SameMarksSameWin(g, Place(g, x, y, d), len, dot);
  }

  /** On a fresh field no player has a run of length at least one, and a
      field with at least one cell is not full. */
  lemma EmptyGridNoWin(w: nat, h: nat, len: int, dot: Dot)
    requires 1 <= len && dot != Empty
    ensures !HasWin(EmptyGrid(w, h), len, dot)
    ensures 0 < w && 0 < h ==> !Full(EmptyGrid(w, h))
  {
    var g := EmptyGrid(w, h);
    forall x, y | InBounds(g, x, y) ensures !WinAt(g, x, y, len, dot) {
      assert !StepIs(g, x, y, 1, 0, 0, dot);
      assert !StepIs(g, x, y, 0, 1, 0, dot);
      assert !StepIs(g, x, y, 1, 1, 0, dot);
      assert !StepIs(g, x, y, 1, -1, 0, dot);
    }
    if 0 < w && 0 < h {
      assert At(g, 0, 0) == Empty;
    }
  }
}
