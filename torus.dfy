/**
 * The pure rules of the Game of Life on a wrap-around (toroidal) board:
 * coordinate wrapping, the neighbour count over the 3x3 block around a
 * cell, the B3/S23 cell rule, one generation of simultaneous update, and
 * the sequence of generations that follows an initial board.
 *
 * A board is a sequence of rows, indexed g[y][x] (row first), as the
 * GameBoard class indexes its array board[y, x].
 */
module Torus {

  type Grid = seq<seq<int>>

  /** Rows that make a two-dimensional array: all as long as the first (no rows at all qualify too). */
  predicate Rectangular(g: Grid)
  {
    forall y :: 0 <= y < |g| ==> |g[y]| == |g[0]|
  }

  /** A non-empty rectangular board with at least one column. */
  predicate IsGrid(g: Grid)
  {
    |g| >= 1 && |g[0]| >= 1 && Rectangular(g)
  }

  /** Number of columns (the x extent), the first entry of get_size. */
  function Width(g: Grid): nat
    requires |g| >= 1
  {
    |g[0]|
  }

  /** Number of rows (the y extent), the second entry of get_size. */
  function Height(g: Grid): nat
  {
    |g|
  }

  predicate InBounds(g: Grid, x: int, y: int)
    requires IsGrid(g)
  {
    0 <= x < Width(g) && 0 <= y < Height(g)
  }

  /** Every cell is 0 (dead) or 1 (alive). */
  predicate IsBinary(g: Grid)
  {
    forall y, x :: 0 <= y < |g| && 0 <= x < |g[y]| ==> g[y][x] == 0 || g[y][x] == 1
  }

  /** Two boards with the same number of rows and columns. */
  predicate SameShape(g: Grid, h: Grid)
    requires IsGrid(g) && IsGrid(h)
  {
    Width(g) == Width(h) && Height(g) == Height(h)
  }

  // ---------------------------------------------------------------------
  // Coordinate wrapping
  // ---------------------------------------------------------------------

  /**
   * Moves v into [0, n) by adding n while it is negative and subtracting n
   * while it is at least n, as shift_positions does for each coordinate.
   */
  function Wrap(v: int, n: int): (r: int)
    requires n >= 1
    ensures 0 <= r < n
    ensures 0 <= v < n ==> r == v
    decreases if v < 0 then n - v else v
  {
    if v < 0 then Wrap(v + n, n)
    else if v >= n then Wrap(v - n, n)
    else v
  }

  /** The wrapped coordinate is the mathematical (never negative) remainder of v by n. */
  lemma {:induction false} WrapIsMod(v: int, n: int)
    requires n >= 1
    ensures Wrap(v, n) == v % n
    decreases if v < 0 then n - v else v
  {
    if v < 0 {
      WrapIsMod(v + n, n);
      ModShift(v, n);
    } else if v >= n {
      WrapIsMod(v - n, n);
      ModShift(v - n, n);
    } else {
      ModOfRemainder(v, n, 0);
    }
  }

  /** q * n + r leaves remainder r when 0 <= r < n. */
  lemma ModOfRemainder(r: int, n: int, q: int)
    requires n >= 1 && 0 <= r < n
    ensures (q * n + r) % n == r
  {
    var a := q * n + r;
    var q', r' := a / n, a % n;
    assert (q - q') * n == r' - r;
    if q - q' >= 1 {
      MulAtLeast(q - q', n);
    } else if q' - q >= 1 {
      MulAtLeast(q' - q, n);
    }
  }

  lemma MulAtLeast(d: int, n: int)
    requires d >= 1 && n >= 0
    ensures d * n >= n
  {
  }

  /** Adding the modulus does not change the remainder. */
  lemma ModShift(a: int, n: int)
    requires n >= 1
    ensures (a + n) % n == a % n
  {
    var q, r := a / n, a % n;
    assert a + n == (q + 1) * n + r;
    ModOfRemainder(r, n, q + 1);
  }

  // ---------------------------------------------------------------------
  // Neighbour counting
  // ---------------------------------------------------------------------

  /** 1 when the cell value is exactly 1 (the test get_neighbors makes), else 0. */
  function Alive(v: int): nat
  {
    if v == 1 then 1 else 0
  }

  /** Liveness of the cell at (i, j) after wrapping both coordinates. */
  function Live(g: Grid, i: int, j: int): nat
    requires IsGrid(g)
  {
    Alive(g[Wrap(j, Height(g))][Wrap(i, Width(g))])
  }

  /**
   * Live cells at wrapped (i, j) for j running from y - 1 up to jEnd - 1:
   * the partial work of the inner loop of get_neighbors.
   */
  function ColumnSum(g: Grid, i: int, y: int, jEnd: int): nat
    requires IsGrid(g)
    requires y - 1 <= jEnd <= y + 2
    decreases jEnd - y
  {
    if jEnd == y - 1 then 0 else ColumnSum(g, i, y, jEnd - 1) + Live(g, i, jEnd - 1)
  }

  /**
   * Full columns of the 3x3 block around (x, y) for i running from x - 1
   * up to iEnd - 1: the partial work of the outer loop of get_neighbors.
   */
  function BlockSum(g: Grid, x: int, y: int, iEnd: int): nat
    requires IsGrid(g)
    requires x - 1 <= iEnd <= x + 2
    decreases iEnd - x
  {
    if iEnd == x - 1 then 0 else BlockSum(g, x, y, iEnd - 1) + ColumnSum(g, iEnd - 1, y, y + 2)
  }

  /**
   * The neighbour count of get_neighbors: live cells among the 9 wrapped
   * positions of the 3x3 block, counted with multiplicity, minus one when
   * the centre itself is alive.
   */
  function Neighbors(g: Grid, x: int, y: int): int
    requires IsGrid(g) && InBounds(g, x, y)
  {
    BlockSum(g, x, y, x + 2) - Alive(g[y][x])
  }

  /** Cell (i, j) of the torus read through the mathematical remainder. */
  function ModCell(g: Grid, i: int, j: int): nat
    requires IsGrid(g)
  {
    Alive(g[j % Height(g)][i % Width(g)])
  }

  /**
   * Reference definition of the Moore neighbourhood on the torus: the eight
   * offsets other than (0, 0), each read modulo the board's dimensions.
   */
  function MooreCount(g: Grid, x: int, y: int): nat
    requires IsGrid(g)
  {
    ModCell(g, x - 1, y - 1) + ModCell(g, x - 1, y) + ModCell(g, x - 1, y + 1) +
    ModCell(g, x, y - 1) + ModCell(g, x, y + 1) +
    ModCell(g, x + 1, y - 1) + ModCell(g, x + 1, y) + ModCell(g, x + 1, y + 1)
  }

  /** The inner loop's total: the three wrapped cells of column i. */
  lemma ColumnSumFull(g: Grid, i: int, y: int)
    requires IsGrid(g)
    ensures ColumnSum(g, i, y, y + 2) == Live(g, i, y - 1) + Live(g, i, y) + Live(g, i, y + 1)
  {
    assert ColumnSum(g, i, y, y - 1) == 0;
    assert ColumnSum(g, i, y, y) == Live(g, i, y - 1);
    assert ColumnSum(g, i, y, y + 1) == Live(g, i, y - 1) + Live(g, i, y);
  }

  /** The outer loop's total: the three columns of the 3x3 block. */
  lemma BlockSumFull(g: Grid, x: int, y: int)
    requires IsGrid(g)
    ensures BlockSum(g, x, y, x + 2) ==
      ColumnSum(g, x - 1, y, y + 2) + ColumnSum(g, x, y, y + 2) + ColumnSum(g, x + 1, y, y + 2)
  {
    assert BlockSum(g, x, y, x - 1) == 0;
    assert BlockSum(g, x, y, x) == ColumnSum(g, x - 1, y, y + 2);
    assert BlockSum(g, x, y, x + 1) == ColumnSum(g, x - 1, y, y + 2) + ColumnSum(g, x, y, y + 2);
  }

  /**
   * The neighbour count lies in 0..8 on every board, whatever its cell
   * values: the centre position is among the nine summed, so it is
   * subtracted only when it was counted, and when it is not alive it
   * contributes nothing to the nine.
   */
  lemma NeighborsInRange(g: Grid, x: int, y: int)
    requires IsGrid(g) && InBounds(g, x, y)
    ensures 0 <= Neighbors(g, x, y) <= 8
  {
    BlockSumFull(g, x, y);
    ColumnSumFull(g, x - 1, y);
    ColumnSumFull(g, x, y);
    ColumnSumFull(g, x + 1, y);
    assert Live(g, x, y) == Alive(g[y][x]);
  }

  /** The wrapped read of (i, j) is the read modulo the board's dimensions. */
  lemma LiveIsModCell(g: Grid, i: int, j: int)
    requires IsGrid(g)
    ensures Live(g, i, j) == ModCell(g, i, j)
  {
    WrapIsMod(i, Width(g));
    WrapIsMod(j, Height(g));
  }

  /**
   * get_neighbors agrees with the Moore neighbourhood read modulo the
   * dimensions, on boards of every size: on a board one or two cells wide
   * or high several of the eight offsets land on the same cell (or on the
   * centre) and are counted once per offset.
   */
  lemma NeighborsIsMoore(g: Grid, x: int, y: int)
    requires IsGrid(g) && InBounds(g, x, y)
    ensures Neighbors(g, x, y) == MooreCount(g, x, y)
  {
    forall i, j | x - 1 <= i <= x + 1 && y - 1 <= j <= y + 1
      ensures Live(g, i, j) == ModCell(g, i, j)
    {
      LiveIsModCell(g, i, j);
    }
    assert Live(g, x, y) == Alive(g[y][x]);
    BlockSumFull(g, x, y);
    ColumnSumFull(g, x - 1, y);
    ColumnSumFull(g, x, y);
    ColumnSumFull(g, x + 1, y);
  }

  // ---------------------------------------------------------------------
  // The board tiled 3x3: wrap-around agrees with reading real neighbours
  // ---------------------------------------------------------------------

  /** Nine copies of g placed side by side, three across and three down. */
  function Tile(g: Grid): (t: Grid)
    requires IsGrid(g)
    ensures |t| == 3 * Height(g)
    ensures forall r :: 0 <= r < |t| ==> |t[r]| == 3 * Width(g)
  {
    seq(3 * Height(g), r requires 0 <= r < 3 * Height(g) =>
      seq(3 * Width(g), c requires 0 <= c < 3 * Width(g) => g[r % Height(g)][c % Width(g)]))
  }

  /** The eight real neighbours of an interior cell, with no wrapping at all. */
  function DirectCount(t: Grid, x: int, y: int): nat
    requires 1 <= y && y + 1 < |t|
    requires forall r :: 0 <= r < |t| ==> |t[r]| == |t[0]|
    requires 1 <= x && x + 1 < |t[0]|
  {
    Alive(t[y - 1][x - 1]) + Alive(t[y][x - 1]) + Alive(t[y + 1][x - 1]) +
    Alive(t[y - 1][x]) + Alive(t[y + 1][x]) +
    Alive(t[y - 1][x + 1]) + Alive(t[y][x + 1]) + Alive(t[y + 1][x + 1])
  }

  lemma TileCell(g: Grid, i: int, j: int)
    requires IsGrid(g)
    requires -1 <= i <= Width(g) && -1 <= j <= Height(g)
    ensures 0 <= j + Height(g) < 3 * Height(g) && 0 <= i + Width(g) < 3 * Width(g)
    ensures Alive(Tile(g)[j + Height(g)][i + Width(g)]) == ModCell(g, i, j)
  {
    ModShift(i, Width(g));
    ModShift(j, Height(g));
  }

  /**
   * Counting with wrap-around equals reading the eight real neighbours of
   * the same cell in the centre copy of the 3x3 tiling: edges and corners
   * behave as interior cells do.
   */
  lemma NeighborsMatchTiled(g: Grid, x: int, y: int)
    requires IsGrid(g) && InBounds(g, x, y)
    ensures Neighbors(g, x, y) == DirectCount(Tile(g), x + Width(g), y + Height(g))
  {
    NeighborsIsMoore(g, x, y);
    forall i, j | x - 1 <= i <= x + 1 && y - 1 <= j <= y + 1
      ensures Alive(Tile(g)[j + Height(g)][i + Width(g)]) == ModCell(g, i, j)
    {
      TileCell(g, i, j);
    }
  }

  // ---------------------------------------------------------------------
  // The cell rule and one generation
  // ---------------------------------------------------------------------

  /** Conway's B3/S23 rule: born with 3 neighbours, survives with 2 or 3. */
  predicate LifeRule(alive: bool, n: int)
  {
    n == 3 || (alive && n == 2)
  }

  /**
   * update_cell: the new value of cell (x, y), returned rather than
   * written. A cell holding 0 becomes 1 on exactly 3 neighbours; any other
   * cell becomes 0 on fewer than 2 or more than 3; otherwise the old value
   * is kept.
   */
  function NextCell(g: Grid, x: int, y: int): (r: int)
    requires IsGrid(g) && InBounds(g, x, y)
    ensures g[y][x] == 0 ==> (r == 1 <==> Neighbors(g, x, y) == 3)
    ensures g[y][x] == 0 && Neighbors(g, x, y) != 3 ==> r == g[y][x]
    ensures g[y][x] != 0 ==> (r == 0 <==> Neighbors(g, x, y) < 2 || Neighbors(g, x, y) > 3)
    ensures g[y][x] != 0 && 2 <= Neighbors(g, x, y) <= 3 ==> r == g[y][x]
    ensures g[y][x] == 0 || g[y][x] == 1 ==>
      r == (if LifeRule(g[y][x] == 1, Neighbors(g, x, y)) then 1 else 0)
  {
    var n := Neighbors(g, x, y);
    if g[y][x] == 0 then
      (if n == 3 then 1 else g[y][x])
    else
      (if n < 2 || n > 3 then 0 else g[y][x])
  }

  /**
   * One generation: every cell of the new board is NextCell of the OLD
   * board (simultaneous update), and the dimensions are kept.
   */
  function Step(g: Grid): (r: Grid)
    requires IsGrid(g)
    ensures IsGrid(r) && SameShape(r, g)
    ensures forall y, x :: 0 <= y < Height(g) && 0 <= x < Width(g) ==> r[y][x] == NextCell(g, x, y)
  {
    seq(Height(g), y requires 0 <= y < Height(g) =>
      seq(Width(g), x requires 0 <= x < Width(g) => NextCell(g, x, y)))
  }

  /** Generation k of the board that starts as g. */
  function Gen(g: Grid, k: nat): (r: Grid)
    requires IsGrid(g)
    ensures IsGrid(r) && SameShape(r, g)
  {
    if k == 0 then g else Step(Gen(g, k - 1))
  }

  /** A board of 0/1 cells stays one: every generation holds only 0 and 1. */
  lemma {:induction false} GenBinary(g: Grid, k: nat)
    requires IsGrid(g) && IsBinary(g)
    ensures IsBinary(Gen(g, k))
  {
    if k > 0 {
      GenBinary(g, k - 1);
      var prev := Gen(g, k - 1);
      forall y, x | 0 <= y < Height(prev) && 0 <= x < Width(prev)
        ensures Step(prev)[y][x] == 0 || Step(prev)[y][x] == 1
      {
      }
    }
  }

  // ---------------------------------------------------------------------
  // Every position of the torus is alike
  // ---------------------------------------------------------------------

  /** Adding a multiple of the modulus does not change the remainder. */
  lemma ModAddMultiple(x: int, q: int, n: int)
    requires n >= 1
    ensures (q * n + x) % n == x % n
  {
    var q', r := x / n, x % n;
    assert q * n + x == (q + q') * n + r;
    ModOfRemainder(r, n, q + q');
  }

  /** Reducing the left operand first does not change the remainder of a sum. */
  lemma ModOfSum(a: int, b: int, n: int)
    requires n >= 1
    ensures (a % n + b) % n == (a + b) % n
  {
    ModAddMultiple(a % n + b, a / n, n);
    assert a / n * n + (a % n + b) == a + b;
  }

  /** The cell that lands on (c, r) when the board moves dx columns right and dy rows down. */
  function Source(g: Grid, dx: int, dy: int, c: int, r: int): int
    requires IsGrid(g)
  {
    g[Wrap(r - dy, Height(g))][Wrap(c - dx, Width(g))]
  }

  /** The board moved dx columns right and dy rows down, wrapping round the edges. */
  function Translate(g: Grid, dx: int, dy: int): (t: Grid)
    requires IsGrid(g)
    ensures IsGrid(t) && SameShape(t, g)
    ensures forall r, c :: 0 <= r < Height(g) && 0 <= c < Width(g) ==> t[r][c] == Source(g, dx, dy, c, r)
  {
    seq(Height(g), r requires 0 <= r < Height(g) =>
      seq(Width(g), c requires 0 <= c < Width(g) => Source(g, dx, dy, c, r)))
  }

  /** ModCell reads a position only through its remainders. */
  lemma ModCellCongruent(g: Grid, i: int, j: int, i': int, j': int)
    requires IsGrid(g)
    requires i % Width(g) == i' % Width(g) && j % Height(g) == j' % Height(g)
    ensures ModCell(g, i, j) == ModCell(g, i', j')
  {
  }

  /** Position (i + dx, j + dy) of the moved board holds what (i, j) held. */
  lemma ModCellTranslate(g: Grid, dx: int, dy: int, i: int, j: int)
    requires IsGrid(g)
    ensures ModCell(Translate(g, dx, dy), i + dx, j + dy) == ModCell(g, i, j)
  {
    var w, h := Width(g), Height(g);
    ModOfSum(i + dx, -dx, w);
    ModOfSum(j + dy, -dy, h);
    WrapIsMod((i + dx) % w - dx, w);
    WrapIsMod((j + dy) % h - dy, h);
  }

  /**
   * The cell at an offset from a moved position is the cell at the same
   * offset from where it came from. The offset is (i - x, j - y); the
   * positions are passed spelt out so that they match MooreCount's terms.
   */
  lemma OffsetTranslate(g: Grid, dx: int, dy: int, x: int, y: int, i: int, j: int, ti: int, tj: int)
    requires IsGrid(g)
    requires ti - Wrap(x + dx, Width(g)) == i - x && tj - Wrap(y + dy, Height(g)) == j - y
    ensures ModCell(Translate(g, dx, dy), ti, tj) == ModCell(g, i, j)
  {
    var w, h := Width(g), Height(g);
    WrapIsMod(x + dx, w);
    WrapIsMod(y + dy, h);
    ModOfSum(x + dx, i - x, w);
    ModOfSum(y + dy, j - y, h);
    ModCellCongruent(Translate(g, dx, dy), ti, tj, i + dx, j + dy);
    ModCellTranslate(g, dx, dy, i, j);
  }

  lemma MooreTranslate(g: Grid, dx: int, dy: int, x: int, y: int)
    requires IsGrid(g)
    ensures MooreCount(Translate(g, dx, dy), Wrap(x + dx, Width(g)), Wrap(y + dy, Height(g))) == MooreCount(g, x, y)
  {
    var tx, ty := Wrap(x + dx, Width(g)), Wrap(y + dy, Height(g));
    OffsetTranslate(g, dx, dy, x, y, x - 1, y - 1, tx - 1, ty - 1);
    OffsetTranslate(g, dx, dy, x, y, x - 1, y, tx - 1, ty);
    OffsetTranslate(g, dx, dy, x, y, x - 1, y + 1, tx - 1, ty + 1);
    OffsetTranslate(g, dx, dy, x, y, x, y - 1, tx, ty - 1);
    OffsetTranslate(g, dx, dy, x, y, x, y + 1, tx, ty + 1);
    OffsetTranslate(g, dx, dy, x, y, x + 1, y - 1, tx + 1, ty - 1);
    OffsetTranslate(g, dx, dy, x, y, x + 1, y, tx + 1, ty);
    OffsetTranslate(g, dx, dy, x, y, x + 1, y + 1, tx + 1, ty + 1);
  }

  /** A cell of the moved board has as many neighbours as the cell it came from. */
  lemma NeighborsTranslate(g: Grid, dx: int, dy: int, x: int, y: int)
    requires IsGrid(g) && InBounds(g, x, y)
    ensures Neighbors(Translate(g, dx, dy), Wrap(x + dx, Width(g)), Wrap(y + dy, Height(g))) == Neighbors(g, x, y)
  {
    NeighborsIsMoore(g, x, y);
    NeighborsIsMoore(Translate(g, dx, dy), Wrap(x + dx, Width(g)), Wrap(y + dy, Height(g)));
    MooreTranslate(g, dx, dy, x, y);
  }

  /** Moving back by d and then forward by d returns to the same position. */
  lemma WrapBack(c: int, d: int, n: int)
    requires 0 <= c < n
    ensures Wrap(Wrap(c - d, n) + d, n) == c
  {
    WrapIsMod(c - d, n);
    WrapIsMod(Wrap(c - d, n) + d, n);
    ModOfSum(c - d, d, n);
    ModOfRemainder(c, n, 0);
  }

  /** Two cells with the same value and the same neighbour count step alike. */
  lemma NextCellAlike(g: Grid, x: int, y: int, h: Grid, c: int, r: int)
    requires IsGrid(g) && InBounds(g, x, y) && IsGrid(h) && InBounds(h, c, r)
    requires g[y][x] == h[r][c] && Neighbors(g, x, y) == Neighbors(h, c, r)
    ensures NextCell(g, x, y) == NextCell(h, c, r)
  {
  }

  /** Cell (c, r) of the moved board has as many neighbours as the cell it came from. */
  lemma NeighborsAtSource(g: Grid, dx: int, dy: int, c: int, r: int)
    requires IsGrid(g) && InBounds(g, c, r)
    ensures Neighbors(Translate(g, dx, dy), c, r) == Neighbors(g, Wrap(c - dx, Width(g)), Wrap(r - dy, Height(g)))
  {
    WrapBack(c, dx, Width(g));
    WrapBack(r, dy, Height(g));
    NeighborsTranslate(g, dx, dy, Wrap(c - dx, Width(g)), Wrap(r - dy, Height(g)));
  }

  /** Cell (c, r) of the moved board steps as its source cell does. */
  lemma NextCellTranslate(g: Grid, dx: int, dy: int, c: int, r: int)
    requires IsGrid(g) && InBounds(g, c, r)
    ensures NextCell(Translate(g, dx, dy), c, r) == Source(Step(g), dx, dy, c, r)
  {
    var x, y := Wrap(c - dx, Width(g)), Wrap(r - dy, Height(g));
    NeighborsAtSource(g, dx, dy, c, r);
    NextCellAlike(Translate(g, dx, dy), c, r, g, x, y);
    assert Step(g)[y][x] == NextCell(g, x, y);
  }

  /**
   * Moving the board round the torus and taking a generation commute: the
   * rule treats edge and corner cells exactly as interior ones.
   */
  lemma StepTranslate(g: Grid, dx: int, dy: int)
    requires IsGrid(g)
    ensures Step(Translate(g, dx, dy)) == Translate(Step(g), dx, dy)
  {
    var left, right := Step(Translate(g, dx, dy)), Translate(Step(g), dx, dy);
    forall r | 0 <= r < Height(g)
      ensures left[r] == right[r]
    {
      forall c | 0 <= c < Width(g)
        ensures left[r][c] == right[r][c]
      {
        NextCellTranslate(g, dx, dy, c, r);
      }
    }
  }

  /** The same holds for any number of generations. */
  lemma {:induction false} GenTranslate(g: Grid, dx: int, dy: int, k: nat)
    requires IsGrid(g)
    ensures Gen(Translate(g, dx, dy), k) == Translate(Gen(g, k), dx, dy)
  {
    if k > 0 {
      var prev := Gen(g, k - 1);
      GenTranslate(g, dx, dy, k - 1);
      StepTranslate(prev, dx, dy);
      assert Gen(Translate(g, dx, dy), k) == Step(Translate(prev, dx, dy));
      assert Gen(g, k) == Step(prev);
    }
  }

  // ---------------------------------------------------------------------
  // Counting by plain indices
  // ---------------------------------------------------------------------

  /** The index before v on a ring of n positions. */
  function Before(v: int, n: int): int
  {
    if v == 0 then n - 1 else v - 1
  }

  /** The index after v on a ring of n positions. */
  function After(v: int, n: int): int
  {
    if v == n - 1 then 0 else v + 1
  }

  lemma RingNeighbors(v: int, n: int)
    requires 0 <= v < n
    ensures (v - 1) % n == Before(v, n) && v % n == v && (v + 1) % n == After(v, n)
  {
    ModOfRemainder(v, n, 0);
    if v == 0 {
      ModShift(-1, n);
      ModOfRemainder(n - 1, n, 0);
    } else {
      ModOfRemainder(v - 1, n, 0);
    }
    if v == n - 1 {
      ModOfRemainder(0, n, 1);
    } else {
      ModOfRemainder(v + 1, n, 0);
    }
  }

  /** The neighbour count read off the eight cells around (x, y), with no arithmetic left. */
  lemma NeighborsByIndex(g: Grid, x: int, y: int)
    requires IsGrid(g) && InBounds(g, x, y)
    ensures var w, e, n, s := Before(x, Width(g)), After(x, Width(g)), Before(y, Height(g)), After(y, Height(g));
      Neighbors(g, x, y) ==
        Alive(g[n][w]) + Alive(g[y][w]) + Alive(g[s][w]) +
        Alive(g[n][x]) + Alive(g[s][x]) +
        Alive(g[n][e]) + Alive(g[y][e]) + Alive(g[s][e])
  {
    NeighborsIsMoore(g, x, y);
    RingNeighbors(x, Width(g));
    RingNeighbors(y, Height(g));
  }
}
