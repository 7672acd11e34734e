/**
 * The GameBoard class: a live board held in a two-dimensional array
 * indexed board[y, x], a snapshot of the board it started from, and the
 * history of pre-update snapshots, one per tick.
 */
module Life {
  import opened Torus

  /** The spawn probability of a random board (a cell is alive when its draw is at most this). */
  const SpawnChance: real := 0.2

  /** The contents of an array board as a sequence of rows, g[y][x] == a[y, x]. */
  function ToGrid(a: array2<int>): (g: Grid)
    reads a
    ensures |g| == a.Length0
    ensures forall y :: 0 <= y < a.Length0 ==> |g[y]| == a.Length1
    ensures forall y, x :: 0 <= y < a.Length0 && 0 <= x < a.Length1 ==> g[y][x] == a[y, x]
  {
    seq(a.Length0, y requires 0 <= y < a.Length0 reads a =>
      seq(a.Length1, x requires 0 <= x < a.Length1 reads a => a[y, x]))
  }

  /**
   * make_random_board: an array of size[0] rows by size[1] columns, cell
   * (r, c) alive when the random number drawn for it is at most the spawn
   * chance. The random numbers are passed in, draws[r][c] being the one
   * drawn for cell (r, c) in the row-by-row order of the loops.
   */
  method MakeRandomBoard(size: seq<int>, draws: seq<seq<real>>) returns (b: array2<int>)
    requires |size| >= 2 && size[0] >= 0 && size[1] >= 0
    requires |draws| == size[0]
    requires forall r :: 0 <= r < |draws| ==> |draws[r]| == size[1]
    ensures fresh(b)
    ensures b.Length0 == size[0] && b.Length1 == size[1]
    ensures forall r, c :: 0 <= r < size[0] && 0 <= c < size[1] ==>
      b[r, c] == if draws[r][c] <= SpawnChance then 1 else 0
  {
    b := new int[size[0], size[1]]((r, c) => 0);
    var row := 0;
    while row < b.Length0
      invariant 0 <= row <= b.Length0
      invariant forall r, c :: 0 <= r < b.Length0 && 0 <= c < b.Length1 ==>
        b[r, c] == if r < row && draws[r][c] <= SpawnChance then 1 else 0
    {
      var col := 0;
      while col < b.Length1
        invariant 0 <= col <= b.Length1
        invariant forall r, c :: 0 <= r < b.Length0 && 0 <= c < b.Length1 ==>
          b[r, c] == if (r < row || (r == row && c < col)) && draws[r][c] <= SpawnChance then 1 else 0
      {
        if draws[row][col] <= SpawnChance {
          b[row, col] := 1;
        }
        col := col + 1;
      }
      row := row + 1;
    }
  }

  /** An array holding NextCell of g in every cell holds the next generation of g. */
  lemma FilledIsStep(a: array2<int>, g: Grid)
    requires IsGrid(g) && a.Length0 == Height(g) && a.Length1 == Width(g)
    requires forall y, x :: 0 <= y < a.Length0 && 0 <= x < a.Length1 ==> a[y, x] == NextCell(g, x, y)
    ensures ToGrid(a) == Step(g)
  {
    var next := Step(g);
    forall y | 0 <= y < |next|
      ensures ToGrid(a)[y] == next[y]
    {
      assert |ToGrid(a)[y]| == |next[y]|;
    }
  }

  /**
   * The history hist together with the board cur is the run of generations
   * of a 0/1 board init: hist[i] is generation i and cur the next one.
   */
  ghost predicate IsRun(init: Grid, hist: seq<Grid>, cur: Grid)
  {
    IsGrid(init) && IsBinary(init) &&
    (forall i :: 0 <= i < |hist| ==> hist[i] == Gen(init, i)) &&
    cur == Gen(init, |hist|)
  }

  /**
   * Appending generation n to a history of generations 0..n-1 gives a
   * history of generations 0..n, and the next board is generation n + 1.
   */
  lemma HistoryExtends(init: Grid, hist: seq<Grid>, g: Grid)
    requires IsRun(init, hist, g)
    ensures IsGrid(g) && IsRun(init, hist + [g], Step(g))
  {
    forall i | 0 <= i < |hist| + 1
      ensures (hist + [g])[i] == Gen(init, i)
    {
      if i < |hist| {
        assert (hist + [g])[i] == hist[i];
      }
    }
    assert Gen(init, |hist| + 1) == Step(Gen(init, |hist|));
  }

  class GameBoard {
    /** The live board, indexed board[y, x]. */
    var board: array2<int>
    /** A copy of the board taken at construction. */
    var initial: Grid
    /** The board as it was before each tick, oldest first. */
    var history: seq<Grid>

    /** The live board's contents. */
    function Current(): Grid
      reads this, board
    {
      ToGrid(board)
    }

    /**
     * The board is non-empty and holds 0/1 cells, and the history together
     * with the live board is the sequence of generations of the initial
     * board: history[i] is generation i and the live board the next one.
     */
    ghost predicate Valid()
      reads this, board
    {
      board.Length0 >= 1 && board.Length1 >= 1 && IsRun(initial, history, Current())
    }

    /**
     * A board given by the caller is taken as it is (the array itself, not
     * a copy); the initial snapshot is a copy and the history is empty.
     */
    constructor (b: array2<int>)
      requires b.Length0 >= 1 && b.Length1 >= 1
      requires IsBinary(ToGrid(b))
      ensures Valid()
      ensures board == b && initial == ToGrid(b) && history == []
    {
      board := b;
      history := [];
      initial := ToGrid(b);
    }

    /**
     * A random board of size[0] rows by size[1] columns, so that get_size
     * reports [size[1], size[0]]: a non-square size comes back transposed.
     */
    constructor Random(size: seq<int>, draws: seq<seq<real>>)
      requires |size| >= 2 && size[0] >= 1 && size[1] >= 1
      requires |draws| == size[0]
      requires forall r :: 0 <= r < |draws| ==> |draws[r]| == size[1]
      ensures Valid() && fresh(board) && history == []
      ensures board.Length0 == size[0] && board.Length1 == size[1]
      ensures forall r, c :: 0 <= r < size[0] && 0 <= c < size[1] ==>
        board[r, c] == if draws[r][c] <= SpawnChance then 1 else 0
      ensures initial == ToGrid(board)
    {
      var b := MakeRandomBoard(size, draws);
      board := b;
      history := [];
      initial := ToGrid(b);
    }

    /** get_board: the live array itself. */
    method GetBoard() returns (b: array2<int>)
      requires Valid()
      ensures b == board
      ensures ToGrid(b) == Gen(initial, |history|)
    {
      b := board;
    }

    /** get_size: [number of columns, number of rows]. */
    method GetSize() returns (size: seq<int>)
      ensures |size| == 2 && size[0] == board.Length1 && size[1] == board.Length0
    {
      size := [board.Length1, board.Length0];
    }

    /** get_initial_board: the snapshot taken at construction, generation 0. */
    method GetInitialBoard() returns (g: Grid)
      requires Valid()
      ensures g == initial
      ensures |history| > 0 ==> g == history[0]
    {
      g := initial;
    }

    /** get_animation: the history, whose entry i is generation i of the initial board. */
    method GetAnimation() returns (h: seq<Grid>)
      requires Valid()
      ensures h == history
      ensures forall i :: 0 <= i < |h| ==> h[i] == Gen(initial, i)
    {
      h := history;
    }

    /**
     * shift_positions: brings x into [0, columns) and y into [0, rows) by
     * repeated addition or subtraction of the dimension. Each result is
     * congruent to its input, and an in-range coordinate is left as it is.
     */
    method ShiftPositions(x0: int, y0: int) returns (x: int, y: int)
      requires board.Length0 >= 1 && board.Length1 >= 1
      ensures 0 <= x < board.Length1 && 0 <= y < board.Length0
      ensures x == x0 % board.Length1 && y == y0 % board.Length0
      ensures x == Wrap(x0, board.Length1) && y == Wrap(y0, board.Length0)
      ensures 0 <= x0 < board.Length1 ==> x == x0
      ensures 0 <= y0 < board.Length0 ==> y == y0
    {
      var size := GetSize();
      var xLen, yLen := size[0], size[1];
      x, y := x0, y0;
      while x < 0
        invariant Wrap(x, xLen) == Wrap(x0, xLen)
        decreases -x
      {
        x := x + xLen;
      }
      while x >= xLen
        invariant x >= 0 && Wrap(x, xLen) == Wrap(x0, xLen)
        decreases x
      {
        x := x - xLen;
      }
      while y < 0
        invariant Wrap(y, yLen) == Wrap(y0, yLen)
        decreases -y
      {
        y := y + yLen;
      }
      while y >= yLen
        invariant y >= 0 && Wrap(y, yLen) == Wrap(y0, yLen)
        decreases y
      {
        y := y - yLen;
      }
      WrapIsMod(x0, xLen);
      WrapIsMod(y0, yLen);
    }

    /**
     * The inner loop of get_neighbors: the live cells at the three wrapped
     * positions (i, y - 1), (i, y), (i, y + 1).
     */
    method CountColumn(i: int, y: int) returns (c: int)
      requires board.Length0 >= 1 && board.Length1 >= 1
      ensures IsGrid(Current()) && c == ColumnSum(Current(), i, y, y + 2)
    {
      ghost var g := Current();
      c := 0;
      var j := y - 1;
      while j <= y + 1
        invariant y - 1 <= j <= y + 2
        invariant c == ColumnSum(g, i, y, j)
      {
        var newI, newJ := ShiftPositions(i, j);
        if board[newJ, newI] == 1 {
          c := c + 1;
        }
        j := j + 1;
      }
    }

    /**
     * get_neighbors: sums the live cells over the nine wrapped positions of
     * the 3x3 block around (x, y), then takes one off when (x, y) is alive.
     */
    method GetNeighbors(x: int, y: int) returns (n: int)
      requires 0 <= x < board.Length1 && 0 <= y < board.Length0
      ensures IsGrid(Current()) && n == Neighbors(Current(), x, y)
      ensures 0 <= n <= 8
    {
      ghost var g := Current();
      n := 0;
      var i := x - 1;
      while i <= x + 1
        invariant x - 1 <= i <= x + 2
        invariant n == BlockSum(g, x, y, i)
      {
        var c := CountColumn(i, y);
        n := n + c;
        i := i + 1;
      }
      if board[y, x] == 1 {
        n := n - 1;
      }
      NeighborsInRange(g, x, y);
    }

    /** update_cell: the new value of cell (x, y), computed from the live board and not written. */
    method UpdateCell(x: int, y: int) returns (v: int)
      requires 0 <= x < board.Length1 && 0 <= y < board.Length0
      ensures IsGrid(Current()) && v == NextCell(Current(), x, y)
    {
      var nNeighbors := GetNeighbors(x, y);
      if board[y, x] == 0 {
        if nNeighbors == 3 {
          return 1;
        }
      } else {
        if nNeighbors < 2 || nNeighbors > 3 {
          return 0;
        }
      }
      v := board[y, x];
    }

    /**
     * The inner loop of tick: overwrites row y of temp, cell by cell, with
     * update_cell of the live board, and leaves every other row alone.
     */
    method UpdateRow(temp: array2<int>, y: int)
      requires 0 <= y < board.Length0 && board.Length1 >= 1
      requires temp != board && temp.Length0 == board.Length0 && temp.Length1 == board.Length1
      modifies temp
      ensures IsGrid(Current())
      ensures forall xx :: 0 <= xx < temp.Length1 ==> temp[y, xx] == NextCell(Current(), xx, y)
      ensures forall yy, xx :: 0 <= yy < temp.Length0 && yy != y && 0 <= xx < temp.Length1 ==>
        temp[yy, xx] == old(temp[yy, xx])
    {
      ghost var g := Current();
      var x := 0;
      while x < board.Length1
        invariant 0 <= x <= board.Length1
        invariant forall xx :: 0 <= xx < x ==> temp[y, xx] == NextCell(g, xx, y)
        invariant forall yy, xx :: 0 <= yy < temp.Length0 && yy != y && 0 <= xx < temp.Length1 ==>
          temp[yy, xx] == old(temp[yy, xx])
      {
        var v := UpdateCell(x, y);
        temp[y, x] := v;
        x := x + 1;
      }
    }

    /**
     * The loops of tick: a copy of the live board in which every cell is
     * overwritten, row by row, with update_cell of the live board. The live
     * board is only read, so the copy holds the next generation.
     */
    method NextBoard() returns (temp: array2<int>)
      requires board.Length0 >= 1 && board.Length1 >= 1
      ensures fresh(temp)
      ensures temp.Length0 == board.Length0 && temp.Length1 == board.Length1
      ensures IsGrid(Current()) && ToGrid(temp) == Step(Current())
    {
      ghost var g := Current();
      var live := board;
      temp := new int[live.Length0, live.Length1]((y, x) reads live =>
        if 0 <= y < live.Length0 && 0 <= x < live.Length1 then live[y, x] else 0);
      var y := 0;
      while y < live.Length0
        invariant 0 <= y <= live.Length0
        invariant forall yy, xx :: 0 <= yy < y && 0 <= xx < live.Length1 ==> temp[yy, xx] == NextCell(g, xx, yy)
      {
        UpdateRow(temp, y);
        y := y + 1;
      }
      FilledIsStep(temp, g);
    }

    /**
     * tick: appends a copy of the board to the history, computes the next
     * board from the old one alone, then makes it the live board.
     */
    method Tick()
      requires Valid()
      modifies this
      ensures Valid()
      ensures fresh(board)
      ensures board.Length0 == old(board.Length0) && board.Length1 == old(board.Length1)
      ensures history == old(history) + [old(Current())]
      ensures initial == old(initial)
      ensures Current() == Step(old(Current()))
    {
      HistoryExtends(initial, history, Current());
      history := history + [Current()];
      var temp := NextBoard();
      board := temp;
    }

    /**
     * The stepping loop of the program's driver: n_steps + 1 ticks, so the
     * history grows by exactly n_steps + 1 snapshots.
     */
    method Run(nSteps: nat)
      requires Valid()
      modifies this
      ensures Valid()
      ensures initial == old(initial)
      ensures |history| == |old(history)| + nSteps + 1
      ensures history[..|old(history)|] == old(history)
    {
      var i := 0;
      while i < nSteps + 1
        invariant 0 <= i <= nSteps + 1
        invariant Valid() && initial == old(initial)
        invariant |history| == |old(history)| + i
        invariant history[..|old(history)|] == old(history)
      {
        Tick();
        i := i + 1;
      }
    }
  }
}
