/**
 * Small boards where wrap-around makes a difference: on boards narrower
 * than three cells, or exactly three, the 3x3 window meets itself.
 */
module Patterns {
  import opened Torus

  /** A 1x1 board whose only cell is alive. */
  const Lone: Grid := [[1]]

  /**
   * On a 1x1 torus all eight neighbours are the cell itself: a lone live
   * cell counts 8 and dies of overcrowding.
   */
  lemma LoneCellCountsItself()
    ensures Neighbors(Lone, 0, 0) == 8
    ensures Step(Lone) == [[0]]
  {
    NeighborsByIndex(Lone, 0, 0);
    assert Before(0, 1) == 0 && After(0, 1) == 0;
    assert Step(Lone)[0] == [0];
  }

  /** Number of live cells on a 3x3 board. */
  function Population3(g: Grid): nat
    requires |g| == 3 && forall y :: 0 <= y < 3 ==> |g[y]| == 3
  {
    Alive(g[0][0]) + Alive(g[0][1]) + Alive(g[0][2]) +
    Alive(g[1][0]) + Alive(g[1][1]) + Alive(g[1][2]) +
    Alive(g[2][0]) + Alive(g[2][1]) + Alive(g[2][2])
  }

  /**
   * On a 3x3 torus the window around any cell is the whole board, so every
   * cell counts all live cells but itself.
   */
  lemma ThreeByThreeCount(g: Grid, x: int, y: int)
    requires |g| == 3 && forall r :: 0 <= r < 3 ==> |g[r]| == 3
    requires 0 <= x < 3 && 0 <= y < 3
    ensures IsGrid(g)
    ensures Neighbors(g, x, y) == Population3(g) - Alive(g[y][x])
  {
    NeighborsByIndex(g, x, y);
    if x == 0 {
      assert Before(x, 3) == 2 && After(x, 3) == 1;
    } else if x == 1 {
      assert Before(x, 3) == 0 && After(x, 3) == 2;
    } else {
      assert Before(x, 3) == 1 && After(x, 3) == 0;
    }
    if y == 0 {
      assert Before(y, 3) == 2 && After(y, 3) == 1;
    } else if y == 1 {
      assert Before(y, 3) == 0 && After(y, 3) == 2;
    } else {
      assert Before(y, 3) == 1 && After(y, 3) == 0;
    }
  }

  /** A horizontal blinker filling the middle row of a 3x3 board. */
  const Blinker3: Grid := [[0, 0, 0], [1, 1, 1], [0, 0, 0]]

  const Full3: Grid := [[1, 1, 1], [1, 1, 1], [1, 1, 1]]

  const Empty3: Grid := [[0, 0, 0], [0, 0, 0], [0, 0, 0]]

  /**
   * On a 3x3 torus the blinker does not turn vertical: every dead cell
   * sees all three live cells and is born, every live cell sees two and
   * survives, so the whole board comes alive.
   */
  lemma Blinker3FillsBoard()
    ensures Step(Blinker3) == Full3
  {
    var r := Step(Blinker3);
    assert Population3(Blinker3) == 3;
    forall y, x | 0 <= y < 3 && 0 <= x < 3
      ensures r[y][x] == 1
    {
      ThreeByThreeCount(Blinker3, x, y);
    }
    assert r[0] == Full3[0] && r[1] == Full3[1] && r[2] == Full3[2];
  }

  /** The full 3x3 board dies at once: every cell counts eight. */
  lemma Full3Dies()
    ensures Step(Full3) == Empty3
  {
    var r := Step(Full3);
    assert Population3(Full3) == 9;
    forall y, x | 0 <= y < 3 && 0 <= x < 3
      ensures r[y][x] == 0
    {
      ThreeByThreeCount(Full3, x, y);
    }
    assert r[0] == Empty3[0] && r[1] == Empty3[1] && r[2] == Empty3[2];
  }

  /** So two generations after the 3x3 blinker the board is empty. */
  lemma Blinker3DiesOut()
    ensures Gen(Blinker3, 2) == Empty3
    ensures Gen(Blinker3, 1) != [[0, 1, 0], [0, 1, 0], [0, 1, 0]]
  {
    assert Gen(Blinker3, 1) == Full3 by {
      Blinker3FillsBoard();
      assert Gen(Blinker3, 0) == Blinker3;
    }
    Full3Dies();
    assert Gen(Blinker3, 2) == Step(Full3);
    assert Full3[0][0] == 1;
  }
}
