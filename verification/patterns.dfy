/** Classic Game of Life patterns run through the window's generation step:
    the empty world, the 2 by 2 block (a still life) and the blinker (a
    period-2 oscillator).
 */
module Patterns {
  import opened Grid
  import opened Life
  import opened Window

  /** A `cols` by `rows` grid whose only live cells form the 2 by 2 block with
      top-left corner `(a, b)`. */
  function BlockGrid(cols: nat, rows: nat, a: int, b: int): (g: Grid)
    ensures Shaped(g, cols, rows)
    ensures Binary(g)
  {
    seq(cols, x => seq(rows, y => if a <= x <= a + 1 && b <= y <= b + 1 then 1 else 0))
  }

  /** One cell of the block's generation: each block cell has three live
      neighbours and survives, no other cell has three and none is born. */
  lemma BlockCell(cols: nat, rows: nat, a: int, b: int, x: int, y: int)
    requires 1 <= a && a + 2 < cols
    requires 1 <= b && b + 2 < rows
    requires 0 <= x < cols && 0 <= y < rows
    ensures Step(BlockGrid(cols, rows, a, b), cols, rows)[x][y] == BlockGrid(cols, rows, a, b)[x][y]
  {
    var g := BlockGrid(cols, rows, a, b);
    if !OnBorder(x, y, cols, rows) {
      if x < a - 1 || a + 2 < x || y < b - 1 || b + 2 < y {
        assert Moore(g, x, y) == 0;
      } else if a <= x <= a + 1 && b <= y <= b + 1 {
        assert Moore(g, x, y) == 3;
      } else {
        assert Moore(g, x, y) <= 2;
      }
    }
  }

  /** A block clear of the outer ring is a still life: it survives a
      generation unchanged. */
  lemma BlockIsStill(cols: nat, rows: nat, a: int, b: int)
    requires 1 <= a && a + 2 < cols
    requires 1 <= b && b + 2 < rows
    ensures Step(BlockGrid(cols, rows, a, b), cols, rows) == BlockGrid(cols, rows, a, b)
  {
    var g := BlockGrid(cols, rows, a, b);
    var next := Step(g, cols, rows);
    forall x | 0 <= x < cols
      ensures next[x] == g[x]
    {
      forall y | 0 <= y < rows
        ensures next[x][y] == g[x][y]
      {
        BlockCell(cols, rows, a, b, x, y);
      }
    }
  }

  /** A grid whose only live cells are the three cells `(a - 1, b)`, `(a, b)`,
      `(a + 1, b)`: a bar along the outer index, drawn horizontally on screen. */
  function BarAlongX(cols: nat, rows: nat, a: int, b: int): (g: Grid)
    ensures Shaped(g, cols, rows)
    ensures Binary(g)
  {
    seq(cols, x => seq(rows, y => if a - 1 <= x <= a + 1 && y == b then 1 else 0))
  }

  /** A grid whose only live cells are the three cells `(a, b - 1)`, `(a, b)`,
      `(a, b + 1)`: a bar along the inner index, drawn vertically on screen. */
  function BarAlongY(cols: nat, rows: nat, a: int, b: int): (g: Grid)
    ensures Shaped(g, cols, rows)
    ensures Binary(g)
  {
    seq(cols, x => seq(rows, y => if x == a && b - 1 <= y <= b + 1 then 1 else 0))
  }

  /** One cell of the bar-along-x generation: the centre column of the bar's
      3 by 3 surroundings is born or survives, every other cell is dead. */
  lemma BarAlongXCell(cols: nat, rows: nat, a: int, b: int, x: int, y: int)
    requires 2 <= a && a + 2 < cols
    requires 2 <= b && b + 2 < rows
    requires 0 <= x < cols && 0 <= y < rows
    ensures Step(BarAlongX(cols, rows, a, b), cols, rows)[x][y] == BarAlongY(cols, rows, a, b)[x][y]
  {
    var g := BarAlongX(cols, rows, a, b);
    if !OnBorder(x, y, cols, rows) {
      if x < a - 2 || a + 2 < x || y < b - 1 || b + 1 < y {
        assert Moore(g, x, y) == 0;
      } else if x == a && b - 1 <= y <= b + 1 {
        assert Moore(g, x, y) == (if y == b then 2 else 3);
      } else if y == b {
        assert Moore(g, x, y) == 1;
      } else {
        assert Moore(g, x, y) <= 2;
      }
    }
  }

  /** A bar along x turns into the bar along y through its centre. */
  lemma BarAlongXTurns(cols: nat, rows: nat, a: int, b: int)
    requires 2 <= a && a + 2 < cols
    requires 2 <= b && b + 2 < rows
    ensures Step(BarAlongX(cols, rows, a, b), cols, rows) == BarAlongY(cols, rows, a, b)
  {
    var next := Step(BarAlongX(cols, rows, a, b), cols, rows);
    var want := BarAlongY(cols, rows, a, b);
    forall x | 0 <= x < cols
      ensures next[x] == want[x]
    {
      forall y | 0 <= y < rows
        ensures next[x][y] == want[x][y]
      {
        BarAlongXCell(cols, rows, a, b, x, y);
      }
    }
  }

  /** One cell of the bar-along-y generation: the centre row of the bar's
      3 by 3 surroundings is born or survives, every other cell is dead. */
  lemma BarAlongYCell(cols: nat, rows: nat, a: int, b: int, x: int, y: int)
    requires 2 <= a && a + 2 < cols
    requires 2 <= b && b + 2 < rows
    requires 0 <= x < cols && 0 <= y < rows
    ensures Step(BarAlongY(cols, rows, a, b), cols, rows)[x][y] == BarAlongX(cols, rows, a, b)[x][y]
  {
    var g := BarAlongY(cols, rows, a, b);
    if !OnBorder(x, y, cols, rows) {
      if x < a - 1 || a + 1 < x || y < b - 2 || b + 2 < y {
        assert Moore(g, x, y) == 0;
      } else if a - 1 <= x <= a + 1 && y == b {
        assert Moore(g, x, y) == (if x == a then 2 else 3);
      } else if x == a {
        assert Moore(g, x, y) == 1;
      } else {
        assert Moore(g, x, y) <= 2;
      }
    }
  }

  /** A bar along y turns into the bar along x through its centre. */
  lemma BarAlongYTurns(cols: nat, rows: nat, a: int, b: int)
    requires 2 <= a && a + 2 < cols
    requires 2 <= b && b + 2 < rows
    ensures Step(BarAlongY(cols, rows, a, b), cols, rows) == BarAlongX(cols, rows, a, b)
  {
    var next := Step(BarAlongY(cols, rows, a, b), cols, rows);
    var want := BarAlongX(cols, rows, a, b);
    forall x | 0 <= x < cols
      ensures next[x] == want[x]
    {
      forall y | 0 <= y < rows
        ensures next[x][y] == want[x][y]
      {
        BarAlongYCell(cols, rows, a, b, x, y);
      }
    }
  }

  /** The blinker on a 5 by 5 grid: the live cells (2, 1), (2, 2), (2, 3) step to
      (1, 2), (2, 2), (3, 2), which step back; the outer ring stays dead. */
  lemma BlinkerOscillates()
    ensures Step(BarAlongY(5, 5, 2, 2), 5, 5) == BarAlongX(5, 5, 2, 2)
    ensures Step(Step(BarAlongY(5, 5, 2, 2), 5, 5), 5, 5) == BarAlongY(5, 5, 2, 2)
    ensures forall x, y :: 0 <= x < 5 && 0 <= y < 5 ==>
              (BarAlongY(5, 5, 2, 2)[x][y] == 1 <==> x == 2 && 1 <= y <= 3)
    ensures forall x, y :: 0 <= x < 5 && 0 <= y < 5 ==>
              (BarAlongX(5, 5, 2, 2)[x][y] == 1 <==> 1 <= x <= 3 && y == 2)
  {
    BarAlongYTurns(5, 5, 2, 2);
    BarAlongXTurns(5, 5, 2, 2);
  }

  /** However long the window runs, an empty world stays empty. */
  lemma {:induction false} EmptyWorldStaysEmpty(g: Grid, cols: nat, rows: nat, n: nat)
    requires Shaped(g, cols, rows)
    requires AllDead(g)
    ensures Generations(g, cols, rows, n) == g
    decreases n
  {
    if n > 0 {
      StepKeepsDeadDead(g, cols, rows);
      EmptyWorldStaysEmpty(g, cols, rows, n - 1);
    }
  }
}
