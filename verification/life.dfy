/** One Game of Life generation as the window computes it.

    A fresh all-dead grid of the same shape is filled in: every interior cell
    gets the outcome of the birth/survival/death rule applied to its state
    and its count of live Moore neighbours, and every cell of the outer ring
    stays dead, so the border is cleared on every generation.
 */
module Life {
  import opened Grid

  /** `(x, y)` lies on the outer ring of a `cols` by `rows` grid. */
  predicate OnBorder(x: int, y: int, cols: int, rows: int) {
    x == 0 || x == cols - 1 || y == 0 || y == rows - 1
  }

  /** `(x, y)` lies strictly inside the outer ring. */
  predicate Interior(x: int, y: int, cols: int, rows: int) {
    0 < x < cols - 1 && 0 < y < rows - 1
  }

  /** The 3 by 3 block centred on `(x, y)` lies inside `g`. */
  predicate HasNeighbourhood(g: Grid, x: int, y: int) {
    && 1 <= x && x + 1 < |g|
    && 1 <= y
    && y + 1 < |g[x - 1]| && y + 1 < |g[x]| && y + 1 < |g[x + 1]|
  }

  /** The eight cells horizontally, vertically and diagonally adjacent to
      `(x, y)`, added up: the number of live neighbours of a binary grid. */
  function Moore(g: Grid, x: int, y: int): int
    requires HasNeighbourhood(g, x, y)
  {
    g[x - 1][y - 1] + g[x - 1][y] + g[x - 1][y + 1]
    + g[x][y - 1] + g[x][y + 1]
    + g[x + 1][y - 1] + g[x + 1][y] + g[x + 1][y + 1]
  }

  /** On a binary grid a cell has between 0 and 8 live neighbours. */
  lemma MooreBounds(g: Grid, x: int, y: int)
    requires Binary(g)
    requires HasNeighbourhood(g, x, y)
    ensures 0 <= Moore(g, x, y) <= 8
  {
  }

  /** The cell's next state given its state and its neighbour count `n`:
      birth on exactly 3, death below 2 or above 3, otherwise unchanged. */
  function Rule(state: int, n: int): (next: int)
    ensures state == 0 || state == 1 ==>
              (next == 0 || next == 1) && (next == 1 <==> n == 3 || (state == 1 && n == 2))
    ensures state != 0 && state != 1 ==> next == state
  {
    if state == 0 && n == 3 then 1
    else if state == 1 && (n < 2 || n > 3) then 0
    else state
  }

  /** The next generation of `g`, cell by cell. */
  function Step(g: Grid, cols: nat, rows: nat): (next: Grid)
    requires Shaped(g, cols, rows)
    ensures Shaped(next, cols, rows)
    ensures forall x, y :: 0 <= x < cols && 0 <= y < rows && OnBorder(x, y, cols, rows) ==> next[x][y] == 0
    ensures Binary(g) ==> Binary(next)
  {
    seq(cols, x requires 0 <= x < cols =>
      seq(rows, y requires 0 <= y < rows =>
        if OnBorder(x, y, cols, rows) then 0 else Rule(g[x][y], Moore(g, x, y))))
  }

  /** Conway's B3/S23 rule holds at every interior cell of a binary grid: the
      cell is alive in the next generation exactly when it has three live
      neighbours, or is alive now and has two. */
  lemma StepIsConway(g: Grid, cols: nat, rows: nat, x: int, y: int)
    requires Shaped(g, cols, rows)
    requires Binary(g)
    requires Interior(x, y, cols, rows)
    ensures Step(g, cols, rows)[x][y] == 1 <==> Moore(g, x, y) == 3 || (g[x][y] == 1 && Moore(g, x, y) == 2)
    ensures Step(g, cols, rows)[x][y] == 0 <==> !(Moore(g, x, y) == 3 || (g[x][y] == 1 && Moore(g, x, y) == 2))
  {
  }

  /** A grid with no live cell has no live cell in the next generation. */
  lemma StepKeepsDeadDead(g: Grid, cols: nat, rows: nat)
    requires Shaped(g, cols, rows)
    requires AllDead(g)
    ensures AllDead(Step(g, cols, rows))
    ensures Step(g, cols, rows) == g
  {
    var next := Step(g, cols, rows);
    forall x, y | 0 <= x < cols && 0 <= y < rows
      ensures next[x][y] == 0
    {
      if !OnBorder(x, y, cols, rows) {
        assert Moore(g, x, y) == 0;
      }
    }
    BlankIsUnique(g, cols, rows);
    BlankIsUnique(next, cols, rows);
  }

  /** Sum of `row[y - 1] .. row[y + j - 1]`: what the innermost neighbour loop
      has accumulated from one column after running for `j' = -1 .. j - 1`. */
  function RowPart(row: seq<int>, y: int, j: int): int
    requires 1 <= y && y + 1 < |row|
    requires -1 <= j <= 2
    decreases j + 1
  {
    if j == -1 then 0 else RowPart(row, y, j - 1) + row[y + j - 1]
  }

  /** What the two neighbour loops have accumulated after the outer one has run
      for `i' = -1 .. i - 1`: the 3-cell column slices of `x - 1 .. x + i - 1`. */
  function BlockPart(g: Grid, x: int, y: int, i: int): int
    requires HasNeighbourhood(g, x, y)
    requires -1 <= i <= 2
    decreases i + 1
  {
    if i == -1 then 0 else BlockPart(g, x, y, i - 1) + RowPart(g[x + i - 1], y, 2)
  }

  /** The full 3 by 3 block sum is the centre cell plus its Moore neighbours. */
  lemma BlockIsCentrePlusMoore(g: Grid, x: int, y: int)
    requires HasNeighbourhood(g, x, y)
    ensures BlockPart(g, x, y, 2) == g[x][y] + Moore(g, x, y)
  {
    assert RowPart(g[x - 1], y, 2) == g[x - 1][y - 1] + g[x - 1][y] + g[x - 1][y + 1];
    assert RowPart(g[x], y, 2) == g[x][y - 1] + g[x][y] + g[x][y + 1];
    assert RowPart(g[x + 1], y, 2) == g[x + 1][y - 1] + g[x + 1][y] + g[x + 1][y + 1];
  }

  /** Counts the live neighbours of `(x, y)` the way the window does: add up the
      whole 3 by 3 block, then take the centre cell back out. */
  method NeighbourCount(g: Grid, x: int, y: int) returns (sum: int)
    requires HasNeighbourhood(g, x, y)
    ensures sum == Moore(g, x, y)
  {
    sum := 0;
    var i := -1;
    while i < 2
      invariant -1 <= i <= 2
      invariant sum == BlockPart(g, x, y, i)
    {
      var j := -1;
      while j < 2
        invariant -1 <= j <= 2
        invariant sum == BlockPart(g, x, y, i) + RowPart(g[x + i], y, j)
      {
        sum := sum + g[x + i][y + j];
        j := j + 1;
      }
      i := i + 1;
    }
    BlockIsCentrePlusMoore(g, x, y);
    sum := sum - g[x][y];
  }

  /** Computes the next generation with the window's loops: allocate a blank
      grid, then visit every cell and write the rule's outcome for the interior
      ones, leaving the outer ring dead. */
  method Generation(g: Grid, cols: nat, rows: nat) returns (next: Grid)
    requires Shaped(g, cols, rows)
    ensures next == Step(g, cols, rows)
  {
    ghost var spec := Step(g, cols, rows);
    next := NewGrid(cols, rows);
    var x := 0;
    while x < cols
      invariant 0 <= x <= cols
      invariant Shaped(next, cols, rows)
      invariant forall i, j :: 0 <= i < x && 0 <= j < rows ==> next[i][j] == spec[i][j]
      invariant forall i, j :: x <= i < cols && 0 <= j < rows ==> next[i][j] == 0
    {
      var y := 0;
      while y < rows
        invariant 0 <= y <= rows
        invariant Shaped(next, cols, rows)
        invariant forall i, j :: 0 <= i < x && 0 <= j < rows ==> next[i][j] == spec[i][j]
        invariant forall j :: 0 <= j < y ==> next[x][j] == spec[x][j]
        invariant forall j :: y <= j < rows ==> next[x][j] == 0
        invariant forall i, j :: x < i < cols && 0 <= j < rows ==> next[i][j] == 0
      {
        var state := g[x][y];
        if !(x == 0 || x == cols - 1 || y == 0 || y == rows - 1) {
          var sum := NeighbourCount(g, x, y);
          var v;
          if state == 0 && sum == 3 {
            v := 1;
          } else if state == 1 && (sum < 2 || sum > 3) {
            v := 0;
          } else {
            v := state;
          }
          next := next[x := next[x][y := v]];
        }
        y := y + 1;
      }
      x := x + 1;
    }
    forall i | 0 <= i < cols
      ensures next[i] == spec[i]
    {
      assert forall j :: 0 <= j < rows ==> next[i][j] == spec[i][j];
    }
  }
}
