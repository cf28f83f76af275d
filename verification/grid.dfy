/** The cell matrix of the Game of Life window.

    A grid is a list of `cols` columns, each a list of `rows` cells, and is
    indexed `g[x][y]`: the outer index is the horizontal cell coordinate and
    the inner one the vertical coordinate, exactly as the window stores it.
    A cell holds the integer 0 (dead) or 1 (alive); like the window, the
    model keeps the plain integer representation and states binariness as an
    invariant rather than building it into the type.
 */
module Grid {

  type Grid = seq<seq<int>>

  /** `g` has `cols` columns of `rows` cells each. */
  predicate Shaped(g: Grid, cols: nat, rows: nat) {
    |g| == cols && forall x :: 0 <= x < |g| ==> |g[x]| == rows
  }

  /** `(x, y)` addresses a cell of `g`. */
  predicate InBounds(g: Grid, x: int, y: int) {
    0 <= x < |g| && 0 <= y < |g[x]|
  }

  /** Every cell is dead (0) or alive (1). */
  predicate Binary(g: Grid) {
    forall x, y :: 0 <= x < |g| && 0 <= y < |g[x]| ==> g[x][y] == 0 || g[x][y] == 1
  }

  /** Every cell is dead. */
  predicate AllDead(g: Grid) {
    forall x, y :: 0 <= x < |g| && 0 <= y < |g[x]| ==> g[x][y] == 0
  }

  /** The fresh grid the window allocates at start-up and at the start of every
      generation: `cols` columns of `rows` dead cells. */
  function Blank(cols: nat, rows: nat): (g: Grid)
    ensures Shaped(g, cols, rows)
    ensures AllDead(g)
    ensures Binary(g)
  {
    seq(cols, _ => seq(rows, _ => 0))
  }

  /** A grid is determined by its shape and its being all dead: `Blank` is the
      only grid of its shape with no live cell. */
  lemma BlankIsUnique(g: Grid, cols: nat, rows: nat)
    requires Shaped(g, cols, rows)
    requires AllDead(g)
    ensures g == Blank(cols, rows)
  {
    var b := Blank(cols, rows);
    forall x | 0 <= x < cols
      ensures g[x] == b[x]
    {
      assert forall y :: 0 <= y < rows ==> g[x][y] == b[x][y];
    }
  }

  /** Builds the blank grid column by column, appending one dead cell at a
      time, the way the window fills its nested lists. */
  method NewGrid(cols: nat, rows: nat) returns (g: Grid)
    ensures Shaped(g, cols, rows)
    ensures AllDead(g)
  {
    g := [];
    var x := 0;
    while x < cols
      invariant 0 <= x <= cols
      invariant Shaped(g, x, rows)
      invariant AllDead(g)
    {
      var column: seq<int> := [];
      var y := 0;
      while y < rows
        invariant 0 <= y <= rows
        invariant |column| == y
        invariant forall j :: 0 <= j < y ==> column[j] == 0
      {
        column := column + [0];
        y := y + 1;
      }
      g := g + [column];
      x := x + 1;
    }
  }

  /** The value a toggled cell takes: a dead cell becomes alive and any other
      value becomes dead. */
  function Flip(v: int): (w: int)
    ensures v == 0 || v == 1 ==> w == 1 - v
    ensures w == 0 || w == 1
  {
    if v == 0 then 1 else 0
  }

  /** Flips exactly the cell `(x, y)`; every other cell and the shape stay. */
  function Toggle(g: Grid, x: int, y: int): (t: Grid)
    requires InBounds(g, x, y)
    ensures |t| == |g|
    ensures forall i :: 0 <= i < |g| ==> |t[i]| == |g[i]|
    ensures t[x][y] == Flip(g[x][y])
    ensures forall i, j :: InBounds(g, i, j) && (i != x || j != y) ==> t[i][j] == g[i][j]
    ensures Binary(g) ==> Binary(t)
  {
    g[x := g[x][y := Flip(g[x][y])]]
  }

  /** Toggling the same cell of a binary grid twice restores the grid. */
  lemma ToggleTwice(g: Grid, x: int, y: int)
    requires Binary(g)
    requires InBounds(g, x, y)
    ensures Toggle(Toggle(g, x, y), x, y) == g
  {
    var t := Toggle(Toggle(g, x, y), x, y);
    assert t[x] == g[x];
  }
}
