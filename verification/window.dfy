/** The window's state and the three things that change it: a key press, a
    mouse press and a frame of the main loop.

    The grid dimensions are fixed when the window is created, from its pixel
    size and the 20-pixel cell pitch. Events are applied one after another;
    the model does not interleave the input thread with the frame loop.
 */
module Window {
  import opened Grid
  import opened Life
  import opened Control

  /** Side of one cell in pixels. */
  const Resolution: nat := 20

  /** Number of columns (horizontal cells) and rows (vertical cells). */
  datatype Dims = Dims(cols: nat, rows: nat)

  /** The grid dimensions of a `width` by `height` pixel window: as many whole
      cells as fit, any leftover strip of pixels being ignored. */
  function DimsOf(width: nat, height: nat): (d: Dims)
    ensures d.cols * Resolution <= width < (d.cols + 1) * Resolution
    ensures d.rows * Resolution <= height < (d.rows + 1) * Resolution
  {
    Dims(width / Resolution, height / Resolution)
  }

  datatype State = State(grid: Grid, control: Control)

  /** The invariant every reachable state keeps: the grid has the window's
      dimensions and holds only dead and live cells. */
  predicate Valid(d: Dims, s: State) {
    Shaped(s.grid, d.cols, d.rows) && Binary(s.grid)
  }

  /** The state of a freshly created window: all cells dead, paused, no step
      requested. */
  function Init(width: nat, height: nat): (s: State)
    ensures Valid(DimsOf(width, height), s)
    ensures AllDead(s.grid)
    ensures !s.control.running && !s.control.nextFrame
  {
    State(Blank(width / Resolution, height / Resolution), Initial)
  }

  /** One frame of the main loop: when running or asked to step, replace the
      grid by its next generation and consume the step request; otherwise
      change nothing. */
  function Tick(d: Dims, s: State): (s': State)
    requires Shaped(s.grid, d.cols, d.rows)
    ensures s'.control.running == s.control.running
    ensures !s'.control.nextFrame
    ensures !Advances(s.control) ==> s' == s
    ensures Advances(s.control) ==> s'.grid == Step(s.grid, d.cols, d.rows)
    ensures Valid(d, s) ==> Valid(d, s')
  {
    if Advances(s.control) then State(Step(s.grid, d.cols, d.rows), AfterFrame(s.control)) else s
  }

  /** A step request while paused yields exactly one generation: the frame
      after it computes nothing more. */
  lemma StepRequestIsConsumed(d: Dims, s: State)
    requires Shaped(s.grid, d.cols, d.rows)
    requires !s.control.running && s.control.nextFrame
    ensures Tick(d, s).grid == Step(s.grid, d.cols, d.rows)
    ensures Tick(d, Tick(d, s)) == Tick(d, s)
  {
  }

  /** The cell coordinate of a pixel coordinate: division by the pitch,
      truncating toward zero as Kotlin's integer division does. */
  function PixelToCell(p: int): (i: int)
    ensures 0 <= p ==> 0 <= i && i * Resolution <= p < (i + 1) * Resolution
    ensures p < 0 ==> i <= 0 && (i - 1) * Resolution < p <= i * Resolution
  {
    if p >= 0 then p / Resolution else -((-p) / Resolution)
  }

  /** The pixel (45, 61) lies in cell (2, 3). */
  lemma PixelToCellExample()
    ensures PixelToCell(45) == 2 && PixelToCell(61) == 3
  {
  }

  /** What a mouse press does: either it is handled, giving the new state, or
      the grid access throws because the pressed cell lies outside the grid. */
  datatype Outcome = Handled(state: State) | OutOfBounds

  /** A mouse press at pixel `(px, py)`. While running it is ignored. While
      paused the cell under the pointer is flipped; there is no bounds check,
      so a press beyond the last whole cell ends in `OutOfBounds`. */
  function Click(s: State, px: int, py: int): (out: Outcome)
    ensures s.control.running ==> out == Handled(s)
    ensures !s.control.running ==>
              (out.Handled? <==> InBounds(s.grid, PixelToCell(px), PixelToCell(py)))
    ensures out.Handled? ==> out.state.control == s.control
    ensures out.Handled? ==> |out.state.grid| == |s.grid|
    ensures out.Handled? ==> forall i :: 0 <= i < |s.grid| ==> |out.state.grid[i]| == |s.grid[i]|
    ensures !s.control.running && out.Handled? ==>
              forall i, j :: InBounds(s.grid, i, j) ==>
                out.state.grid[i][j] ==
                  if i == PixelToCell(px) && j == PixelToCell(py) then Flip(s.grid[i][j]) else s.grid[i][j]
    ensures out.Handled? && Binary(s.grid) ==> Binary(out.state.grid)
  {
    if s.control.running then Handled(s)
    else
      var x := PixelToCell(px);
      var y := PixelToCell(py);
      if InBounds(s.grid, x, y) then Handled(State(Toggle(s.grid, x, y), s.control))
      else OutOfBounds
  }

  /** Two presses on the same pixel while paused restore the grid. */
  lemma ClickTwiceRestores(s: State, px: int, py: int)
    requires Binary(s.grid)
    requires !s.control.running
    requires Click(s, px, py).Handled?
    ensures Click(Click(s, px, py).state, px, py) == Handled(s)
  {
    ToggleTwice(s.grid, PixelToCell(px), PixelToCell(py));
  }

  /** The inputs the window reacts to, in the order they are applied. */
  datatype Event = KeyDown(code: int) | PointerDown(x: int, y: int) | Frame

  /** Applies one event. A key press only touches the control flags. A mouse
      press whose grid access throws aborts its handler before anything is
      written, so it leaves the state as it was. */
  function Apply(d: Dims, s: State, e: Event): (s': State)
    requires Shaped(s.grid, d.cols, d.rows)
    ensures Shaped(s'.grid, d.cols, d.rows)
    ensures Valid(d, s) ==> Valid(d, s')
    ensures e.KeyDown? ==> s'.grid == s.grid
    ensures e.PointerDown? ==> s'.control == s.control
  {
    match e
    case KeyDown(code) => State(s.grid, KeyPressed(s.control, code))
    case PointerDown(px, py) =>
      (match Click(s, px, py)
       case Handled(t) => t
       case OutOfBounds => s)
    case Frame => Tick(d, s)
  }

  /** Applies a sequence of events in order. */
  function Run(d: Dims, s: State, events: seq<Event>): (s': State)
    requires Shaped(s.grid, d.cols, d.rows)
    ensures Shaped(s'.grid, d.cols, d.rows)
    decreases |events|
  {
    if events == [] then s else Run(d, Apply(d, s, events[0]), events[1..])
  }

  /** Every sequence of events keeps the state valid. */
  lemma {:induction false} RunPreservesValid(d: Dims, s: State, events: seq<Event>)
    requires Valid(d, s)
    ensures Valid(d, Run(d, s, events))
    decreases |events|
  {
    if events != [] {
      RunPreservesValid(d, Apply(d, s, events[0]), events[1..]);
    }
  }

  /** Every state reachable from a fresh window is valid. */
  lemma ReachableIsValid(width: nat, height: nat, events: seq<Event>)
    ensures Valid(DimsOf(width, height), Run(DimsOf(width, height), Init(width, height), events))
  {
    RunPreservesValid(DimsOf(width, height), Init(width, height), events);
  }

  /** `n` frames with no input in between. */
  function Frames(n: nat): (es: seq<Event>)
    ensures |es| == n
    ensures forall k :: 0 <= k < n ==> es[k] == Frame
  {
    seq(n, _ => Frame)
  }

  /** While paused with no step requested, frames change nothing. */
  lemma {:induction false} PausedFramesIdle(d: Dims, s: State, n: nat)
    requires Shaped(s.grid, d.cols, d.rows)
    requires !Advances(s.control)
    ensures Run(d, s, Frames(n)) == s
    decreases n
  {
    if n > 0 {
      assert Frames(n)[1..] == Frames(n - 1);
      PausedFramesIdle(d, s, n - 1);
    }
  }

  /** While paused, a step request followed by any number of frames advances
      the grid by exactly one generation and leaves the request consumed. */
  lemma SingleStepWhilePaused(d: Dims, s: State, n: nat)
    requires Shaped(s.grid, d.cols, d.rows)
    requires !s.control.running && s.control.nextFrame
    ensures Run(d, s, Frames(n + 1)) == State(Step(s.grid, d.cols, d.rows), Control(false, false))
  {
    var t := Tick(d, s);
    assert Frames(n + 1)[1..] == Frames(n);
    PausedFramesIdle(d, t, n);
  }

  /** While running, `n` frames compute `n` generations. */
  function Generations(g: Grid, cols: nat, rows: nat, n: nat): (h: Grid)
    requires Shaped(g, cols, rows)
    ensures Shaped(h, cols, rows)
    decreases n
  {
    if n == 0 then g else Generations(Step(g, cols, rows), cols, rows, n - 1)
  }

  /** Running with no input, every frame computes one generation: after the
      frames in `events` the grid is `|events|` generations on. */
  lemma {:induction false} RunningFramesGenerate(d: Dims, s: State, events: seq<Event>)
    requires Shaped(s.grid, d.cols, d.rows)
    requires s.control.running
    requires forall k :: 0 <= k < |events| ==> events[k] == Frame
    ensures Run(d, s, events).grid == Generations(s.grid, d.cols, d.rows, |events|)
    decreases |events|
  {
    if events != [] {
      assert events[0] == Frame;
      var t := Tick(d, s);
      assert Run(d, s, events) == Run(d, t, events[1..]);
      assert Generations(s.grid, d.cols, d.rows, |events|)
          == Generations(t.grid, d.cols, d.rows, |events[1..]|);
      RunningFramesGenerate(d, t, events[1..]);
    }
  }
}
