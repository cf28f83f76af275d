# Game of Life window — Dafny model

This project models the simulation logic of a small Kotlin/Swing Game of Life
program (`src/Window.kt`). The window holds a fixed `cols` by `rows` grid of
integer cells, 0 for dead and 1 for alive. It also holds two control flags:
`running`, flipped by the space bar, and `nextFrame`, a one-shot step request
set by the right arrow. Each frame of the main loop computes one generation
when the simulation runs or a step was requested, and then consumes the
request. While paused, a mouse press flips the cell under the pointer.

A generation fills a fresh all-dead grid. Every interior cell gets the
birth/survival/death rule applied to its state and its count of live Moore
neighbours. The count is computed as the 3 by 3 block sum minus the cell
itself. Every cell of the outer ring stays dead, so the border is cleared on
every generation.

The grid keeps the program's orientation: `g[x][y]`, with the outer index the
horizontal cell coordinate (`0 .. cols`) and the inner index the vertical one
(`0 .. rows`).

Files:
- `grid.dfy` (module `Grid`): the grid, its shape and binariness invariants, the blank grid, the cell toggle.
- `life.dfy` (module `Life`): the neighbour count, the rule, the generation `Step`, and the loop-based `Generation` proved equal to it.
- `control.dfy` (module `Control`): the two flags and the key handler.
- `window.dfy` (module `Window`): the window state, the frame `Tick`, the mouse press `Click`, and event sequences with the invariant every reachable state keeps.
- `patterns.dfy` (module `Patterns`): the empty world, the block still life and the blinker.

Two edge cases of the code are modelled as written:
- The click handler has no bounds check. A press beyond the last whole cell makes the list access throw, so `Window.Click` returns `OutOfBounds`. `Window.Apply` then leaves the state unchanged, because the exception ends the handler before the write.
- `cols = width/20` and `rows = height/20`, so either can be 0: a window narrower or lower than 20 pixels has an empty grid.

## Model

| member | source | states |
|---|---|---|
| Grid.Blank | src/Window.kt:46-53 | the start-up grid has `cols` columns of `rows` cells, all dead (hence binary) |
| Grid.BlankIsUnique | src/Window.kt:102-109 | any grid of that shape with no live cell is the blank grid, so "allocate blank" is determined by the shape alone |
| Grid.NewGrid | src/Window.kt:46-53 | the nested loops that append dead cells build a `cols` by `rows` all-dead grid |
| Grid.Flip | src/Window.kt:73 | a toggled dead cell becomes alive and a live one dead; the result is always 0 or 1 |
| Grid.Toggle | src/Window.kt:73 | toggling keeps the shape, flips cell `(x, y)` of a binary grid, leaves every other cell unchanged and keeps the grid binary |
| Grid.ToggleTwice | src/Window.kt:73 | toggling the same cell twice restores a binary grid |
| Life.MooreBounds | src/Window.kt:116-123 | on a binary grid an interior cell has between 0 and 8 live neighbours |
| Life.Rule | src/Window.kt:126-131 | for a binary state the next state is binary and alive exactly when the count is 3, or the cell is alive and the count is 2 (B3/S23); any other state value is carried over |
| Life.Step | src/Window.kt:102-136 | a generation keeps the `cols` by `rows` shape, leaves every outer-ring cell dead whatever the input, and keeps a binary grid binary |
| Life.StepIsConway | src/Window.kt:115-131 | at every interior cell of a binary grid the next state is alive iff the cell has 3 live neighbours, or is alive with 2; dead otherwise |
| Life.StepKeepsDeadDead | src/Window.kt:111-136 | an all-dead grid steps to itself |
| Life.BlockIsCentrePlusMoore | src/Window.kt:118-122 | the 3 by 3 block sum accumulated by the neighbour loops is the centre cell plus its eight neighbours |
| Life.NeighbourCount | src/Window.kt:116-123 | summing the block with the two nested loops and then subtracting the cell yields exactly the sum of the eight surrounding cells |
| Life.Generation | src/Window.kt:102-136 | the loop implementation (blank grid, skip the ring, count, apply the three-way branch) computes exactly `Step` |
| Control.KeyPressed | src/Window.kt:57-64 | space flips `running`, right arrow sets `nextFrame`, every other key leaves both flags unchanged |
| Control.SpaceTwiceRestores | src/Window.kt:59-60 | two space presses cancel out |
| Control.RightIsIdempotent | src/Window.kt:61-62 | a second right-arrow press before a frame adds nothing |
| Control.KeyPressedAdvances | src/Window.kt:57-64 | after a key press the next frame computes a generation iff running (after the press) or a step is pending |
| Control.AfterFrame | src/Window.kt:100-101 | a frame keeps `running` and always leaves `nextFrame` false; without a generation the flags are unchanged |
| Window.DimsOf | src/Window.kt:19-21 | the grid holds as many whole 20-pixel cells as fit in the window: `cols*20 <= width < (cols+1)*20`, likewise for rows |
| Window.Init | src/Window.kt:19-53 | a new window has a valid all-dead grid of those dimensions and starts paused with no step pending |
| Window.Tick | src/Window.kt:99-137 | if neither running nor stepping, a frame changes nothing; otherwise the grid becomes its next generation; `running` is kept, `nextFrame` is false afterwards, validity is preserved |
| Window.StepRequestIsConsumed | src/Window.kt:100-101 | a step request while paused advances one generation, and the following frame changes nothing |
| Window.PixelToCell | src/Window.kt:70-71 | a pixel maps to the 20-pixel cell that contains it (truncating toward zero for a negative coordinate) |
| Window.PixelToCellExample | src/Window.kt:70-71 | the pixel (45, 61) lies in cell (2, 3) |
| Window.Click | src/Window.kt:68-75 | while running a press changes nothing; while paused it succeeds iff the cell under the pointer is in the grid, flips exactly that cell and keeps everything else; the flags never change |
| Window.ClickTwiceRestores | src/Window.kt:69-73 | two presses on the same pixel while paused restore a binary grid |
| Window.Apply | src/Window.kt:57-76 | any single event keeps the grid's shape and validity; key presses never touch the grid; mouse presses never touch the flags |
| Window.Run | src/Window.kt:142-145 | a sequence of events keeps the grid's dimensions |
| Window.RunPreservesValid | src/Window.kt:46-137 | every event sequence keeps the grid shaped and binary |
| Window.ReachableIsValid | src/Window.kt:19-137 | every state reachable from a fresh window is valid |
| Window.PausedFramesIdle | src/Window.kt:100 | while paused with no step pending, any number of frames changes nothing |
| Window.SingleStepWhilePaused | src/Window.kt:100-101 | while paused, a step request followed by any number of frames yields exactly one generation and clears the request |
| Window.RunningFramesGenerate | src/Window.kt:100-136 | while running, any run of `n` frames with no input computes exactly `n` generations |
| Patterns.BlockIsStill | src/Window.kt:111-136 | a 2 by 2 block clear of the outer ring is unchanged by a generation |
| Patterns.BarAlongXTurns | src/Window.kt:111-136 | a three-cell bar along x, clear of the ring, turns into the bar along y through its centre |
| Patterns.BarAlongYTurns | src/Window.kt:111-136 | a three-cell bar along y, clear of the ring, turns into the bar along x through its centre |
| Patterns.BlinkerOscillates | src/Window.kt:111-136 | on a 5 by 5 grid the live cells (2,1),(2,2),(2,3) step to (1,2),(2,2),(3,2) and back |
| Patterns.EmptyWorldStaysEmpty | src/Window.kt:111-136 | an empty grid stays empty for any number of generations |

## Left out

- Window construction, frame sizing, listener registration and canvas setup (src/Window.kt:27-43): Swing plumbing with no logic. Only the derived `cols`/`rows` and the initial grid are modelled.
- `render` (src/Window.kt:79-92) and the buffer-strategy drawing in `run` (src/Window.kt:146-156): pixel output.
- The title string and the `fps`/`dt` computation (src/Window.kt:97, 157-158): floating point and the wall clock, display only, never used for a decision.
- The unending `while (true)` loop of `run` (src/Window.kt:142): modelled as a single `Tick` per frame and as finite event sequences (`Window.Run`).
- Concurrency between the AWT event thread and the frame loop over the shared grid and flags: events and frames are applied one after another.
- Window.DimsOf, Window.Init: take the pixel width and height as `nat`; the program's signed `Int` sizes are never negative for a real window.
- Life.Step, Life.NeighbourCount, Life.Moore: cells and neighbour sums are unbounded integers, while the program's `sum` is a 32-bit `Int` that wraps around. The wrap could only change a result on a grid holding values far outside 0 and 1; such grids never arise, since `Window.ReachableIsValid` shows every reachable grid is binary, where a sum is at most 9.
