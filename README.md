# The snake game's state machine, in Dafny

This project models the game logic of a single-file Snake game (`the_snake.py`):
a snake moving on a 640 x 480 pixel screen cut into 20-pixel cells, wrapping
around at the edges, steered by arrow keys that may not turn it around, growing
by one cell for each apple it eats, starting over when it runs into itself, and
winning when its length reaches the number of cells (32 x 24 = 768).

Modules, one per part of the program:

- `Opt` (`option.dfy`): the optional value used for the pending direction and
  the vacated tail cell (Python's `None`).
- `Grid` (`grid.dfy`): the screen and cell constants, cells as pixel pairs,
  the four directions and their unit vectors, and the head's wrap-around step
  `NextHead`, with lemmas that the pixel step is exactly a step on a 32 x 24
  torus of cells and that a step is undone by the opposite step.
- `Cells` (`cells.dfy`): counting. A list of fewer than 768 cells leaves a grid
  cell free, so the apple's rejection loop has a cell to find.
- `Keys` (`keys.dfy`): the arrow-key guard of `handle_keys` as a function of
  key and current direction, the effect of one whole poll of events on the
  pending direction, and the lemmas that no poll followed by the commit of
  `update_direction` reverses the snake.
- `Snakes` (`snake.dfy`): the `Snake` class with the fields the source mutates
  (`length`, `positions` head first, `direction`, `nextDirection`, `last`),
  its methods `UpdateDirection`, `Move`, `Reset` and the function
  `HeadPosition`; `Move` is specified by the value function `Advance`.
- `Apples` (`apple.dfy`): the `Apple` class, whose position is fixed at
  creation, and `RandomizePosition`.
- `Game` (`game.dfy`): `HandleKeys` (the event loop of `handle_keys`), `Start`
  (the set-up at the top of `main`) and `Tick` (one iteration of `main`'s
  loop), with the invariant `Playing` that holds between ticks.

`Tick` requires `Playing` and, when the game goes on, ensures it again; `Start`
establishes it. `Playing` says: the body is a non-empty list of grid cells no
longer than `length`; `length` is below 768; the pending direction is unset or
equal to the current direction; the apple is on the grid and not among the
cells behind the head; and no cell behind the head repeats. Two consequences
are proved: a tick never reverses the direction the snake had when it started
(this needs the pending-direction part, because `update_direction` never clears
the pending direction), and when the head is on the apple it is not also on the
body, so skipping the collision test on an eating tick hides no collision.

Behaviour of the code worth noting, modelled as the code has it:

- The self-collision test (the_snake.py:313) runs before `move`, against the
  body left by the previous tick's move, whose tail has already been removed;
  a head may therefore enter the cell the tail has just left.
- `reset` sets only `length` and `positions`: the direction, the pending
  direction and `last` are kept, and the apple is not placed again.
- `update_direction` copies the pending direction but never clears it.
- The apple is placed (line 307) before the win test (line 317). This is safe:
  when `length` has just become 768 the body still has at most 767 cells, so a
  free cell exists (`Cells.FreeCellExists`, used in `Game.Tick`).
- Nothing in `the_snake.py` reads or writes a score log.

Python's `%` with a positive right operand agrees with Dafny's `%`, so the
wrap-around arithmetic is written as in the source. Python integers are
unbounded, as Dafny's are.

## Model

| member | source | states |
|---|---|---|
| `Grid.CellAt` | the_snake.py:117-119 | a column in 0..31 and a row in 0..23, scaled by the cell size, give an on-grid cell from which the column and row are recovered |
| `Grid.CellAtIndices` | the_snake.py:7-10 | every on-grid cell is the scaled cell of a column in 0..31 and a row in 0..23 |
| `Grid.Delta` | the_snake.py:12-15 | each direction is a unit vector: one component is 0 and the other is 1 or -1 |
| `Grid.Opposite` | the_snake.py:13-16 | the opposite of a direction has the negated unit vector and differs from it |
| `Grid.NextHead` | the_snake.py:191-200 | the new head always lies in [0,640) x [0,480) |
| `Grid.NextHeadOnTorus` | the_snake.py:194-199 | from an on-grid cell the new head is on the grid and is the neighbouring cell on a 32 x 24 torus of cells, because 640 and 480 are multiples of 20 |
| `Grid.StepBack` | the_snake.py:194-199 | a step followed by the opposite step returns to the same cell |
| `Grid.WrapEdges` | the_snake.py:194-199 | at x=620 moving right the head lands at x=0, at x=0 moving left at 620, at y=0 moving up at 460, at y=460 moving down at 0 |
| `Cells.AllCellsComplete` | the_snake.py:282 | the grid has exactly 32 x 24 distinct cells and every on-grid cell is one of them |
| `Cells.FreeCellExists` | the_snake.py:116-121 | a list of fewer than 768 cells leaves an on-grid cell free, so the sampling loop has a cell to find |
| `Keys.KeyTarget` | the_snake.py:257-264 | an arrow key yields its own direction exactly when that direction is not the opposite of the current one; any other key yields nothing |
| `Keys.AfterEvents` | the_snake.py:252-264 | after any sequence of events the pending direction is either the old one or a direction that does not reverse the current direction |
| `Keys.LastAcceptedKeyWins` | the_snake.py:252-264 | of the keys of one poll, the last accepted one decides the pending direction |
| `Keys.QuitEndsPoll` | the_snake.py:252-255 | events after a quit event have no effect |
| `Keys.ReversingKeyIgnored` | the_snake.py:252-264 | a key pointing opposite to the current direction, pressed after any events of a poll, leaves the pending direction as those events left it |
| `Keys.Committed` | the_snake.py:181-182 | the committed direction is the pending direction when one is set, and otherwise the current direction |
| `Keys.NoReversal` | the_snake.py:257-264 | handling a poll and then committing the pending direction never yields the opposite of the starting direction, when the leftover pending direction is unset or equal to the current one |
| `Snakes.Advance` | the_snake.py:203-213 | a move puts the new head first and keeps the old cells in order behind it; if the body would exceed `length` it drops exactly the old tail and reports it as vacated, otherwise it keeps every old cell and reports none |
| `Snakes.AdvanceKeepsShape` | the_snake.py:210-213 | a body of 1 to `length` grid cells has min(old size + 1, `length`) cells after a move onto a grid cell, all on the grid |
| `Snakes.AdvanceBehindHead` | the_snake.py:203-213 | the cells behind the new head are old cells: a cell not in the old body is not behind the head, and an old body without repetitions gives a body behind the head without repetitions |
| `Snakes.Snake.constructor` | the_snake.py:138-177 | a new snake has length 1, a single cell at (320, 240), direction right, no pending direction and no vacated cell |
| `Snakes.Snake.HeadPosition` | the_snake.py:232-237 | the head is the first cell of the body, and a grid cell whenever the snake is valid |
| `Snakes.Snake.UpdateDirection` | the_snake.py:179-182 | the direction becomes the pending direction when one is set and is otherwise unchanged; nothing else changes |
| `Snakes.Snake.Move` | the_snake.py:184-213 | the new body and vacated cell are those of `Advance` from the head's wrapped step in the current direction; `length` and the directions are unchanged; a valid snake stays valid |
| `Snakes.Snake.Reset` | the_snake.py:239-244 | length becomes 1 and the body the single centre cell; directions and the vacated cell are unchanged |
| `Apples.Apple.constructor` | the_snake.py:84-104 | a new apple lies on the grid and not on any cell of the given body |
| `Apples.Apple.RandomizePosition` | the_snake.py:106-121 | when a free cell exists, the chosen cell is a grid cell (x in 0, 20, ..., 620 and y in 0, 20, ..., 460) not in the body |
| `Game.SelfCollided` | the_snake.py:313 | the snake has run into itself exactly when some cell behind the head is the head's cell |
| `Game.HandleKeys` | the_snake.py:247-264 | reports quit exactly when a quit event is present; the pending direction becomes that of `AfterEvents`, and only it changes |
| `Game.Start` | the_snake.py:279-282 | the game starts with a fresh one-cell snake at the centre heading right and an apple elsewhere, satisfying the game invariant |
| `Game.Tick` | the_snake.py:284-326 | one loop iteration: quit leaves the body as it was; the direction never reverses; eating raises `length` by exactly one, places the apple off the body and makes the following move keep the tail; a collision resets the snake; the win is reported exactly when `length` reaches 768, before any move, leaving the body and the vacated cell as they were; the game invariant is kept |
| `Game.EatingIsNotColliding` | the_snake.py:303-314 | in a running game a head on the apple is not on the body, so the collision branch skipped by the `elif` could not have fired |

## Left out

- Rendering and windowing: the window, caption and clock set-up (lines 34-40), every `draw` method, `screen.fill`, `clock.tick`, `display.update`, and the colours (`body_color`, the colour constants); they only draw.
- The `GameObject` base class and the `position` field it gives the snake: the snake never reads it after construction.
- Event polling itself: a poll is a parameter `events` of `HandleKeys` and `Tick`; `pygame.quit()` and `SystemExit` become the result `Exit`, and the victory message, `pygame.quit()` and `SystemExit` become the result `Victory`.
- Apples.Apple.RandomizePosition: the random draws of `randint` and their uniform distribution are not modelled; any free grid cell may be chosen, in one step instead of the rejection loop, which has no termination argument beyond a free cell existing (stated as the precondition).
- The unbounded `while True` loop of `main`: one iteration is `Game.Tick`, and the state between iterations is described by the invariant `Playing`.
- Constructor parameters other than the defaults `main` uses, and the sharing of the mutable default `positions` list between instances: each snake gets its own list.
- `app/write_game_result.py` and `app/read_game_record.py` (the score log): file-system code not called from `the_snake.py`; they are not part of this model.
