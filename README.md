# wastedris game engine in Dafny

This project models the game-state engine of wastedris, a falling-block
puzzle game for the terminal. The engine is the class `GAME` in
`game_core.cpp`. It holds:

- a 13-row by 11-column grid of colour indices (`bin`);
- the falling piece, a 4x4 matrix (`cur_piece`), anchored at
  `(cur_p_x, cur_p_y)`;
- the queued piece (`next_piece`);
- the running flag (`f_stat`), the count of clearings
  (`count_clearing_rows`), and the gravity step index (`i_step`);
- the drawn picture (`canvas`) and the picture last sent to the terminal
  (`shadow`).

The model has two layers.

- **Specification values** (modules `Pieces`, `Generator`, `Board`,
  `Session`):
  - a piece is a `seq<seq<int>>` with 4 rows of 4 cells;
  - the grid is a `seq<seq<int>>` with 13 rows of 11 cells;
  - the state of one game is the datatype `Session.State`;
  - what a key press does is the function `Session.Play`;
  - what one iteration of the gravity thread does is `Session.Tick`;
  - what `init_stat` sets up is `Session.Initial`.

  The lemmas in these modules state what the game promises. Rotations undo
  each other, and four right turns are the identity. Each generated piece is
  four cells of one colour. A piece never overlaps the walls, the floor or
  locked cells. Row clearing leaves no full row and bumps the counter by
  exactly one when anything was cleared.
- **The engine** (module `Engine`, class `Engine.Game`):
  - the grid, the canvas, the shadow and both pieces are `array2<int>`
    fields;
  - `init_stat`, `copy_pieces`, the rotations, `placePiece`,
    `eval_and_clean` and `draw_cells` are methods with loops over the
    arrays, and so are the collision tests `isMovable` and `isRotatable`;
    `rand_next` is a method of straight-line cell writes followed by the
    rotations, which loop; `play_game`, `abort` and one iteration of
    `update` are methods that call them; `isRunning` is a function of the
    status field;
  - `Game.View()` reads the fields back as a `Session.State`;
  - `PlayGame`, `GravityStep`, `InitStat` and the constructor are proved to
    leave `View()` equal to the `Session` function applied to the old view:
    `PlayGame` gives `Play`, `GravityStep` gives `Tick`, and the constructor
    gives `Initial`. Their helpers are proved against the `Board` and
    `Generator` functions (`Generate`, `Place`, `Compacted`, `Composite`)
    or against single fields;
  - the drawing methods are proved to leave the canvas equal to
    `Board.Composite` and the shadow equal to the canvas.

The source's random numbers (`rand()` compared against fractions such as
3/7 and 1/6) are replaced by a `Generator.Draws` value that is passed in.
It holds four integer choices: the colour draw, the shape, the variant and
the turn. `Generator.Generate` is the piece that `rand_next` builds for
those choices.

### How the code behaves at the edges

These behaviours come from the code and are modelled as written.

- `eval_and_clean` moves the rows above a full row down by one, but never
  empties row 0. After n full rows are removed, rows 0..n all hold the old
  top row. `Board.Compacted` is this closed form, and
  `Board.CompactedRepeatsTopRow` states it.
- If row 0 itself is full, the search loop never terminates
  (`Board.FullTopRowNeverEnds`). Row 0 is never rewritten and stays full.
  Every shift copies it into row 1. So the search is stuck for good at
  row 1 or row 0, whichever it reaches first. The game then freezes with
  the mutex held. The model has no next state there: `Session.Lock`,
  `Session.Gravity` and `Session.Tick` require `Session.LockEnds`, and so do
  the engine methods that clear rows (see Left out).
- `play_game` does not check `f_stat`. A key pressed after the game has
  stopped still moves the piece.
- `update` checks `f_stat` only at the top of its loop. The gravity step
  itself runs whatever the status is.
- The collision test treats the rows above the grid (y < 0) as open. A
  piece spawns with its whole box above the top row. The game is over when
  a piece cannot fall while its box still reaches above row 0.
- The constructor runs `init_stat` and `draw_cells` first, and sets
  `i_step` to 0 after them. The model sets `iStep` to 0 first. Nothing in
  `init_stat` or `draw_cells` reads `i_step`, so the resulting state is the
  same.

## Model

| member | source | states |
|---|---|---|
| Pieces.RotR | game_core.cpp:349-359 | the clockwise turn moves the cell at (i, j) to (j, 3-i) |
| Pieces.RotL | game_core.cpp:366-376 | the anti-clockwise turn moves the cell at (i, j) to (3-j, i) |
| Pieces.RotLUndoesRotR | game_core.cpp:349-376 | an anti-clockwise turn after a clockwise one gives back the same piece |
| Pieces.RotRUndoesRotL | game_core.cpp:349-376 | a clockwise turn after an anti-clockwise one gives back the same piece |
| Pieces.FourTurnsIdentity | game_core.cpp:349-359 | four clockwise turns give back the same piece |
| Pieces.HalfTurn | game_core.cpp:318-322 | the double left turn of rand_next equals two right turns and moves (i, j) to (3-i, 3-j) |
| Pieces.RotRKeepsCells | game_core.cpp:349-359 | a clockwise turn keeps the multiset of cell values |
| Pieces.RotLKeepsCells | game_core.cpp:366-376 | an anti-clockwise turn keeps the multiset of cell values |
| Pieces.RotRKeepsLegal | game_core.cpp:349-359 | a clockwise turn of a piece holding only legal colour indices holds only legal ones |
| Pieces.RotLKeepsLegal | game_core.cpp:366-376 | the same for the anti-clockwise turn |
| Generator.ColourOf | game_core.cpp:260-262 | colour draws 0..5 give 1..6 and draws 6..11 give 11..16, never white (7 or 17) |
| Generator.ColourOfBijective | game_core.cpp:260-262 | each of the twelve non-white colours comes from exactly one draw |
| Generator.Square | game_core.cpp:264-267 | the first silhouette written: the 2x2 square of the colour in the middle of the box; it is the shape when the shape draw is 2, and a four-cell piece by `ShapeIsTetromino` |
| Generator.Shape | game_core.cpp:269-311 | the square with the cells the shape and variant branches overwrite; every result is four cells of the colour by `ShapeIsTetromino` |
| Generator.Turn | game_core.cpp:313-322 | the final turn: left, right, two left turns or none; `RotRKeepsTetromino`, `RotLKeepsTetromino` and `Pieces.HalfTurn` state what it keeps |
| Generator.Generate | game_core.cpp:258-323 | the piece rand_next writes for the draws: the silhouette of the drawn colour after the drawn turn; `GenerateIsTetromino` states that it is four cells of one non-white colour |
| Generator.ShapeIsTetromino | game_core.cpp:264-311 | every shape and variant the generator writes has exactly four cells of the drawn colour and every other cell empty |
| Generator.RotRKeepsTetromino | game_core.cpp:349-359 | a clockwise turn keeps a piece four cells of one colour |
| Generator.RotLKeepsTetromino | game_core.cpp:366-376 | an anti-clockwise turn keeps a piece four cells of one colour |
| Generator.GenerateIsTetromino | game_core.cpp:258-323 | every piece rand_next produces is four cells of one non-white colour, after any of the four final turns, and holds only legal values |
| Board.Blocked | game_core.cpp:694-701 | a cell is blocked when it is left of column 0, right of the last column, at or below the floor, or a non-empty grid cell; rows above the grid are never blocked |
| Board.Fits | game_core.cpp:736-741 | the collision test: no non-empty cell of the piece lands on a blocked cell; `FitsBelowCeilingIsInside`, `SpawnFits` and `RotationReversible` state its consequences |
| Board.FitsBelowCeilingIsInside | game_core.cpp:684-707 | a piece that passes the collision test with its box at or below row 0 lies wholly on the grid |
| Board.SpawnFits | game_core.cpp:340-341 | a piece at the spawn anchor ((11-4)/2, -4) passes the collision test whatever the grid holds |
| Board.RotationReversible | game_core.cpp:715-747 | when a turn passes the rotation test, the opposite turn of the result passes it too and restores the piece |
| Board.Place | game_core.cpp:754-764 | every non-empty cell of the piece is written at (x+j, y+i) of the grid |
| Board.PlaceFrame | game_core.cpp:754-764 | placing changes no cell outside the piece, and every cell of the piece is then blocked |
| Board.PlaceKeepsLegal | game_core.cpp:754-764 | placing a legal piece keeps every grid cell a legal colour index |
| Board.Composite | game_core.cpp:474-498 | the canvas: each grid cell, overwritten by the piece cell over it when that cell is positive; `CompositeIsPlace` ties it to locking |
| Board.CompositeIsPlace | game_core.cpp:488-498 | for a legal piece lying on the grid, the drawn overlay equals the grid after placing the piece |
| Board.FullCount | game_core.cpp:653-656 | the number of full rows is 0 exactly when no row is full |
| Board.NonFullRows | game_core.cpp:648-673 | the rows kept are non-full rows of the input, and their number plus the full rows is the input's length |
| Board.Compacted | game_core.cpp:648-673 | the grid eval_and_clean leaves: as many copies of the old top row as there were full rows, then the non-full rows in order; `CompactedRepeatsTopRow`, `CompactedHasNoFullRow` and `SearchEnds` state what it is |
| Board.CompactedHasNoFullRow | game_core.cpp:648-673 | with the top row not full, no full row is left after cleaning |
| Board.CompactedWithoutFullRows | game_core.cpp:648-673 | cleaning a grid with no full row changes nothing |
| Board.CompactedRepeatsTopRow | game_core.cpp:659-663 | after removing n full rows, rows 0..n all hold the old top row and the non-full rows follow in order |
| Board.CompactedKeepsLegal | game_core.cpp:648-673 | cleaning keeps every cell a legal colour index |
| Board.ShiftDown | game_core.cpp:659-663 | one removal at row k: rows 1..k take the row above them, row 0 and the rows below k stay; `PendingShift` states what it keeps |
| Board.PendingSkip | game_core.cpp:666-669 | passing over a non-full row keeps what the loop will leave and the count of full rows still ahead |
| Board.PendingShift | game_core.cpp:657-664 | shifting out a full row below the top keeps what the loop will leave, keeps row 0 and lowers the full rows still ahead by one |
| Board.SearchStarts | game_core.cpp:650-651 | the loop invariant holds at the bottom row before anything is removed |
| Board.SearchSkips | game_core.cpp:666-669 | the invariant survives passing over a non-full row |
| Board.SearchShifts | game_core.cpp:657-664 | with the top row not full, a full row found is never row 0, and the invariant survives removing it with one more removal counted |
| Board.SearchEnds | game_core.cpp:651 | when the search has passed row 0 the grid is the compacted one and every full row was removed |
| Board.SearchRun | game_core.cpp:651-670 | the search row index never increases, and the grid stays 13 by 11 |
| Board.FullTopRowNeverEnds | game_core.cpp:651-670 | with row 0 full, the search never gets past row 0 however many iterations run, so the loop does not terminate |
| Board.SearchRunFinishes | game_core.cpp:651-670 | with row 0 not full, the search from row k ends within k+1 plus the full rows ahead iterations, leaving the loop's view of the grid |
| Board.ShiftFinishes | game_core.cpp:657-664 | the same, from a row that is full |
| Board.SkipFinishes | game_core.cpp:666-669 | the same, from a row that is not full |
| Board.SearchEndsWhenTopRowOpen | game_core.cpp:648-673 | with row 0 not full, the search ends after at most 13 plus the number of full rows iterations, with the grid compacted |
| Session.CanMove | game_core.cpp:684-707 | isMovable: the active piece fits after moving by (dx, dy) |
| Session.CanRotate | game_core.cpp:715-747 | isRotatable: the turned piece fits at the same anchor, with no shifting |
| Session.Command | game_core.cpp:400-424 | the piece after a key: moved or turned when `CanMove` or `CanRotate` allows it, unchanged otherwise; `PlayEffect` and `PlayKeepsPlayable` state its effect |
| Session.Play | game_core.cpp:392-430 | the state after play_game: the abort key stops the game, any other key applies `Command`; `PlayEffect`, `PlayKeepsPlayable` and the undo lemmas state its effect |
| Session.PlayEffect | game_core.cpp:392-430 | the effect of each command: 0x04 stops the game, 'C', 'D' and 'B' move by one when the piece fits, ' ' and 'x' turn clockwise and 'z' anti-clockwise when the turn fits, and any other character changes nothing; the grid, queue and counters never change |
| Session.PlayKeepsPlayable | game_core.cpp:392-430 | no command moves or turns the piece into a wall, the floor or a locked cell |
| Session.PlayKeepsLegal | game_core.cpp:392-430 | commands keep every cell a legal colour index |
| Session.RotateUndo | game_core.cpp:415-424 | a turn that happened is undone by the opposite turn key |
| Session.LeftTurnUndo | game_core.cpp:420-424 | an allowed 'z' followed by 'x' gives back the same state |
| Session.RightTurnUndo | game_core.cpp:415-419 | an allowed 'x' followed by 'z' gives back the same state |
| Session.MoveUndo | game_core.cpp:400-409 | a sideways move that happened is undone by the opposite arrow key |
| Session.PlayableLocksInBounds | game_core.cpp:625-627 | a state that keeps the collision invariant locks its piece wholly on the grid |
| Session.Gravity | game_core.cpp:598-631 | the gravity step: fall when the piece fits one row lower, else stop when the box reaches above row 0, else `Lock`; `GravityFalls`, `GameOver` and `GravityLocks` state each branch |
| Session.Lock | game_core.cpp:625-631 | the locking branch: the grid is compacted after placing the piece, the queued piece spawns, a generated piece is queued, the count rises when a row was full; `GravityLocks` states it |
| Session.Tick | game_core.cpp:597-635 | one iteration of update: `Gravity` when i_step is 0, then i_step advances modulo 100; `TickCounts`, `TickClears`, `TickKeepsPlayable` and `TickKeepsLegal` state what it keeps |
| Session.TickCounts | game_core.cpp:598-635 | i_step goes up by one modulo 100, and between gravity steps nothing else changes |
| Session.GravityFalls | game_core.cpp:600-604 | when the piece can fall, it falls one row and nothing else changes |
| Session.GameOver | game_core.cpp:605-607 | a piece that cannot fall while its box reaches above row 0 stops the game and leaves the grid and pieces as they were |
| Session.GravityLocks | game_core.cpp:625-631 | a locked piece is placed, the queued piece becomes active at the spawn anchor, a new piece is queued, the count rises by one exactly when some row was full, and no full row is left |
| Session.TickClears | game_core.cpp:598-635 | the clearing count never falls and rises by at most one per iteration |
| Session.TickKeepsPlayable | game_core.cpp:594-635 | the collision invariant survives every iteration of the gravity thread |
| Session.TickKeepsLegal | game_core.cpp:594-635 | every cell keeps a legal colour index through every iteration |
| Session.Initial | game_core.cpp:207-234 | the state init_stat leaves: an empty grid, count 0, running, the first generated piece at the spawn anchor and the second queued; `InitialIsPlayable` states its invariants |
| Session.InitialIsPlayable | game_core.cpp:207-234 | a new game satisfies the collision invariant and holds only legal values |
| Engine.RotatedCopy | game_core.cpp:717-728 | the fresh buffer holds the clockwise or anti-clockwise turn of the piece |
| Engine.CopyInto | game_core.cpp:333-339 | every cell of the destination piece array equals the source cell (the copy loops of copy_pieces and of both rotations) |
| Engine.RotRPiece | game_core.cpp:349-359 | the piece array afterwards holds RotR of what it held |
| Engine.RotLPiece | game_core.cpp:366-376 | the piece array afterwards holds RotL of what it held |
| Engine.WriteSquare | game_core.cpp:264-267 | the piece array holds the 2x2 square of the colour in the middle of the box |
| Engine.WriteShape | game_core.cpp:264-311 | the piece array holds the silhouette for the shape and variant draws |
| Engine.Game.constructor | game_core.cpp:43-88 | a new engine has fresh arrays, is in the Initial state for its two draws with i_step 0, and has drawn it |
| Engine.Game.InitStat | game_core.cpp:207-234 | the grid, canvas and shadow are empty, the count is 0, the game runs, the first generated piece is at the spawn anchor and the second is queued |
| Engine.Game.RandNext | game_core.cpp:258-323 | the queued piece becomes Generate of the draws |
| Engine.Game.CopyPieces | game_core.cpp:331-342 | the active piece becomes a copy of the queued piece, anchored at the spawn point |
| Engine.Game.FitsAt | game_core.cpp:690-706 | the answer is the collision test for that piece and anchor |
| Engine.Game.IsMovable | game_core.cpp:684-707 | the answer is true exactly when the active piece fits after moving by (dx, dy) |
| Engine.Game.IsRotatable | game_core.cpp:715-747 | the answer is true exactly when the turned piece fits at the same anchor |
| Engine.Game.IsRunning | game_core.cpp:773-776 | the answer is 1 exactly when the status is 1, and 0 otherwise |
| Engine.Game.Abort | game_core.cpp:241-245 | the status becomes 0 |
| Engine.Game.PlayGame | game_core.cpp:392-430 | the new state is Play of the old one, the returned value is the new status, and the canvas and shadow show the new state |
| Engine.Game.PlacePiece | game_core.cpp:754-764 | the grid becomes Place of the old grid with the active piece |
| Engine.Game.ShiftRowsDown | game_core.cpp:659-663 | rows 1..k take the rows above them and the other rows stay |
| Engine.Game.RowIsFull | game_core.cpp:653-656 | the answer is true exactly when the row has no empty cell |
| Engine.Game.ClearFullRows | game_core.cpp:650-670 | with row 0 not full, the loop terminates with the grid compacted, and reports a clearing exactly when some row was full |
| Engine.Game.EvalAndClean | game_core.cpp:648-673 | the grid becomes the compacted grid, and the count rises by one exactly when some row was full |
| Engine.Game.GravityStep | game_core.cpp:598-635 | the new state is Tick of the old one with the given draws; the canvas is redrawn only when the piece fell |
| Engine.Game.LockPiece | game_core.cpp:625-631 | the grid is the compacted grid after placing, the queued piece is active at the spawn anchor, a new piece is queued, and the count rises when a row was full |
| Engine.Game.SpawnNext | game_core.cpp:628-629 | the queued piece becomes active at the spawn anchor and Generate of the draws is queued |
| Engine.Game.DrawCells | game_core.cpp:472-510 | the canvas becomes the composite of the grid and the active piece, the shadow equals it, and the cells redrawn are exactly those where the old shadow differed |
| Engine.Game.ComposeCanvas | game_core.cpp:474-498 | the canvas becomes the composite of the grid and the active piece |
| Engine.Game.CopyBinToCanvas | game_core.cpp:474-487 | every canvas cell equals the grid cell |
| Engine.Game.OverlayPiece | game_core.cpp:488-498 | overlaying the positive cells of the piece that fall on the grid gives the composite |
| Engine.Game.SyncShadow | game_core.cpp:500-510 | the shadow equals the canvas, and the cells redrawn are exactly those that differed |

## Left out

- Threads and locking: the update thread, the mutex held by `play_game` and
  `update`, and the 5 ms sleep are left out. Each method models one call with
  the lock held.
- The update loop: only one iteration (`Engine.Game.GravityStep`) is
  modelled, not the repetition while `isRunning()` holds. The lemmas
  `Session.TickKeepsPlayable` and `Session.TickKeepsLegal` carry the
  invariants from one iteration to the next.
- Terminal output is left out, because it is I/O: cursor movement, colours,
  the background frame, the next-piece box, the message box
  (`put_message`, `clear_message`), the game-over banner, `play_endmovie`
  and `FLUSH`. `draw_cells` is modelled only for the canvas and the shadow.
  The set it returns names the cells it would send to the terminal.
- Randomness: `srand`/`rand` and the floating-point thresholds are replaced
  by the `Generator.Draws` choices. The probabilities of the shapes and
  turns are not modelled.
- Heap layout: `new`/`delete` of the row arrays, the destructor, and the
  `init_game`/`kill_game` wrappers are left out, because allocation is
  Dafny's. Each grid is one `array2<int>`.
- `noncanonical.cpp` (terminal input mode) and the main loop in
  `wastedris.cpp` are outside the engine and are not part of this model.
- Engine.Game.EvalAndClean: requires that row 0 is not full, because with
  row 0 full the source loop never terminates. That case is stated on the
  loop's functional model by `Board.FullTopRowNeverEnds` instead.
- Engine.Game.ClearFullRows: the same precondition, for the same reason.
- Engine.Game.GravityStep: requires `Session.LockEnds` when i_step is 0,
  that is, row 0 is not full after placing a piece that locks. Otherwise
  the source freezes inside `eval_and_clean` and never finishes the
  iteration.
- Session.Lock: requires that row 0 is not full after placing. The game
  freezes there in the source, so there is no next state to describe.
- Session.Gravity: requires `Session.LockEnds`, for the same reason.
- Session.Tick: requires `Session.LockEnds` when the step is 0, for the same
  reason. The lemmas about `Tick` and `Gravity` carry the same condition.
  The freeze itself, the game hanging with the mutex held, is not a state of
  the model.
- Board.SearchRun: this loop model is tied to the engine's loop in
  `Engine.Game.ClearFullRows` only through the final grid. Both end with
  `Board.Compacted` when row 0 is not full (`Board.SearchEndsWhenTopRowOpen`).
  No invariant of the engine loop states that each iteration matches a
  step of `SearchRun`.
- Engine.Game.PlacePiece: requires every non-empty cell of the piece to lie
  on the grid. The source writes unchecked there, and writing outside the
  arrays is undefined behaviour. `Session.PlayableLocksInBounds` shows that
  every state the game reaches meets this.
- `int` overflow is not modelled. Coordinates stay within a few cells of
  the grid, and the clearing count would need 2^31 clearings.
