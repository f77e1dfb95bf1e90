/**
 * Session: the state of one game as a value, and the reference meaning of
 * the two things that change it: a command character handed to play_game,
 * and one iteration of the gravity loop in update.  The engine's methods
 * are proved to change their fields exactly as these functions say; the
 * lemmas here state what the game promises about them.
 */
module Session {
  import opened Pieces
  import opened Generator
  import opened Board

  /** The game is running while the status is 1 (f_stat); 0 means stopped. */
  const RUNNING := 1
  const STOPPED := 0

  /** Gravity acts once every N_STEP iterations of the update loop (n_step). */
  const N_STEP := 100

  /** The falling piece and the anchor of its box (cur_piece, cur_p_x, cur_p_y). */
  datatype Active = Active(piece: Matrix, x: int, y: int)

  /**
   * bin, the active piece, next_piece, f_stat, count_clearing_rows and
   * i_step.
   */
  datatype State = State(bin: Grid, active: Active, next: Matrix, status: int, clears: int, step: int)

  predicate WellFormed(s: State) {
    IsGrid(s.bin) && IsPiece(s.active.piece) && IsPiece(s.next) && 0 <= s.step < N_STEP
  }

  /**
   * The invariant of every reachable state: the active piece stays between
   * the walls, above the floor, and off every locked cell.
   */
  predicate Playable(s: State) {
    WellFormed(s) && Fits(s.bin, s.active.piece, s.active.x, s.active.y)
  }

  /** Every cell of the grid and of both pieces holds a legal colour index. */
  predicate Legal(s: State)
    requires WellFormed(s)
  {
    LegalGrid(s.bin) && LegalPiece(s.active.piece) && LegalPiece(s.next)
  }

  /** isMovable(dx, dy). */
  predicate CanMove(g: Grid, a: Active, dx: int, dy: int)
    requires IsGrid(g) && IsPiece(a.piece)
  {
    Fits(g, a.piece, a.x + dx, a.y + dy)
  }

  /** isRotatable(clockwise): the turned piece must fit at the same anchor, with no shifting. */
  predicate CanRotate(g: Grid, a: Active, clockwise: bool)
    requires IsGrid(g) && IsPiece(a.piece)
  {
    Fits(g, if clockwise then RotR(a.piece) else RotL(a.piece), a.x, a.y)
  }

  // ---------------------------------------------------------------------
  // Commands (play_game)
  // ---------------------------------------------------------------------

  const ABORT: char := '\U{4}'

  /** The effect of a command character on the active piece. */
  function Command(g: Grid, a: Active, c: char): (r: Active)
    requires IsGrid(g) && IsPiece(a.piece)
    ensures IsPiece(r.piece)
  {
    if c == 'C' then (if CanMove(g, a, 1, 0) then a.(x := a.x + 1) else a)
    else if c == 'D' then (if CanMove(g, a, -1, 0) then a.(x := a.x - 1) else a)
    else if c == 'B' then (if CanMove(g, a, 0, 1) then a.(y := a.y + 1) else a)
    else if c == ' ' || c == 'x' then (if CanRotate(g, a, true) then a.(piece := RotR(a.piece)) else a)
    else if c == 'z' then (if CanRotate(g, a, false) then a.(piece := RotL(a.piece)) else a)
    else a
  }

  /** The state after play_game(c); the status it returns is the new status. */
  function Play(s: State, c: char): (r: State)
    requires WellFormed(s)
    ensures WellFormed(r)
  {
    if c == ABORT then s.(status := STOPPED)
    else s.(active := Command(s.bin, s.active, c))
  }

  /**
   * What each command does: the abort character stops the game and keeps
   * the piece; any other character keeps the status, the grid, the queue,
   * the counters; a move changes one coordinate by one and a rotation turns
   * the piece in place, each only when the result fits; an unknown
   * character changes nothing.
   */
  lemma PlayEffect(s: State, c: char)
    requires WellFormed(s)
    ensures var r := Play(s, c);
      && r.bin == s.bin && r.next == s.next && r.clears == s.clears && r.step == s.step
      && (c == ABORT ==> r.status == STOPPED && r.active == s.active)
      && (c != ABORT ==> r.status == s.status)
      && (c == 'C' ==> r.active == (if CanMove(s.bin, s.active, 1, 0) then Active(s.active.piece, s.active.x + 1, s.active.y) else s.active))
      && (c == 'D' ==> r.active == (if CanMove(s.bin, s.active, -1, 0) then Active(s.active.piece, s.active.x - 1, s.active.y) else s.active))
      && (c == 'B' ==> r.active == (if CanMove(s.bin, s.active, 0, 1) then Active(s.active.piece, s.active.x, s.active.y + 1) else s.active))
      && (c == ' ' || c == 'x' ==> r.active == (if CanRotate(s.bin, s.active, true) then Active(RotR(s.active.piece), s.active.x, s.active.y) else s.active))
      && (c == 'z' ==> r.active == (if CanRotate(s.bin, s.active, false) then Active(RotL(s.active.piece), s.active.x, s.active.y) else s.active))
      && (c !in {ABORT, 'C', 'D', 'B', ' ', 'x', 'z'} ==> r == s)
  {
  }

  /** No command can move or turn the piece into a wall, the floor or a locked cell. */
  lemma PlayKeepsPlayable(s: State, c: char)
    requires Playable(s)
    ensures Playable(Play(s, c))
  {
  }

  lemma PlayKeepsLegal(s: State, c: char)
    requires WellFormed(s) && Legal(s)
    ensures Legal(Play(s, c))
  {
    RotRKeepsLegal(s.active.piece);
    RotLKeepsLegal(s.active.piece);
  }

  /** A clockwise turn that was allowed can always be undone by an anti-clockwise one, and vice versa. */
  lemma RotateUndo(s: State, c: char)
    requires Playable(s) && c in {' ', 'x', 'z'}
    requires Play(s, c).active != s.active
    ensures Play(Play(s, c), if c == 'z' then 'x' else 'z') == s
  {
    if c == 'z' {
      LeftTurnUndo(s);
    } else {
      assert Play(s, c) == Play(s, 'x');
      RightTurnUndo(s);
    }
  }

  lemma LeftTurnUndo(s: State)
    requires Playable(s) && CanRotate(s.bin, s.active, false)
    ensures Play(Play(s, 'z'), 'x') == s
  {
    var a, p := s.active, s.active.piece;
    RotationReversible(s.bin, p, a.x, a.y);
    var t := s.(active := a.(piece := RotL(p)));
    assert Play(s, 'z') == t;
  }

  lemma RightTurnUndo(s: State)
    requires Playable(s) && CanRotate(s.bin, s.active, true)
    ensures Play(Play(s, 'x'), 'z') == s
  {
    var a, p := s.active, s.active.piece;
    RotationReversible(s.bin, p, a.x, a.y);
    var t := s.(active := a.(piece := RotR(p)));
    assert Play(s, 'x') == t;
  }

  /** A move to the side that was allowed can always be undone by the opposite move. */
  lemma MoveUndo(s: State, c: char)
    requires Playable(s) && c in {'C', 'D'}
    requires Play(s, c).active != s.active
    ensures Play(Play(s, c), if c == 'C' then 'D' else 'C') == s
  {
    var a := Play(s, c).active;
    assert a.piece == s.active.piece;
    if c == 'C' {
      assert a.x - 1 == s.active.x;
    } else {
      assert a.x + 1 == s.active.x;
    }
  }

  // ---------------------------------------------------------------------
  // Gravity (one iteration of update)
  // ---------------------------------------------------------------------

  /** The piece can fall no further and its box is at or below the top row: it is locked. */
  predicate Locks(s: State)
    requires WellFormed(s)
  {
    !CanMove(s.bin, s.active, 0, 1) && 0 <= s.active.y
  }

  /** placePiece writes inside the grid: what the engine needs of a state it locks. */
  predicate LockInBounds(s: State)
    requires WellFormed(s)
  {
    Locks(s) ==> InsideGrid(s.active.piece, s.active.x, s.active.y)
  }

  /**
   * The row clearing after a lock returns: once the piece is placed, the
   * top row is not full.  Where it is full, eval_and_clean never returns
   * (Board.FullTopRowNeverEnds) and the game freezes with the lock held;
   * there is no next state, so the functions below are not defined there.
   */
  predicate LockEnds(s: State)
    requires WellFormed(s)
  {
    Locks(s) && InsideGrid(s.active.piece, s.active.x, s.active.y) ==>
      !IsFull(Place(s.bin, s.active.piece, s.active.x, s.active.y)[0])
  }

  lemma PlayableLocksInBounds(s: State)
    requires Playable(s)
    ensures LockInBounds(s)
  {
    if Locks(s) {
      FitsBelowCeilingIsInside(s.bin, s.active.piece, s.active.x, s.active.y);
    }
  }

  /**
   * The gravity step taken when i_step is 0: fall one row if possible;
   * otherwise stop the game if the box is still partly above the top row;
   * otherwise lock the piece, promote the queued piece to the spawn anchor,
   * queue a new piece and clear the full rows, counting one clearing when
   * any row was full.
   */
  function Gravity(s: State, d: Draws): (r: State)
    requires WellFormed(s) && LockInBounds(s) && LockEnds(s) && ValidDraws(d)
    ensures WellFormed(r)
  {
    if CanMove(s.bin, s.active, 0, 1) then
      s.(active := s.active.(y := s.active.y + 1))
    else if s.active.y < 0 then
      s.(status := STOPPED)
    else
      Lock(s, d)
  }

  /**
   * The locking branch of gravity: the active piece is written into the
   * grid, the queued piece becomes active at the spawn anchor, a new piece
   * is queued, and the full rows are cleared.
   */
  function Lock(s: State, d: Draws): (r: State)
    requires WellFormed(s) && InsideGrid(s.active.piece, s.active.x, s.active.y) && ValidDraws(d)
    requires !IsFull(Place(s.bin, s.active.piece, s.active.x, s.active.y)[0])
    ensures WellFormed(r)
  {
    var placed := Place(s.bin, s.active.piece, s.active.x, s.active.y);
    CompactedIsGrid(placed);
    State(Compacted(placed), Active(s.next, SPAWN_X, SPAWN_Y), Generate(d), s.status,
          s.clears + (if FullCount(placed) > 0 then 1 else 0), s.step)
  }

  /** A state agrees with Lock(s, d) when each of its fields does. */
  lemma LockFields(s: State, d: Draws, r: State)
    requires WellFormed(s) && InsideGrid(s.active.piece, s.active.x, s.active.y) && ValidDraws(d)
    requires !IsFull(Place(s.bin, s.active.piece, s.active.x, s.active.y)[0])
    requires r.bin == Compacted(Place(s.bin, s.active.piece, s.active.x, s.active.y))
    requires r.active == Active(s.next, SPAWN_X, SPAWN_Y) && r.next == Generate(d)
    requires r.status == s.status && r.step == s.step
    requires r.clears == s.clears + if FullCount(Place(s.bin, s.active.piece, s.active.x, s.active.y)) > 0 then 1 else 0
    ensures r == Lock(s, d)
  {
  }

  /** One iteration of the update loop: gravity when i_step is 0, then i_step advances modulo N_STEP. */
  function Tick(s: State, d: Draws): (r: State)
    requires WellFormed(s) && LockInBounds(s) && (s.step == 0 ==> LockEnds(s)) && ValidDraws(d)
    ensures WellFormed(r)
  {
    var g := if s.step == 0 then Gravity(s, d) else s;
    g.(step := (s.step + 1) % N_STEP)
  }

  /** i_step cycles through 0..N_STEP-1; between gravity steps nothing else changes. */
  lemma TickCounts(s: State, d: Draws)
    requires WellFormed(s) && LockInBounds(s) && (s.step == 0 ==> LockEnds(s)) && ValidDraws(d)
    ensures Tick(s, d).step == (if s.step == N_STEP - 1 then 0 else s.step + 1)
    ensures s.step != 0 ==> Tick(s, d) == s.(step := (s.step + 1) % N_STEP)
  {
  }

  /** When the piece can fall, it falls one row and nothing else changes. */
  lemma GravityFalls(s: State, d: Draws)
    requires WellFormed(s) && LockInBounds(s) && ValidDraws(d)
    requires CanMove(s.bin, s.active, 0, 1)
    ensures Gravity(s, d) == s.(active := Active(s.active.piece, s.active.x, s.active.y + 1))
  {
  }

  /** A piece that cannot fall while its box is still above the top row ends the game; the grid is untouched. */
  lemma GameOver(s: State, d: Draws)
    requires WellFormed(s) && LockInBounds(s) && ValidDraws(d)
    requires !CanMove(s.bin, s.active, 0, 1) && s.active.y < 0
    ensures Gravity(s, d).status == STOPPED
    ensures Gravity(s, d).bin == s.bin && Gravity(s, d).active == s.active && Gravity(s, d).next == s.next
  {
  }

  /**
   * Locking: the queued piece becomes the active one at the spawn anchor,
   * a freshly generated piece is queued, the clearing count goes up by one
   * exactly when a row was full after the lock, and no full row is left.
   */
  lemma GravityLocks(s: State, d: Draws)
    requires WellFormed(s) && LockInBounds(s) && LockEnds(s) && ValidDraws(d) && Locks(s)
    ensures var placed := Place(s.bin, s.active.piece, s.active.x, s.active.y);
      var r := Gravity(s, d);
      && r.active == Active(s.next, SPAWN_X, SPAWN_Y)
      && r.next == Generate(d)
      && r.status == s.status
      && r.clears == s.clears + (if exists y :: 0 <= y < NROW && IsFull(placed[y]) then 1 else 0)
      && r.bin == Compacted(placed)
      && forall y :: 0 <= y < NROW ==> !IsFull(r.bin[y])
  {
    var placed := Place(s.bin, s.active.piece, s.active.x, s.active.y);
    CompactedIsGrid(placed);
    CompactedHasNoFullRow(placed);
  }

  /** The clearing count never decreases and goes up by at most one per iteration. */
  lemma TickClears(s: State, d: Draws)
    requires WellFormed(s) && LockInBounds(s) && (s.step == 0 ==> LockEnds(s)) && ValidDraws(d)
    ensures s.clears <= Tick(s, d).clears <= s.clears + 1
  {
  }

  /** The no-overlap invariant survives every iteration of the update loop. */
  lemma TickKeepsPlayable(s: State, d: Draws)
    requires Playable(s) && (s.step == 0 ==> LockEnds(s)) && ValidDraws(d)
    ensures LockInBounds(s) && Playable(Tick(s, d))
  {
    PlayableLocksInBounds(s);
    if s.step == 0 && Locks(s) {
      var placed := Place(s.bin, s.active.piece, s.active.x, s.active.y);
      CompactedIsGrid(placed);
      SpawnFits(Compacted(placed), s.next);
    }
  }

  /** Every cell keeps a legal colour index through every iteration of the update loop. */
  lemma TickKeepsLegal(s: State, d: Draws)
    requires WellFormed(s) && LockInBounds(s) && (s.step == 0 ==> LockEnds(s)) && ValidDraws(d) && Legal(s)
    ensures Legal(Tick(s, d))
  {
    if s.step == 0 && Locks(s) {
      var placed := Place(s.bin, s.active.piece, s.active.x, s.active.y);
      PlaceKeepsLegal(s.bin, s.active.piece, s.active.x, s.active.y);
      CompactedKeepsLegal(placed);
      GenerateIsTetromino(d);
    }
  }

  // ---------------------------------------------------------------------
  // A new game (init_stat)
  // ---------------------------------------------------------------------

  function EmptyGrid(): (g: Grid)
    ensures IsGrid(g)
  {
    seq(NROW, y => seq(NCOL, x => 0))
  }

  /**
   * The state init_stat leaves: an empty grid, no clearing yet, running,
   * the first generated piece at the spawn anchor and the second queued.
   */
  function Initial(d1: Draws, d2: Draws, step: int): (r: State)
    requires ValidDraws(d1) && ValidDraws(d2) && 0 <= step < N_STEP
    ensures WellFormed(r)
  {
    State(EmptyGrid(), Active(Generate(d1), SPAWN_X, SPAWN_Y), Generate(d2), RUNNING, 0, step)
  }

  /** A new game satisfies both invariants. */
  lemma InitialIsPlayable(d1: Draws, d2: Draws, step: int)
    requires ValidDraws(d1) && ValidDraws(d2) && 0 <= step < N_STEP
    ensures Playable(Initial(d1, d2, step)) && Legal(Initial(d1, d2, step))
  {
    GenerateIsTetromino(d1);
    GenerateIsTetromino(d2);
    SpawnFits(EmptyGrid(), Generate(d1));
  }
}
