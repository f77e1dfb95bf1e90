/**
 * Engine: the GAME object of game_core.cpp, minus its terminal output,
 * its update thread and its mutex.  The grid, the two drawing buffers and
 * the two pieces are fixed-size arrays updated in place; the anchor, the
 * status, the clearing count and the step index are fields.  Every method
 * that changes the state is proved to change it exactly as the reference
 * functions of module Session say, and the queries are proved to answer
 * the predicates of module Board.
 */
module Engine {
  import opened Pieces
  import opened Generator
  import opened Board
  import opened Session

  /** The contents of a two-dimensional array, row by row. */
  function Contents(a: array2<int>): (m: seq<seq<int>>)
    reads a
    ensures |m| == a.Length0 && forall r :: 0 <= r < |m| ==> |m[r]| == a.Length1
    ensures forall r, c :: 0 <= r < a.Length0 && 0 <= c < a.Length1 ==> m[r][c] == a[r, c]
  {
    seq(a.Length0, r requires 0 <= r < a.Length0 reads a =>
      seq(a.Length1, c requires 0 <= c < a.Length1 reads a => a[r, c]))
  }

  predicate IsPieceArray(a: array2<int>) {
    a.Length0 == SIDE && a.Length1 == SIDE
  }

  predicate IsGridArray(a: array2<int>) {
    a.Length0 == NROW && a.Length1 == NCOL
  }

  // ---------------------------------------------------------------------
  // Piece arrays (rotR_piece, rotL_piece and the buffers they copy through)
  // ---------------------------------------------------------------------

  /**
   * A rotated copy of piece in a new buffer: cell (i, j) goes to (j, 3-i)
   * for a clockwise turn and to (3-j, i) for an anti-clockwise one.
   */
  method RotatedCopy(piece: array2<int>, clockwise: bool) returns (buff: array2<int>)
    requires IsPieceArray(piece)
    ensures fresh(buff) && IsPieceArray(buff)
    ensures Contents(buff) == if clockwise then RotR(Contents(piece)) else RotL(Contents(piece))
  {
    buff := new int[SIDE, SIDE];
    for i := 0 to SIDE
      invariant forall i', j' :: 0 <= i' < i && 0 <= j' < SIDE ==>
        if clockwise then buff[j', SIDE - 1 - i'] == piece[i', j'] else buff[SIDE - 1 - j', i'] == piece[i', j']
    {
      for j := 0 to SIDE
        invariant forall i', j' :: 0 <= i' < i && 0 <= j' < SIDE ==>
          if clockwise then buff[j', SIDE - 1 - i'] == piece[i', j'] else buff[SIDE - 1 - j', i'] == piece[i', j']
        invariant forall j' :: 0 <= j' < j ==>
          if clockwise then buff[j', SIDE - 1 - i] == piece[i, j'] else buff[SIDE - 1 - j', i] == piece[i, j']
      {
        if clockwise {
          buff[j, SIDE - 1 - i] := piece[i, j];
        } else {
          buff[SIDE - 1 - j, i] := piece[i, j];
        }
      }
    }
    var p := Contents(piece);
    var want := if clockwise then RotR(p) else RotL(p);
    forall a, b | 0 <= a < SIDE && 0 <= b < SIDE
      ensures Contents(buff)[a][b] == want[a][b]
    {
      if clockwise {
        assert want[a][b] == piece[SIDE - 1 - b, a];
      } else {
        assert want[a][b] == piece[b, SIDE - 1 - a];
      }
    }
    SamePiece(Contents(buff), want);
  }

  /** Copies every cell of src into dst (the copy-back loops, and copy_pieces). */
  method CopyInto(dst: array2<int>, src: array2<int>)
    requires IsPieceArray(dst) && IsPieceArray(src) && dst != src
    modifies dst
    ensures Contents(dst) == Contents(src)
  {
    for i := 0 to SIDE
      invariant forall i', j' :: 0 <= i' < i && 0 <= j' < SIDE ==> dst[i', j'] == src[i', j']
    {
      for j := 0 to SIDE
        invariant forall i', j' :: 0 <= i' < i && 0 <= j' < SIDE ==> dst[i', j'] == src[i', j']
        invariant forall j' :: 0 <= j' < j ==> dst[i, j'] == src[i, j']
      {
        dst[i, j] := src[i, j];
      }
    }
    SamePiece(Contents(dst), Contents(src));
  }

  /** rotR_piece: turns the piece clockwise in place. */
  method RotRPiece(piece: array2<int>)
    requires IsPieceArray(piece)
    modifies piece
    ensures Contents(piece) == RotR(old(Contents(piece)))
  {
    var buff := RotatedCopy(piece, true);
    CopyInto(piece, buff);
  }

  /** rotL_piece: turns the piece anti-clockwise in place. */
  method RotLPiece(piece: array2<int>)
    requires IsPieceArray(piece)
    modifies piece
    ensures Contents(piece) == RotL(old(Contents(piece)))
  {
    var buff := RotatedCopy(piece, false);
    CopyInto(piece, buff);
  }

  /** One assignment piece[i][j] = v. */
  method SetCell(piece: array2<int>, i: int, j: int, v: int)
    requires IsPieceArray(piece) && 0 <= i < SIDE && 0 <= j < SIDE
    modifies piece
    ensures Contents(piece) == Put(old(Contents(piece)), i, j, v)
  {
    piece[i, j] := v;
    SamePiece(Contents(piece), Put(old(Contents(piece)), i, j, v));
  }

  /** Row i of the piece set to [v0, v1, v2, v3], one cell at a time. */
  method WriteRow(piece: array2<int>, i: int, v0: int, v1: int, v2: int, v3: int)
    requires IsPieceArray(piece) && 0 <= i < SIDE
    modifies piece
    ensures Contents(piece) == old(Contents(piece))[i := [v0, v1, v2, v3]]
  {
    piece[i, 0] := v0;
    piece[i, 1] := v1;
    piece[i, 2] := v2;
    piece[i, 3] := v3;
    SamePiece(Contents(piece), old(Contents(piece))[i := [v0, v1, v2, v3]]);
  }

  /** The 2x2 square of colour c in the middle of an emptied box. */
  method WriteSquare(piece: array2<int>, c: int)
    requires IsPieceArray(piece)
    modifies piece
    ensures Contents(piece) == Square(c)
  {
    WriteRow(piece, 0, 0, 0, 0, 0);
    WriteRow(piece, 1, 0, c, c, 0);
    WriteRow(piece, 2, 0, c, c, 0);
    WriteRow(piece, 3, 0, 0, 0, 0);
  }

  /** The unrotated silhouette of rand_next: the square, then the edits chosen by the draws. */
  method WriteShape(piece: array2<int>, c: int, shape: int, variant: int)
    requires IsPieceArray(piece)
    modifies piece
    ensures Contents(piece) == Shape(c, shape, variant)
  {
    WriteSquare(piece, c);
    if shape == 0 {
      SetCell(piece, 1, 1, 0);
      SetCell(piece, 0, 2, c);
      if variant == 0 {
        SetCell(piece, 2, 1, 0);
        SetCell(piece, 3, 2, c);
      } else if variant == 1 {
        SetCell(piece, 1, 1, c);
        SetCell(piece, 2, 1, 0);
      } else if variant == 2 {
        SetCell(piece, 0, 2, 0);
        SetCell(piece, 1, 3, c);
      }
    } else if shape == 1 {
      SetCell(piece, 2, 1, 0);
      SetCell(piece, 3, 2, c);
      if variant == 0 {
        SetCell(piece, 1, 1, 0);
        SetCell(piece, 0, 2, c);
      } else if variant == 1 {
        SetCell(piece, 1, 1, 0);
        SetCell(piece, 2, 1, c);
      } else if variant == 2 {
        SetCell(piece, 3, 2, 0);
        SetCell(piece, 2, 3, c);
      }
    }
  }

  /**
   * The grid cell (x, y) once placePiece's loop has visited the piece's
   * rows before row, and the cells of row row left of col.
   */
  ghost function Placed(g: Grid, p: Matrix, px: int, py: int, x: int, y: int, row: int, col: int): int
    requires IsGrid(g) && IsPiece(p) && 0 <= y < NROW && 0 <= x < NCOL
  {
    if Covers(p, px, py, x, y) && (y - py < row || (y - py == row && x - px < col))
    then p[y - py][x - px]
    else g[y][x]
  }

  /**
   * The canvas cell (x, y) once the overlay loop has visited the piece's
   * columns before col, and the cells of column col above row.
   */
  ghost function Painted(g: Grid, p: Matrix, px: int, py: int, x: int, y: int, col: int, row: int): int
    requires IsGrid(g) && IsPiece(p) && 0 <= y < NROW && 0 <= x < NCOL
  {
    if 0 <= y - py < SIDE && 0 <= x - px < SIDE && (x - px < col || (x - px == col && y - py < row)) && p[y - py][x - px] > 0
    then p[y - py][x - px]
    else g[y][x]
  }

  // ---------------------------------------------------------------------
  // The game object
  // ---------------------------------------------------------------------

  class Game {
    /** bin: the locked cells; canvas: what should be on screen; shadow: what is on screen. */
    const bin: array2<int>
    const canvas: array2<int>
    const shadow: array2<int>
    /** cur_piece and next_piece. */
    const curPiece: array2<int>
    const nextPiece: array2<int>
    /** cur_p_x, cur_p_y: the anchor of the active piece's box. */
    var curX: int
    var curY: int
    /** f_stat, count_clearing_rows, i_step. */
    var status: int
    var clearCount: int
    var iStep: int

    predicate Valid()
      reads this
    {
      && IsGridArray(bin) && IsGridArray(canvas) && IsGridArray(shadow)
      && IsPieceArray(curPiece) && IsPieceArray(nextPiece)
      && bin != canvas && bin != shadow && canvas != shadow && curPiece != nextPiece
      && 0 <= iStep < N_STEP
    }

    /** The game state as a value. */
    function View(): (s: Session.State)
      reads this, bin, curPiece, nextPiece
      requires Valid()
      ensures WellFormed(s)
    {
      Session.State(Contents(bin), Active(Contents(curPiece), curX, curY), Contents(nextPiece),
                    status, clearCount, iStep)
    }

    /** What draw_cells leaves in the canvas and the shadow: the grid with the active piece overlaid. */
    predicate Drawn()
      reads this, bin, curPiece, canvas, shadow
      requires Valid()
    {
      && Contents(canvas) == Composite(Contents(bin), Contents(curPiece), curX, curY)
      && Contents(shadow) == Contents(canvas)
    }

    /**
     * GAME(): the grid is reset and two pieces are generated (init_stat),
     * the cells are drawn, and the step index starts at 0.
     */
    constructor (d1: Draws, d2: Draws)
      requires ValidDraws(d1) && ValidDraws(d2)
      ensures Valid() && fresh(bin) && fresh(canvas) && fresh(shadow) && fresh(curPiece) && fresh(nextPiece)
      ensures View() == Initial(d1, d2, 0)
      ensures Drawn()
    {
      bin := new int[NROW, NCOL];
      canvas := new int[NROW, NCOL];
      shadow := new int[NROW, NCOL];
      curPiece := new int[SIDE, SIDE];
      nextPiece := new int[SIDE, SIDE];
      iStep := 0;
      new;
      InitStat(d1, d2);
      var _ := DrawCells();
    }

    /**
     * init_stat: empties the grid, the buffers and both pieces, resets the
     * count and the status, then generates the active and the queued piece.
     */
    method InitStat(d1: Draws, d2: Draws)
      requires Valid() && ValidDraws(d1) && ValidDraws(d2)
      modifies this, bin, canvas, shadow, curPiece, nextPiece
      ensures Valid()
      ensures View() == Initial(d1, d2, old(iStep))
      ensures Contents(canvas) == EmptyGrid() && Contents(shadow) == EmptyGrid()
    {
      for y := 0 to NROW
        modifies bin, canvas, shadow
        invariant forall y', x :: 0 <= y' < y && 0 <= x < NCOL ==> bin[y', x] == 0 && canvas[y', x] == 0 && shadow[y', x] == 0
      {
        for x := 0 to NCOL
          modifies bin, canvas, shadow
          invariant forall y', x' :: 0 <= y' < y && 0 <= x' < NCOL ==> bin[y', x'] == 0 && canvas[y', x'] == 0 && shadow[y', x'] == 0
          invariant forall x' :: 0 <= x' < x ==> bin[y, x'] == 0 && canvas[y, x'] == 0 && shadow[y, x'] == 0
        {
          bin[y, x] := 0;
          canvas[y, x] := 0;
          shadow[y, x] := 0;
        }
      }
      for i := 0 to SIDE
        modifies curPiece, nextPiece
      {
        for j := 0 to SIDE
          modifies curPiece, nextPiece
        {
          curPiece[i, j] := 0;
          nextPiece[i, j] := 0;
        }
      }
      SameGrid(Contents(bin), EmptyGrid());
      SameGrid(Contents(canvas), EmptyGrid());
      SameGrid(Contents(shadow), EmptyGrid());

      clearCount := 0;
      status := RUNNING;
      RandNext(d1);
      CopyPieces();
      RandNext(d2);
    }

    /** rand_next: writes the piece generated from the draws into next_piece. */
    method RandNext(d: Draws)
      requires Valid() && ValidDraws(d)
      modifies nextPiece
      ensures Contents(nextPiece) == Generate(d)
    {
      var color := d.colour;
      if color < 6 {
        color := color + 1;
      } else {
        color := color + 5;
      }
      WriteShape(nextPiece, color, d.shape, d.variant);
      if d.turn == 0 {
        RotLPiece(nextPiece);
      } else if d.turn == 1 {
        RotRPiece(nextPiece);
      } else if d.turn == 2 {
        RotLPiece(nextPiece);
        RotLPiece(nextPiece);
      }
    }

    /** copy_pieces: the queued piece becomes the active one, at the spawn anchor. */
    method CopyPieces()
      requires Valid()
      modifies this`curX, this`curY, curPiece
      ensures Contents(curPiece) == Contents(nextPiece)
      ensures curX == SPAWN_X && curY == SPAWN_Y
    {
      CopyInto(curPiece, nextPiece);
      curX := (NCOL - SIDE) / 2;
      curY := -1 * SIDE;
    }

    // -------------------------------------------------------------------
    // Queries
    // -------------------------------------------------------------------

    /** The shared cell test of isMovable and isRotatable: does p fit with its box at (px, py)? */
    method FitsAt(p: array2<int>, px: int, py: int) returns (ok: bool)
      requires IsGridArray(bin) && IsPieceArray(p)
      ensures ok == Fits(Contents(bin), Contents(p), px, py)
    {
      ghost var g := Contents(bin);
      ghost var q := Contents(p);
      ok := true;
      for i := 0 to SIDE
        invariant ok == forall i', j' :: 0 <= i' < i && 0 <= j' < SIDE && q[i'][j'] != 0 ==> !Blocked(g, px + j', py + i')
      {
        for j := 0 to SIDE
          invariant ok == (&& (forall i', j' :: 0 <= i' < i && 0 <= j' < SIDE && q[i'][j'] != 0 ==> !Blocked(g, px + j', py + i'))
                           && (forall j' :: 0 <= j' < j && q[i][j'] != 0 ==> !Blocked(g, px + j', py + i)))
        {
          var x := px + j;
          var y := py + i;
          assert q[i][j] == p[i, j];
          if p[i, j] != 0 {
            if 0 <= x < NCOL && 0 <= y < NROW && bin[y, x] != 0 {
              ok := false;
            }
            if x < 0 || NCOL <= x || NROW <= y {
              ok := false;
            }
          }
        }
      }
    }

    /** isMovable(dx, dy): the active piece, shifted by (dx, dy), fits. */
    method IsMovable(dx: int, dy: int) returns (r: bool)
      requires Valid()
      ensures r == CanMove(View().bin, View().active, dx, dy)
    {
      r := FitsAt(curPiece, curX + dx, curY + dy);
    }

    /** isRotatable(clockwise): the turned active piece fits at the unchanged anchor. */
    method IsRotatable(clockwise: bool) returns (r: bool)
      requires Valid()
      ensures r == CanRotate(View().bin, View().active, clockwise)
    {
      var buff := RotatedCopy(curPiece, clockwise);
      r := FitsAt(buff, curX, curY);
    }

    /** isRunning: 1 while the status is RUNNING, 0 otherwise. */
    function IsRunning(): (r: int)
      reads this
      ensures r == 1 <==> status == RUNNING
      ensures r == 0 <==> status != RUNNING
    {
      if status == RUNNING then 1 else 0
    }

    // -------------------------------------------------------------------
    // Commands
    // -------------------------------------------------------------------

    /** abort: stops the game (the end movie is not modelled). */
    method Abort()
      modifies this`status
      ensures status == STOPPED
    {
      status := STOPPED;
    }

    /**
     * play_game(c): applies one command under the lock, redraws, and
     * returns the status.
     */
    method PlayGame(c: char) returns (stat: int)
      requires Valid()
      modifies this, curPiece, canvas, shadow
      ensures Valid()
      ensures View() == Play(old(View()), c)
      ensures stat == status
      ensures Drawn()
    {
      if c == ABORT {
        Abort();
      } else if c == 'C' {
        var ok := IsMovable(1, 0);
        if ok {
          curX := curX + 1;
        }
      } else if c == 'D' {
        var ok := IsMovable(-1, 0);
        if ok {
          curX := curX - 1;
        }
      } else if c == 'B' {
        var ok := IsMovable(0, 1);
        if ok {
          curY := curY + 1;
        }
      } else if c == ' ' || c == 'x' {
        var ok := IsRotatable(true);
        if ok {
          RotRPiece(curPiece);
        }
      } else if c == 'z' {
        var ok := IsRotatable(false);
        if ok {
          RotLPiece(curPiece);
        }
      }
      var _ := DrawCells();
      stat := status;
    }

    // -------------------------------------------------------------------
    // Gravity
    // -------------------------------------------------------------------

    /** placePiece: writes the non-empty cells of the active piece into the grid. */
    method PlacePiece()
      requires IsGridArray(bin) && IsPieceArray(curPiece) && InsideGrid(Contents(curPiece), curX, curY)
      modifies bin
      ensures Contents(bin) == Place(old(Contents(bin)), Contents(curPiece), curX, curY)
    {
      ghost var g := Contents(bin);
      ghost var p := Contents(curPiece);
      for i := 0 to SIDE
        invariant forall y, x :: 0 <= y < NROW && 0 <= x < NCOL ==> bin[y, x] == Placed(g, p, curX, curY, x, y, i, 0)
      {
        for j := 0 to SIDE
          invariant forall y, x :: 0 <= y < NROW && 0 <= x < NCOL ==> bin[y, x] == Placed(g, p, curX, curY, x, y, i, j)
        {
          PlaceCell(g, i, j);
        }
      }
      forall y, x | 0 <= y < NROW && 0 <= x < NCOL
        ensures Contents(bin)[y][x] == Place(g, p, curX, curY)[y][x]
      {
        assert bin[y, x] == Placed(g, p, curX, curY, x, y, SIDE, 0);
      }
      SameGrid(Contents(bin), Place(g, p, curX, curY));
    }

    /** The body of placePiece's loop: cell (i, j) of the piece is written when it is non-empty. */
    method PlaceCell(ghost g: Grid, i: int, j: int)
      requires IsGridArray(bin) && IsPieceArray(curPiece) && IsGrid(g) && 0 <= i < SIDE && 0 <= j < SIDE && InsideGrid(Contents(curPiece), curX, curY)
      requires forall y, x :: 0 <= y < NROW && 0 <= x < NCOL ==>
        bin[y, x] == Placed(g, Contents(curPiece), curX, curY, x, y, i, j)
      modifies bin
      ensures forall y, x :: 0 <= y < NROW && 0 <= x < NCOL ==>
        bin[y, x] == Placed(g, Contents(curPiece), curX, curY, x, y, i, j + 1)
    {
      ghost var p := Contents(curPiece);
      assert p[i][j] == curPiece[i, j];
      if curPiece[i, j] != 0 {
        bin[curY + i, curX + j] := curPiece[i, j];
      }
    }

    /** The shifting loops of eval_and_clean: rows 1..k take the row above them; row 0 is kept. */
    method ShiftRowsDown(k: int)
      requires IsGridArray(bin) && 0 <= k < NROW
      modifies bin
      ensures Contents(bin) == ShiftDown(old(Contents(bin)), k)
    {
      var row := k;
      while row > 0
        invariant 0 <= row <= k
        invariant forall y, x :: 0 <= y < NROW && 0 <= x < NCOL ==>
          bin[y, x] == if row < y <= k then old(bin[y - 1, x]) else old(bin[y, x])
      {
        for col := 0 to NCOL
          invariant forall y, x :: 0 <= y < NROW && 0 <= x < NCOL ==>
            bin[y, x] == if row < y <= k || (y == row && x < col) then old(bin[y - 1, x]) else old(bin[y, x])
        {
          bin[row, col] := bin[row - 1, col];
        }
        row := row - 1;
      }
      SameGrid(Contents(bin), ShiftDown(old(Contents(bin)), k));
    }

    /** The test of eval_and_clean for one row: no cell of it is empty. */
    method RowIsFull(row: int) returns (full: bool)
      requires IsGridArray(bin) && 0 <= row < NROW
      ensures full == IsFull(Contents(bin)[row])
    {
      full := true;
      for col := 0 to NCOL
        invariant full <==> forall x :: 0 <= x < col ==> bin[row, x] != 0
      {
        if bin[row, col] == 0 {
          full := false;
        }
      }
    }

    /**
     * eval_and_clean: searches the rows from the floor up; a full row is
     * removed by shifting the rows above it down, and the same row index is
     * searched again.  The count goes up once if anything was removed.
     * The loop ends only when the top row is not full, which the top row,
     * never rewritten, must therefore be on entry.
     */
    method EvalAndClean()
      requires IsGridArray(bin) && !IsFull(Contents(bin)[0])
      modifies this`clearCount, bin
      ensures Contents(bin) == Compacted(old(Contents(bin)))
      ensures clearCount == old(clearCount) + if FullCount(old(Contents(bin))) > 0 then 1 else 0
    {
      var cleared := ClearFullRows();
      if cleared {
        clearCount := clearCount + 1;
      }
    }

    /** The search loop of eval_and_clean; cleared tells whether any row was removed. */
    method ClearFullRows() returns (cleared: bool)
      requires IsGridArray(bin) && !IsFull(Contents(bin)[0])
      modifies bin
      ensures Contents(bin) == Compacted(old(Contents(bin)))
      ensures cleared <==> FullCount(old(Contents(bin))) > 0
    {
      ghost var start := Contents(bin);
      ghost var cur := start;
      ghost var removed := 0;
      SearchStarts(start);
      cleared := false;
      var row := NROW - 1;
      while row >= 0
        invariant cur == Contents(bin)
        invariant Searching(start, cur, row, removed)
        invariant cleared <==> removed > 0
        decreases row + 1, FullCount(start) - removed
      {
        var full := RowIsFull(row);
        if full {
          SearchShifts(start, cur, row, removed);
          ShiftRowsDown(row);
          cur := ShiftDown(cur, row);
          cleared := true;
          removed := removed + 1;
        } else {
          SearchSkips(start, cur, row, removed);
          row := row - 1;
        }
      }
      SearchEnds(start, cur, removed);
    }

    /**
     * One iteration of the update loop, under the lock: when i_step is 0
     * the piece falls one row and is redrawn, or the game stops (spawn
     * blocked), or the piece is locked, the queued piece promoted, a new
     * piece queued and the full rows cleared; then i_step advances.  The
     * status is not looked at: the loop tests it before taking the lock.
     */
    method GravityStep(d: Draws)
      requires Valid() && ValidDraws(d)
      requires LockInBounds(View())
      requires iStep == 0 ==> LockEnds(View())
      modifies this, bin, curPiece, nextPiece, canvas, shadow
      ensures Valid()
      ensures View() == Tick(old(View()), d)
      ensures old(iStep) == 0 && CanMove(old(View()).bin, old(View()).active, 0, 1) ==> Drawn()
      ensures !(old(iStep) == 0 && CanMove(old(View()).bin, old(View()).active, 0, 1)) ==>
        unchanged(canvas) && unchanged(shadow)
    {
      if iStep == 0 {
        var down := IsMovable(0, 1);
        if down {
          curY := curY + 1;
          var _ := DrawCells();
        } else if curY < 0 {
          status := STOPPED;
        } else {
          ghost var s := View();
          LockPiece(d);
          LockFields(s, d, View());
        }
      }
      iStep := (iStep + 1) % N_STEP;
    }

    /** The locking branch of update: placePiece, copy_pieces, rand_next, eval_and_clean. */
    method LockPiece(d: Draws)
      requires Valid() && ValidDraws(d) && InsideGrid(Contents(curPiece), curX, curY)
      requires !IsFull(Place(Contents(bin), Contents(curPiece), curX, curY)[0])
      modifies this, bin, curPiece, nextPiece
      ensures Valid()
      ensures Contents(bin) == Compacted(Place(old(Contents(bin)), old(Contents(curPiece)), old(curX), old(curY)))
      ensures Contents(curPiece) == old(Contents(nextPiece)) && Contents(nextPiece) == Generate(d)
      ensures curX == SPAWN_X && curY == SPAWN_Y && status == old(status) && iStep == old(iStep)
      ensures clearCount == old(clearCount) + if FullCount(Place(old(Contents(bin)), old(Contents(curPiece)), old(curX), old(curY))) > 0 then 1 else 0
    {
      ghost var placed := Place(Contents(bin), Contents(curPiece), curX, curY);
      PlacePiece();
      ghost var g := Contents(bin);
      assert g == placed;
      SpawnNext(d);
      assert Contents(bin) == g;
      EvalAndClean();
    }

    /** copy_pieces then rand_next: the queued piece becomes active and a new one is queued. */
    method SpawnNext(d: Draws)
      requires Valid() && ValidDraws(d)
      modifies this`curX, this`curY, curPiece, nextPiece
      ensures Contents(curPiece) == old(Contents(nextPiece)) && Contents(nextPiece) == Generate(d)
      ensures curX == SPAWN_X && curY == SPAWN_Y
    {
      CopyPieces();
      RandNext(d);
    }

    // -------------------------------------------------------------------
    // Drawing buffers
    // -------------------------------------------------------------------

    /**
     * The composition part of draw_cells: canvas becomes the grid with the
     * active piece's on-grid cells overlaid, every cell whose colour differs
     * from the shadow is redrawn (returned as (x, y)), and the shadow then
     * equals the canvas.
     */
    method DrawCells() returns (redrawn: set<(int, int)>)
      requires Valid()
      modifies canvas, shadow
      ensures Drawn()
      ensures forall q :: q in redrawn <==>
        0 <= q.0 < NCOL && 0 <= q.1 < NROW && old(shadow[q.1, q.0]) != canvas[q.1, q.0]
    {
      ComposeCanvas();
      redrawn := SyncShadow();
    }

    /** The first two loops of draw_cells: the grid copied into the canvas, then the piece overlaid. */
    method ComposeCanvas()
      requires Valid()
      modifies canvas
      ensures Contents(canvas) == Composite(Contents(bin), Contents(curPiece), curX, curY)
    {
      CopyBinToCanvas();
      OverlayPiece();
    }

    /** The first loop of draw_cells: the canvas takes the grid's colours. */
    method CopyBinToCanvas()
      requires Valid()
      modifies canvas
      ensures forall y, x :: 0 <= y < NROW && 0 <= x < NCOL ==> canvas[y, x] == bin[y, x]
    {
      for i := 0 to NCOL
        invariant forall y, x :: 0 <= y < NROW && 0 <= x < i ==> canvas[y, x] == bin[y, x]
      {
        for j := 0 to NROW
          invariant forall y, x :: 0 <= y < NROW && 0 <= x < i ==> canvas[y, x] == bin[y, x]
          invariant forall y :: 0 <= y < j ==> canvas[y, i] == bin[y, i]
        {
          if bin[j, i] == 0 {
            canvas[j, i] := 0;
          } else {
            canvas[j, i] := bin[j, i];
          }
        }
      }
    }

    /** The second loop of draw_cells: the on-grid non-empty cells of the piece are written over the copy. */
    method OverlayPiece()
      requires Valid()
      requires forall y, x :: 0 <= y < NROW && 0 <= x < NCOL ==> canvas[y, x] == bin[y, x]
      modifies canvas
      ensures Contents(canvas) == Composite(Contents(bin), Contents(curPiece), curX, curY)
    {
      ghost var g := Contents(bin);
      ghost var p := Contents(curPiece);
      var px, py := curX, curY;
      for i := 0 to SIDE
        invariant forall y, x :: 0 <= y < NROW && 0 <= x < NCOL ==> canvas[y, x] == Painted(g, p, px, py, x, y, i, 0)
      {
        for j := 0 to SIDE
          invariant forall y, x :: 0 <= y < NROW && 0 <= x < NCOL ==> canvas[y, x] == Painted(g, p, px, py, x, y, i, j)
        {
          PaintCell(i, j);
        }
      }
      forall y, x | 0 <= y < NROW && 0 <= x < NCOL
        ensures Contents(canvas)[y][x] == Composite(g, p, px, py)[y][x]
      {
        assert canvas[y, x] == Painted(g, p, px, py, x, y, SIDE, 0);
      }
      SameGrid(Contents(canvas), Composite(g, p, px, py));
    }

    /** The body of the overlay loop: cell (j, i) of the piece is painted when it is non-empty and on the grid. */
    method PaintCell(i: int, j: int)
      requires Valid() && 0 <= i < SIDE && 0 <= j < SIDE
      requires forall y, x :: 0 <= y < NROW && 0 <= x < NCOL ==>
        canvas[y, x] == Painted(Contents(bin), Contents(curPiece), curX, curY, x, y, i, j)
      modifies canvas
      ensures forall y, x :: 0 <= y < NROW && 0 <= x < NCOL ==>
        canvas[y, x] == Painted(Contents(bin), Contents(curPiece), curX, curY, x, y, i, j + 1)
    {
      ghost var p := Contents(curPiece);
      assert p[j][i] == curPiece[j, i];
      if curPiece[j, i] > 0 {
        if 0 <= curX + i < NCOL && 0 <= curY + j < NROW {
          canvas[curY + j, curX + i] := curPiece[j, i];
        }
      }
    }

    /** The last loop of draw_cells: every cell that differs is redrawn and recorded in the shadow. */
    method SyncShadow() returns (redrawn: set<(int, int)>)
      requires Valid()
      modifies shadow
      ensures Contents(shadow) == Contents(canvas)
      ensures forall q :: q in redrawn <==>
        0 <= q.0 < NCOL && 0 <= q.1 < NROW && old(shadow[q.1, q.0]) != canvas[q.1, q.0]
    {
      redrawn := {};
      for i := 0 to NCOL
        invariant forall y, x :: 0 <= y < NROW && 0 <= x < NCOL ==>
          shadow[y, x] == if x < i then canvas[y, x] else old(shadow[y, x])
        invariant forall q :: q in redrawn <==>
          0 <= q.0 < i && 0 <= q.1 < NROW && old(shadow[q.1, q.0]) != canvas[q.1, q.0]
      {
        for j := 0 to NROW
          invariant forall y, x :: 0 <= y < NROW && 0 <= x < NCOL ==>
            shadow[y, x] == if x < i || (x == i && y < j) then canvas[y, x] else old(shadow[y, x])
          invariant forall q :: q in redrawn <==>
            ((0 <= q.0 < i && 0 <= q.1 < NROW) || (q.0 == i && 0 <= q.1 < j)) && old(shadow[q.1, q.0]) != canvas[q.1, q.0]
        {
          if canvas[j, i] != shadow[j, i] {
            redrawn := redrawn + {(i, j)};
            shadow[j, i] := canvas[j, i];
          }
        }
      }
      SameGrid(Contents(shadow), Contents(canvas));
    }
  }
}
