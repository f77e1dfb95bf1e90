/**
 * Board: the 13x11 grid of colour indices (the engine's `bin`), the
 * collision rule shared by moves and rotations, locking a piece into the
 * grid, the composite that is drawn, and the closed form of what the
 * row-clearing loop leaves behind.
 *
 * A grid is indexed row first: g[y][x], with y = 0 the top row and
 * y = NROW - 1 the floor row.  Piece coordinates are anchored at the
 * top-left corner (px, py) of the piece's box: cell (i, j) of the piece
 * lies at x = px + j, y = py + i.
 */
module Board {
  import opened Pieces

  const NROW := 13
  const NCOL := 11

  type Grid = seq<seq<int>>

  predicate IsGrid(g: Grid) {
    |g| == NROW && forall y :: 0 <= y < NROW ==> |g[y]| == NCOL
  }

  predicate LegalGrid(g: Grid)
    requires IsGrid(g)
  {
    forall y, x :: 0 <= y < NROW && 0 <= x < NCOL ==> IsCellValue(g[y][x])
  }

  /** Two grids with the same cells are equal. */
  lemma SameGrid(g: Grid, h: Grid)
    requires IsGrid(g) && IsGrid(h)
    requires forall y, x :: 0 <= y < NROW && 0 <= x < NCOL ==> g[y][x] == h[y][x]
    ensures g == h
  {
    forall y | 0 <= y < NROW
      ensures g[y] == h[y]
    {
    }
  }

  // ---------------------------------------------------------------------
  // Collision
  // ---------------------------------------------------------------------

  /**
   * A position a piece cell may not take: left of or right of the walls,
   * at or below the floor, or a locked cell.  Rows above the top (y < 0)
   * are never blocked: the ceiling is open.
   */
  predicate Blocked(g: Grid, x: int, y: int)
    requires IsGrid(g)
  {
    x < 0 || NCOL <= x || NROW <= y || (0 <= y && g[y][x] != 0)
  }

  /** Every non-empty cell of p, with the box anchored at (px, py), is unblocked. */
  predicate Fits(g: Grid, p: Matrix, px: int, py: int)
    requires IsGrid(g) && IsPiece(p)
  {
    forall i, j :: 0 <= i < SIDE && 0 <= j < SIDE && p[i][j] != 0 ==> !Blocked(g, px + j, py + i)
  }

  /** Every non-empty cell of p lies on the grid. */
  predicate InsideGrid(p: Matrix, px: int, py: int)
    requires IsPiece(p)
  {
    forall i, j :: 0 <= i < SIDE && 0 <= j < SIDE && p[i][j] != 0 ==>
      0 <= px + j < NCOL && 0 <= py + i < NROW
  }

  /** A piece that fits and whose box starts at or below the top row lies on the grid. */
  lemma FitsBelowCeilingIsInside(g: Grid, p: Matrix, px: int, py: int)
    requires IsGrid(g) && IsPiece(p) && Fits(g, p, px, py) && 0 <= py
    ensures InsideGrid(p, px, py)
  {
  }

  /** Where the engine spawns a piece: centred, with the whole box above the top row. */
  const SPAWN_X := (NCOL - SIDE) / 2
  const SPAWN_Y := -SIDE

  /** Any piece fits at the spawn anchor, whatever the grid holds. */
  lemma SpawnFits(g: Grid, p: Matrix)
    requires IsGrid(g) && IsPiece(p)
    ensures Fits(g, p, SPAWN_X, SPAWN_Y)
  {
  }

  /** Rotating back at the same anchor is always allowed, and restores the piece. */
  lemma RotationReversible(g: Grid, p: Matrix, px: int, py: int)
    requires IsGrid(g) && IsPiece(p) && Fits(g, p, px, py)
    ensures Fits(g, RotR(p), px, py) ==> Fits(g, RotL(RotR(p)), px, py) && RotL(RotR(p)) == p
    ensures Fits(g, RotL(p), px, py) ==> Fits(g, RotR(RotL(p)), px, py) && RotR(RotL(p)) == p
  {
    RotLUndoesRotR(p);
    RotRUndoesRotL(p);
  }

  // ---------------------------------------------------------------------
  // Locking a piece
  // ---------------------------------------------------------------------

  /** The cell (x, y) is covered by a non-empty cell of p anchored at (px, py). */
  predicate Covers(p: Matrix, px: int, py: int, x: int, y: int)
    requires IsPiece(p)
  {
    0 <= y - py < SIDE && 0 <= x - px < SIDE && p[y - py][x - px] != 0
  }

  /** The grid after the non-empty cells of p are written into it. */
  function Place(g: Grid, p: Matrix, px: int, py: int): (r: Grid)
    requires IsGrid(g) && IsPiece(p) && InsideGrid(p, px, py)
    ensures IsGrid(r)
    ensures forall i, j :: 0 <= i < SIDE && 0 <= j < SIDE && p[i][j] != 0 ==> r[py + i][px + j] == p[i][j]
  {
    seq(NROW, y requires 0 <= y < NROW =>
      seq(NCOL, x requires 0 <= x < NCOL =>
        if Covers(p, px, py, x, y) then p[y - py][x - px] else g[y][x]))
  }

  /** Locking changes no cell outside the piece, and leaves the piece's cells occupied. */
  lemma PlaceFrame(g: Grid, p: Matrix, px: int, py: int)
    requires IsGrid(g) && IsPiece(p) && InsideGrid(p, px, py)
    ensures forall y, x :: 0 <= y < NROW && 0 <= x < NCOL && !Covers(p, px, py, x, y) ==>
      Place(g, p, px, py)[y][x] == g[y][x]
    ensures forall i, j :: 0 <= i < SIDE && 0 <= j < SIDE && p[i][j] != 0 ==>
      Blocked(Place(g, p, px, py), px + j, py + i)
  {
  }

  lemma PlaceKeepsLegal(g: Grid, p: Matrix, px: int, py: int)
    requires IsGrid(g) && IsPiece(p) && InsideGrid(p, px, py)
    requires LegalGrid(g) && LegalPiece(p)
    ensures LegalGrid(Place(g, p, px, py))
  {
    var r := Place(g, p, px, py);
    forall y, x | 0 <= y < NROW && 0 <= x < NCOL
      ensures IsCellValue(r[y][x])
    {
      if Covers(p, px, py, x, y) {
        assert r[y][x] == p[y - py][x - px];
      }
    }
  }

  // ---------------------------------------------------------------------
  // What is drawn
  // ---------------------------------------------------------------------

  /**
   * The canvas: the grid with the cells of p that hold a positive colour
   * and fall on the grid overlaid; cells off the grid are clipped.
   */
  function Composite(g: Grid, p: Matrix, px: int, py: int): (r: Grid)
    requires IsGrid(g) && IsPiece(p)
    ensures IsGrid(r)
  {
    seq(NROW, y requires 0 <= y < NROW =>
      seq(NCOL, x requires 0 <= x < NCOL =>
        if 0 <= y - py < SIDE && 0 <= x - px < SIDE && p[y - py][x - px] > 0 then p[y - py][x - px] else g[y][x]))
  }

  /** For a legal piece lying on the grid, what is drawn is what locking it would write. */
  lemma CompositeIsPlace(g: Grid, p: Matrix, px: int, py: int)
    requires IsGrid(g) && IsPiece(p) && LegalPiece(p) && InsideGrid(p, px, py)
    ensures Composite(g, p, px, py) == Place(g, p, px, py)
  {
    var c, r := Composite(g, p, px, py), Place(g, p, px, py);
    forall y, x | 0 <= y < NROW && 0 <= x < NCOL
      ensures c[y][x] == r[y][x]
    {
      if 0 <= y - py < SIDE && 0 <= x - px < SIDE {
        assert IsCellValue(p[y - py][x - px]);
      }
    }
    SameGrid(c, r);
  }

  // ---------------------------------------------------------------------
  // Row clearing
  // ---------------------------------------------------------------------

  /** A row with no empty cell. */
  predicate IsFull(row: seq<int>) {
    forall x :: 0 <= x < |row| ==> row[x] != 0
  }

  /** The number of full rows in rows. */
  function FullCount(rows: seq<seq<int>>): (n: nat)
    ensures n <= |rows|
    ensures n == 0 <==> forall k :: 0 <= k < |rows| ==> !IsFull(rows[k])
  {
    if rows == [] then 0
    else FullCount(rows[..|rows| - 1]) + (if IsFull(rows[|rows| - 1]) then 1 else 0)
  }

  /** The rows that are not full, in their original order. */
  function NonFullRows(rows: seq<seq<int>>): (r: seq<seq<int>>)
    ensures |r| + FullCount(rows) == |rows|
    ensures forall k :: 0 <= k < |r| ==> r[k] in rows && !IsFull(r[k])
  {
    if rows == [] then []
    else NonFullRows(rows[..|rows| - 1]) + (if IsFull(rows[|rows| - 1]) then [] else [rows[|rows| - 1]])
  }

  /** n copies of row. */
  function Repeat(row: seq<int>, n: nat): (r: seq<seq<int>>)
    ensures |r| == n && forall k :: 0 <= k < n ==> r[k] == row
  {
    if n == 0 then [] else Repeat(row, n - 1) + [row]
  }

  /**
   * What eval_and_clean leaves in the grid when it terminates: the rows
   * that were not full, in order, at the bottom, and above them as many
   * copies of the old top row as there were full rows.  The top row is
   * copied down at every removal but never emptied.
   */
  function Compacted(g: Grid): Grid
    requires IsGrid(g)
  {
    Repeat(g[0], FullCount(g)) + NonFullRows(g)
  }

  lemma CompactedIsGrid(g: Grid)
    requires IsGrid(g)
    ensures IsGrid(Compacted(g))
  {
    var r := Compacted(g);
    forall y | 0 <= y < NROW
      ensures |r[y]| == NCOL
    {
      if y >= FullCount(g) {
        var k := y - FullCount(g);
        assert r[y] == NonFullRows(g)[k];
        assert r[y] in g;
      }
    }
  }

  /** When the top row is not full, no full row is left. */
  lemma CompactedHasNoFullRow(g: Grid)
    requires IsGrid(g) && !IsFull(g[0])
    ensures forall y :: 0 <= y < |Compacted(g)| ==> !IsFull(Compacted(g)[y])
  {
  }

  /** Cleaning a grid that has no full row changes nothing. */
  lemma {:induction false} NonFullRowsOfNoFull(rows: seq<seq<int>>)
    requires FullCount(rows) == 0
    ensures NonFullRows(rows) == rows
  {
    if rows != [] {
      var init := rows[..|rows| - 1];
      assert FullCount(init) == 0;
      NonFullRowsOfNoFull(init);
      assert init + [rows[|rows| - 1]] == rows;
    }
  }

  lemma CompactedWithoutFullRows(g: Grid)
    requires IsGrid(g) && FullCount(g) == 0
    ensures Compacted(g) == g
  {
    NonFullRowsOfNoFull(g);
  }

  /**
   * The top row is duplicated: after removing n full rows, rows 0..n all
   * hold the old top row, and the non-full rows keep their order below.
   */
  lemma CompactedRepeatsTopRow(g: Grid)
    requires IsGrid(g) && !IsFull(g[0])
    ensures |Compacted(g)| == NROW && FullCount(g) < NROW
    ensures forall y :: 0 <= y <= FullCount(g) ==> Compacted(g)[y] == g[0]
    ensures Compacted(g)[FullCount(g)..] == NonFullRows(g)
  {
    NonFullRowsStartsWithTop(g);
  }

  lemma {:induction false} NonFullRowsStartsWithTop(rows: seq<seq<int>>)
    requires |rows| > 0 && !IsFull(rows[0])
    ensures |NonFullRows(rows)| > 0 && NonFullRows(rows)[0] == rows[0]
  {
    if |rows| > 1 {
      NonFullRowsStartsWithTop(rows[..|rows| - 1]);
    } else {
      assert rows[..0] == [];
    }
  }

  lemma CompactedKeepsLegal(g: Grid)
    requires IsGrid(g) && LegalGrid(g)
    ensures IsGrid(Compacted(g)) && LegalGrid(Compacted(g))
  {
    CompactedIsGrid(g);
    var r := Compacted(g);
    forall y, x | 0 <= y < NROW && 0 <= x < NCOL
      ensures IsCellValue(r[y][x])
    {
      if y < FullCount(g) {
        assert r[y] == g[0];
      } else {
        assert r[y] == NonFullRows(g)[y - FullCount(g)];
        assert r[y] in g;
        var k :| 0 <= k < NROW && g[k] == r[y];
        assert r[y][x] == g[k][x];
      }
    }
  }

  // The loop of eval_and_clean, step by step.

  /** One removal at row k: rows 1..k take the rows above them; row 0 is left as it was. */
  function ShiftDown(g: Grid, k: int): (r: Grid)
    requires IsGrid(g) && 0 <= k < NROW
    ensures IsGrid(r)
  {
    seq(NROW, y requires 0 <= y < NROW => if 1 <= y <= k then g[y - 1] else g[y])
  }

  /**
   * The loop's view while it is at row k: rows 0..k still to be searched,
   * rows below k final.  Pending(g, NROW - 1) is Compacted(g) and
   * Pending(g, -1) is g itself.
   */
  function Pending(g: Grid, k: int): seq<seq<int>>
    requires IsGrid(g) && -1 <= k < NROW
  {
    Repeat(g[0], FullCount(g[..k + 1])) + (NonFullRows(g[..k + 1]) + g[k + 1..])
  }

  lemma PendingAtBounds(g: Grid)
    requires IsGrid(g)
    ensures Pending(g, NROW - 1) == Compacted(g)
    ensures Pending(g, -1) == g
  {
    assert g[..NROW] == g;
    assert g[..0] == [];
  }

  /** Skipping a row that is not full leaves the loop's view unchanged. */
  lemma PendingSkip(g: Grid, k: int)
    requires IsGrid(g) && 0 <= k < NROW && !IsFull(g[k])
    ensures Pending(g, k - 1) == Pending(g, k)
    ensures FullCount(g[..k]) == FullCount(g[..k + 1])
  {
    var rows, init, rest := g[..k + 1], g[..k], g[k + 1..];
    assert rows[..|rows| - 1] == init;
    LastRowKept(rows, init);
    var kept := NonFullRows(init);
    assert g[k..] == [g[k]] + rest;
    AppendOne(kept, g[k], rest);
    assert kept + g[k..] == NonFullRows(rows) + rest;
  }

  /** A row that is not full at the end of rows adds nothing to the count and is kept. */
  lemma LastRowKept(rows: seq<seq<int>>, init: seq<seq<int>>)
    requires |rows| > 0 && init == rows[..|rows| - 1] && !IsFull(rows[|rows| - 1])
    ensures FullCount(rows) == FullCount(init)
    ensures NonFullRows(rows) == NonFullRows(init) + [rows[|rows| - 1]]
  {
  }

  lemma AppendOne<T>(a: seq<T>, x: T, b: seq<T>)
    ensures a + ([x] + b) == (a + [x]) + b
  {
  }

  /**
   * Removing a full row k > 0 leaves the loop's view unchanged and lowers
   * the number of full rows still to be searched by one.
   */
  lemma PendingShift(g: Grid, k: int)
    requires IsGrid(g) && 0 < k < NROW && IsFull(g[k]) && !IsFull(g[0])
    ensures ShiftDown(g, k)[0] == g[0]
    ensures Pending(ShiftDown(g, k), k) == Pending(g, k)
    ensures FullCount(ShiftDown(g, k)[..k + 1]) + 1 == FullCount(g[..k + 1])
  {
    var h := ShiftDown(g, k);
    var top, above, below := g[0], g[..k], g[k + 1..];
    ShiftDownSlices(g, k);
    LastRowFull(g[..k + 1], above);
    ConsCounts(top, above);
    var n := FullCount(above);
    var rest := NonFullRows(above);
    assert FullCount(h[..k + 1]) == n;
    assert NonFullRows(h[..k + 1]) == [top] + rest;
    assert FullCount(g[..k + 1]) == n + 1;
    assert NonFullRows(g[..k + 1]) == rest;
    assert Pending(h, k) == Repeat(top, n) + (([top] + rest) + below);
    assert ([top] + rest) + below == [top] + (rest + below);
    RepeatOneMore(top, n, rest + below);
  }

  lemma RepeatOneMore(row: seq<int>, n: nat, tail: seq<seq<int>>)
    ensures Repeat(row, n) + ([row] + tail) == Repeat(row, n + 1) + tail
  {
    assert Repeat(row, n + 1) == Repeat(row, n) + [row];
  }

  lemma ShiftDownSlices(g: Grid, k: int)
    requires IsGrid(g) && 0 < k < NROW
    ensures ShiftDown(g, k)[..k + 1] == [g[0]] + g[..k]
    ensures ShiftDown(g, k)[k + 1..] == g[k + 1..]
    ensures ShiftDown(g, k)[0] == g[0]
  {
  }

  /** A full row at the end of rows adds one to the count and nothing to the non-full rows. */
  lemma LastRowFull(rows: seq<seq<int>>, init: seq<seq<int>>)
    requires |rows| > 0 && init == rows[..|rows| - 1] && IsFull(rows[|rows| - 1])
    ensures FullCount(rows) == FullCount(init) + 1
    ensures NonFullRows(rows) == NonFullRows(init)
  {
  }

  /** Putting a row that is not full in front. */
  lemma {:induction false} ConsCounts(row: seq<int>, rows: seq<seq<int>>)
    requires !IsFull(row)
    ensures FullCount([row] + rows) == FullCount(rows)
    ensures NonFullRows([row] + rows) == [row] + NonFullRows(rows)
  {
    if rows != [] {
      var init := rows[..|rows| - 1];
      ConsCounts(row, init);
      assert ([row] + rows)[..|rows|] == [row] + init;
      assert ([row] + rows)[|rows|] == rows[|rows| - 1];
    } else {
      assert [row] + rows == [row];
      assert [row][..0] == [];
    }
  }

  /**
   * The search loop of eval_and_clean run for at most n iterations from
   * row k: a full row is shifted out and searched again, any other row is
   * passed over.  The pair is the grid and the row the search is at.
   */
  function SearchRun(g: Grid, k: int, n: nat): (r: (Grid, int))
    requires IsGrid(g) && -1 <= k < NROW
    ensures IsGrid(r.0) && -1 <= r.1 <= k
    decreases n
  {
    if n == 0 || k < 0 then (g, k)
    else if IsFull(g[k]) then SearchRun(ShiftDown(g, k), k, n - 1)
    else SearchRun(g, k - 1, n - 1)
  }

  /**
   * With a full top row the search never gets past row 0, however many
   * iterations it runs, so the loop does not terminate.  Row 0 is never
   * rewritten and stays full; every shift copies it into row 1, so the
   * search is stuck for good at row 1 or row 0, whichever it reaches first.
   */
  lemma {:induction false} FullTopRowNeverEnds(g: Grid, k: int, n: nat)
    requires IsGrid(g) && IsFull(g[0]) && 0 <= k < NROW
    ensures 0 <= SearchRun(g, k, n).1
    ensures SearchRun(g, k, n).0[0] == g[0]
    decreases n
  {
    if n > 0 {
      if IsFull(g[k]) {
        FullTopRowNeverEnds(ShiftDown(g, k), k, n - 1);
      } else {
        FullTopRowNeverEnds(g, k - 1, n - 1);
      }
    }
  }
  /**
   * The invariant of eval_and_clean's search loop: at row k, having removed
   * `removed` full rows, the grid cur still compacts to what start does,
   * and the rows still to be searched hold the full rows not yet removed.
   */
  predicate Searching(start: Grid, cur: Grid, k: int, removed: int)
  {
    && IsGrid(start) && IsGrid(cur) && -1 <= k < NROW && 0 <= removed
    && !IsFull(start[0]) && cur[0] == start[0]
    && Pending(cur, k) == Compacted(start)
    && FullCount(cur[..k + 1]) + removed == FullCount(start)
  }

  lemma SearchStarts(g: Grid)
    requires IsGrid(g) && !IsFull(g[0])
    ensures Searching(g, g, NROW - 1, 0)
  {
    PendingAtBounds(g);
    assert g[..NROW] == g;
  }

  /** A row that is not full is passed over: the search moves up. */
  lemma SearchSkips(start: Grid, cur: Grid, k: int, removed: int)
    requires Searching(start, cur, k, removed) && 0 <= k && !IsFull(cur[k])
    ensures Searching(start, cur, k - 1, removed)
  {
    PendingSkip(cur, k);
  }

  /** A full row is removed by the shift: the search stays at k, one fewer full row remains. */
  lemma SearchShifts(start: Grid, cur: Grid, k: int, removed: int)
    requires Searching(start, cur, k, removed) && 0 <= k && IsFull(cur[k])
    ensures 0 < k && removed < FullCount(start)
    ensures Searching(start, ShiftDown(cur, k), k, removed + 1)
  {
    PendingShift(cur, k);
  }

  /** When the search has passed the top row, the grid is the compacted one and every full row was removed. */
  lemma SearchEnds(start: Grid, cur: Grid, removed: int)
    requires Searching(start, cur, -1, removed)
    ensures cur == Compacted(start)
    ensures removed == FullCount(start)
  {
    PendingAtBounds(cur);
    assert cur[..0] == [];
  }

  /** From row k, enough iterations finish the search with the loop's view of the grid. */
  lemma {:induction false} SearchRunFinishes(cur: Grid, k: int, n: nat)
    requires IsGrid(cur) && -1 <= k < NROW && !IsFull(cur[0])
    requires k + 1 + FullCount(cur[..k + 1]) <= n
    ensures SearchRun(cur, k, n) == (Pending(cur, k), -1)
    decreases n, 1
  {
    if k < 0 {
      PendingAtBounds(cur);
    } else if IsFull(cur[k]) {
      ShiftFinishes(cur, k, n);
    } else {
      SkipFinishes(cur, k, n);
    }
  }

  lemma {:induction false} ShiftFinishes(cur: Grid, k: int, n: nat)
    requires IsGrid(cur) && 0 <= k < NROW && !IsFull(cur[0]) && IsFull(cur[k])
    requires k + 1 + FullCount(cur[..k + 1]) <= n
    ensures SearchRun(cur, k, n) == (Pending(cur, k), -1)
    decreases n, 0
  {
    PendingShift(cur, k);
    SearchRunStep(cur, k, n);
    SearchRunFinishes(ShiftDown(cur, k), k, n - 1);
  }

  lemma {:induction false} SkipFinishes(cur: Grid, k: int, n: nat)
    requires IsGrid(cur) && 0 <= k < NROW && !IsFull(cur[0]) && !IsFull(cur[k])
    requires k + 1 + FullCount(cur[..k + 1]) <= n
    ensures SearchRun(cur, k, n) == (Pending(cur, k), -1)
    decreases n, 0
  {
    PendingSkip(cur, k);
    SearchRunStep(cur, k, n);
    SearchRunFinishes(cur, k - 1, n - 1);
  }

  lemma SearchRunStep(g: Grid, k: int, n: nat)
    requires IsGrid(g) && 0 <= k < NROW && 0 < n
    ensures IsFull(g[k]) ==> SearchRun(g, k, n) == SearchRun(ShiftDown(g, k), k, n - 1)
    ensures !IsFull(g[k]) ==> SearchRun(g, k, n) == SearchRun(g, k - 1, n - 1)
  {
  }

  /**
   * With the top row not full, eval_and_clean's search ends after at most
   * NROW + FullCount(g) iterations, with the grid compacted.
   */
  lemma SearchEndsWhenTopRowOpen(g: Grid)
    requires IsGrid(g) && !IsFull(g[0])
    ensures SearchRun(g, NROW - 1, NROW + FullCount(g)) == (Compacted(g), -1)
  {
    PendingAtBounds(g);
    assert g[..NROW] == g;
    SearchRunFinishes(g, NROW - 1, NROW + FullCount(g));
  }
}
