/**
 * Pieces: the 4x4 colour matrices of the falling-block game (the active
 * piece and the queued piece), the two quarter-turn rotations that the
 * engine applies by copying through a buffer, and the piece generator with
 * its random draws passed in as integer choices.
 *
 * A matrix is indexed row first: p[i][j] is the cell in row i, column j of
 * the piece's bounding box.  A cell holds a colour index, 0 meaning empty.
 */
module Pieces {

  /** Side of the square bounding box of a piece (NROW_PIECE == NCOL_PIECE). */
  const SIDE := 4

  type Matrix = seq<seq<int>>

  predicate IsPiece(p: Matrix) {
    |p| == SIDE && forall i :: 0 <= i < SIDE ==> |p[i]| == SIDE
  }

  /** Colour indices: 1..7 are the base colours, 11..17 their bright variants. */
  predicate IsColour(v: int) {
    1 <= v <= 7 || 11 <= v <= 17
  }

  /** The fifteen legal states of a cell: empty, or one of the colours. */
  predicate IsCellValue(v: int) {
    v == 0 || IsColour(v)
  }

  predicate LegalPiece(p: Matrix)
    requires IsPiece(p)
  {
    forall i, j :: 0 <= i < SIDE && 0 <= j < SIDE ==> IsCellValue(p[i][j])
  }

  /** The cells of a piece as a multiset of colour indices (sixteen of them). */
  function Cells(p: Matrix): multiset<int>
    requires IsPiece(p)
  {
    multiset(p[0]) + multiset(p[1]) + multiset(p[2]) + multiset(p[3])
  }

  /** Clockwise quarter turn: the cell at (i, j) moves to (j, SIDE-1-i). */
  function RotR(p: Matrix): (r: Matrix)
    requires IsPiece(p)
    ensures IsPiece(r)
    ensures forall i, j :: 0 <= i < SIDE && 0 <= j < SIDE ==> r[j][SIDE - 1 - i] == p[i][j]
  {
    seq(SIDE, a requires 0 <= a < SIDE => seq(SIDE, b requires 0 <= b < SIDE => p[SIDE - 1 - b][a]))
  }

  /** Anti-clockwise quarter turn: the cell at (i, j) moves to (SIDE-1-j, i). */
  function RotL(p: Matrix): (r: Matrix)
    requires IsPiece(p)
    ensures IsPiece(r)
    ensures forall i, j :: 0 <= i < SIDE && 0 <= j < SIDE ==> r[SIDE - 1 - j][i] == p[i][j]
  {
    seq(SIDE, a requires 0 <= a < SIDE => seq(SIDE, b requires 0 <= b < SIDE => p[b][SIDE - 1 - a]))
  }

  /** Two matrices of the same shape with the same cells are equal. */
  lemma SamePiece(p: Matrix, q: Matrix)
    requires IsPiece(p) && IsPiece(q)
    requires forall i, j :: 0 <= i < SIDE && 0 <= j < SIDE ==> p[i][j] == q[i][j]
    ensures p == q
  {
    forall i | 0 <= i < SIDE
      ensures p[i] == q[i]
    {
    }
  }

  lemma RotLUndoesRotR(p: Matrix)
    requires IsPiece(p)
    ensures RotL(RotR(p)) == p
  {
    SamePiece(RotL(RotR(p)), p);
  }

  lemma RotRUndoesRotL(p: Matrix)
    requires IsPiece(p)
    ensures RotR(RotL(p)) == p
  {
    SamePiece(RotR(RotL(p)), p);
  }

  lemma FourTurnsIdentity(p: Matrix)
    requires IsPiece(p)
    ensures RotR(RotR(RotR(RotR(p)))) == p
  {
    SamePiece(RotR(RotR(RotR(RotR(p)))), p);
  }

  /** Two left turns are the half turn: the cell at (i, j) moves to (SIDE-1-i, SIDE-1-j). */
  lemma HalfTurn(p: Matrix)
    requires IsPiece(p)
    ensures RotL(RotL(p)) == RotR(RotR(p))
    ensures forall i, j :: 0 <= i < SIDE && 0 <= j < SIDE ==> RotL(RotL(p))[SIDE - 1 - i][SIDE - 1 - j] == p[i][j]
  {
    SamePiece(RotL(RotL(p)), RotR(RotR(p)));
  }

  lemma RowCells(s: seq<int>)
    requires |s| == SIDE
    ensures multiset(s) == multiset{s[0]} + multiset{s[1]} + multiset{s[2]} + multiset{s[3]}
  {
    assert s == [s[0]] + [s[1]] + [s[2]] + [s[3]];
  }

  /** A rotation only moves cells: the colours and their numbers are kept. */
  lemma RotRKeepsCells(p: Matrix)
    requires IsPiece(p)
    ensures Cells(RotR(p)) == Cells(p)
  {
    var r := RotR(p);
    RowCells(p[0]); RowCells(p[1]); RowCells(p[2]); RowCells(p[3]);
    RowCells(r[0]); RowCells(r[1]); RowCells(r[2]); RowCells(r[3]);
  }

  lemma RotLKeepsCells(p: Matrix)
    requires IsPiece(p)
    ensures Cells(RotL(p)) == Cells(p)
  {
    RotRUndoesRotL(p);
    RotRKeepsCells(RotL(p));
  }

  lemma RotRKeepsLegal(p: Matrix)
    requires IsPiece(p) && LegalPiece(p)
    ensures LegalPiece(RotR(p))
  {
    var r := RotR(p);
    forall a, b | 0 <= a < SIDE && 0 <= b < SIDE
      ensures IsCellValue(r[a][b])
    {
      assert r[a][b] == p[SIDE - 1 - b][a];
    }
  }

  lemma RotLKeepsLegal(p: Matrix)
    requires IsPiece(p) && LegalPiece(p)
    ensures LegalPiece(RotL(p))
  {
    var r := RotL(p);
    forall a, b | 0 <= a < SIDE && 0 <= b < SIDE
      ensures IsCellValue(r[a][b])
    {
      assert r[a][b] == p[b][SIDE - 1 - a];
    }
  }
}
