/**
 * Generator: the specification of rand_next.  The source draws its random
 * numbers with rand(); here each draw is an integer choice passed in:
 *   colour   in [0, 12)  the rand() % 12 colour draw,
 *   shape    in {0,1,2}  which of p < 3/7, p < 6/7, otherwise holds,
 *   variant  in {0..3}   which of q < 1/6, q < 2/6, q < 2/3, otherwise holds
 *                        (ignored when shape == 2, where no q is drawn),
 *   turn     in {0..3}   which of r < 1/4, r < 2/4, r < 3/4, otherwise holds.
 */
module Generator {
  import opened Pieces

  datatype Draws = Draws(colour: int, shape: int, variant: int, turn: int)

  predicate ValidDraws(d: Draws) {
    0 <= d.colour < 12 && 0 <= d.shape < 3 && 0 <= d.variant < 4 && 0 <= d.turn < 4
  }

  /** The colour of a piece: draws 0..5 give 1..6, draws 6..11 give 11..16. */
  function ColourOf(draw: int): (c: int)
    requires 0 <= draw < 12
    ensures IsColour(c) && c != 7 && c != 17
    ensures draw < 6 ==> c <= 6
    ensures 6 <= draw ==> 11 <= c
  {
    if draw < 6 then draw + 1 else draw + 5
  }

  /** Each of the twelve colours other than 7 and 17 comes from exactly one draw. */
  lemma ColourOfBijective(c: int)
    requires IsColour(c) && c != 7 && c != 17
    ensures exists draw :: 0 <= draw < 12 && ColourOf(draw) == c
    ensures forall d1, d2 :: 0 <= d1 < 12 && 0 <= d2 < 12 && ColourOf(d1) == c && ColourOf(d2) == c ==> d1 == d2
  {
    var draw := if c <= 6 then c - 1 else c - 5;
    assert ColourOf(draw) == c;
  }

  /** The matrix p with the cell (i, j) set to v. */
  function Put(p: Matrix, i: int, j: int, v: int): (r: Matrix)
    requires IsPiece(p) && 0 <= i < SIDE && 0 <= j < SIDE
    ensures IsPiece(r)
  {
    p[i := p[i][j := v]]
  }

  /** The starting 2x2 square in the middle of the box. */
  function Square(c: int): (r: Matrix)
    ensures IsPiece(r)
  {
    [[0, 0, 0, 0],
     [0, c, c, 0],
     [0, c, c, 0],
     [0, 0, 0, 0]]
  }

  /** The unrotated silhouette chosen by the shape and variant draws. */
  function Shape(c: int, shape: int, variant: int): (r: Matrix)
    ensures IsPiece(r)
  {
    var sq := Square(c);
    if shape == 0 then
      var p := Put(Put(sq, 1, 1, 0), 0, 2, c);
      if variant == 0 then Put(Put(p, 2, 1, 0), 3, 2, c)
      else if variant == 1 then Put(Put(p, 1, 1, c), 2, 1, 0)
      else if variant == 2 then Put(Put(p, 0, 2, 0), 1, 3, c)
      else p
    else if shape == 1 then
      var p := Put(Put(sq, 2, 1, 0), 3, 2, c);
      if variant == 0 then Put(Put(p, 1, 1, 0), 0, 2, c)
      else if variant == 1 then Put(Put(p, 1, 1, 0), 2, 1, c)
      else if variant == 2 then Put(Put(p, 3, 2, 0), 2, 3, c)
      else p
    else
      sq
  }

  /** The final random turn: left, right, half (two left turns) or none. */
  function Turn(p: Matrix, turn: int): (r: Matrix)
    requires IsPiece(p)
    ensures IsPiece(r)
  {
    if turn == 0 then RotL(p)
    else if turn == 1 then RotR(p)
    else if turn == 2 then RotL(RotL(p))
    else p
  }

  /** The piece rand_next writes into the queue for the given draws. */
  function Generate(d: Draws): (r: Matrix)
    requires ValidDraws(d)
    ensures IsPiece(r)
  {
    Turn(Shape(ColourOf(d.colour), d.shape, d.variant), d.turn)
  }

  /** A piece whose non-empty cells all have colour c. */
  predicate Monochrome(p: Matrix, c: int)
    requires IsPiece(p)
  {
    forall i, j :: 0 <= i < SIDE && 0 <= j < SIDE ==> p[i][j] == 0 || p[i][j] == c
  }

  /** Exactly four cells of colour c, every other cell empty. */
  predicate Tetromino(p: Matrix, c: int)
    requires IsPiece(p)
  {
    c != 0 && Cells(p)[c] == 4 && Monochrome(p, c)
  }

  lemma ShapeIsTetromino(c: int, shape: int, variant: int)
    requires c != 0 && 0 <= shape < 3 && 0 <= variant < 4
    ensures Tetromino(Shape(c, shape, variant), c)
  {
    var p := Shape(c, shape, variant);
    var q: Matrix;
    if shape == 0 {
      q := if variant == 0 then [[0, 0, c, 0], [0, 0, c, 0], [0, 0, c, 0], [0, 0, c, 0]]
        else if variant == 1 then [[0, 0, c, 0], [0, c, c, 0], [0, 0, c, 0], [0, 0, 0, 0]]
        else if variant == 2 then [[0, 0, 0, 0], [0, 0, c, c], [0, c, c, 0], [0, 0, 0, 0]]
        else [[0, 0, c, 0], [0, 0, c, 0], [0, c, c, 0], [0, 0, 0, 0]];
    } else if shape == 1 {
      q := if variant == 0 then [[0, 0, c, 0], [0, 0, c, 0], [0, 0, c, 0], [0, 0, c, 0]]
        else if variant == 1 then [[0, 0, 0, 0], [0, 0, c, 0], [0, c, c, 0], [0, 0, c, 0]]
        else if variant == 2 then [[0, 0, 0, 0], [0, c, c, 0], [0, 0, c, c], [0, 0, 0, 0]]
        else [[0, 0, 0, 0], [0, c, c, 0], [0, 0, c, 0], [0, 0, c, 0]];
    } else {
      q := Square(c);
    }
    assert p[0] == q[0] && p[1] == q[1] && p[2] == q[2] && p[3] == q[3];
    assert p == q;
    FourCells(q, c);
  }

  /**
   * A piece whose cells are all 0 or c, with exactly four of them c, has
   * four cells of colour c in its multiset.
   */
  lemma FourCells(q: Matrix, c: int)
    requires IsPiece(q) && c != 0 && Monochrome(q, c)
    requires (if q[0][0] == c then 1 else 0) + (if q[0][1] == c then 1 else 0) + (if q[0][2] == c then 1 else 0) + (if q[0][3] == c then 1 else 0)
      + (if q[1][0] == c then 1 else 0) + (if q[1][1] == c then 1 else 0) + (if q[1][2] == c then 1 else 0) + (if q[1][3] == c then 1 else 0)
      + (if q[2][0] == c then 1 else 0) + (if q[2][1] == c then 1 else 0) + (if q[2][2] == c then 1 else 0) + (if q[2][3] == c then 1 else 0)
      + (if q[3][0] == c then 1 else 0) + (if q[3][1] == c then 1 else 0) + (if q[3][2] == c then 1 else 0) + (if q[3][3] == c then 1 else 0) == 4
    ensures Tetromino(q, c)
  {
    RowTally(q[0], c); RowTally(q[1], c); RowTally(q[2], c); RowTally(q[3], c);
  }

  /** How often v occurs in a row of four cells. */
  lemma RowTally(s: seq<int>, v: int)
    requires |s| == SIDE
    ensures multiset(s)[v] == (if s[0] == v then 1 else 0) + (if s[1] == v then 1 else 0)
      + (if s[2] == v then 1 else 0) + (if s[3] == v then 1 else 0)
  {
    RowCells(s);
  }

  lemma RotRKeepsTetromino(p: Matrix, c: int)
    requires IsPiece(p) && Tetromino(p, c)
    ensures Tetromino(RotR(p), c)
  {
    RotRKeepsCells(p);
    var r := RotR(p);
    forall a, b | 0 <= a < SIDE && 0 <= b < SIDE
      ensures r[a][b] == 0 || r[a][b] == c
    {
      assert r[a][b] == p[SIDE - 1 - b][a];
    }
  }

  lemma RotLKeepsTetromino(p: Matrix, c: int)
    requires IsPiece(p) && Tetromino(p, c)
    ensures Tetromino(RotL(p), c)
  {
    RotLKeepsCells(p);
    var r := RotL(p);
    forall a, b | 0 <= a < SIDE && 0 <= b < SIDE
      ensures r[a][b] == 0 || r[a][b] == c
    {
      assert r[a][b] == p[b][SIDE - 1 - a];
    }
  }

  /**
   * Every generated piece has exactly four non-empty cells, all of the drawn
   * colour, which is never white (7) or bright white (17); so it is legal.
   */
  lemma GenerateIsTetromino(d: Draws)
    requires ValidDraws(d)
    ensures Tetromino(Generate(d), ColourOf(d.colour))
    ensures LegalPiece(Generate(d))
  {
    var c := ColourOf(d.colour);
    var s := Shape(c, d.shape, d.variant);
    ShapeIsTetromino(c, d.shape, d.variant);
    if d.turn == 0 {
      RotLKeepsTetromino(s, c);
    } else if d.turn == 1 {
      RotRKeepsTetromino(s, c);
    } else if d.turn == 2 {
      RotLKeepsTetromino(s, c);
      RotLKeepsTetromino(RotL(s), c);
    }
  }
}
