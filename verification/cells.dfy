/** Cells and matrices of the board (src/Board.js).

    A cell holds 0, 1 or, transiently while the rook solver runs, JavaScript's
    `null`. Every query of the board tests `=== 1`, so only `Piece` is ever
    counted. */
module Cells {

  /** 0, 1 and the `null` sentinel the rook solver writes into rejected cells. */
  datatype Cell = Empty | Piece | Marked

  type Matrix = seq<seq<Cell>>

  /** The board is n×n, n being the number of rows. */
  predicate Square(b: Matrix) {
    forall r :: 0 <= r < |b| ==> |b[r]| == |b|
  }

  /** `_isInBounds`: both indices lie in [0, n). */
  predicate InBounds(n: int, r: int, c: int) {
    0 <= r < n && 0 <= c < n
  }

  /** On a square board `_isInBounds` holds exactly when (r, c) names a cell
      of the matrix, and every piece lies in bounds. */
  lemma InBoundsMeansCellExists(b: Matrix, r: int, c: int)
    requires Square(b)
    ensures InBounds(|b|, r, c) <==> 0 <= r < |b| && 0 <= c < |b[r]|
    ensures IsPiece(b, r, c) ==> InBounds(|b|, r, c)
  {
  }

  /** The cell (r, c) exists and holds exactly 1. */
  predicate IsPiece(b: Matrix, r: int, c: int) {
    0 <= r < |b| && 0 <= c < |b[r]| && b[r][c] == Piece
  }

  /** `makeEmptyMatrix(n)`: n rows of n zeros. */
  function EmptyMatrix(n: nat): (b: Matrix)
    ensures Square(b) && |b| == n
    ensures forall r, c :: InBounds(n, r, c) ==> b[r][c] == Empty
    ensures forall r, c :: !IsPiece(b, r, c)
  {
    seq(n, _ => seq(n, _ => Empty))
  }

  /** JavaScript's `+ !x`: 1 becomes 0, while 0 and `null` both become 1. */
  function Flip(x: Cell): Cell {
    if x == Piece then Empty else Piece
  }

  /** `togglePiece(r, c)`: flips the occupancy of one cell and of no other. */
  function TogglePiece(b: Matrix, r: int, c: int): (t: Matrix)
    requires Square(b) && InBounds(|b|, r, c)
    ensures Square(t) && |t| == |b|
    ensures IsPiece(t, r, c) <==> !IsPiece(b, r, c)
    ensures t[r][c] != Marked
    ensures forall i, j :: InBounds(|b|, i, j) && (i != r || j != c) ==> t[i][j] == b[i][j]
  {
    b[r := b[r][c := Flip(b[r][c])]]
  }

  /** On a cell holding 0 or 1, toggling twice gives back the same board. */
  lemma ToggleTwiceRestores(b: Matrix, r: int, c: int)
    requires Square(b) && InBounds(|b|, r, c)
    requires b[r][c] != Marked
    ensures TogglePiece(TogglePiece(b, r, c), r, c) == b
  {
    var t := TogglePiece(TogglePiece(b, r, c), r, c);
    assert t[r] == b[r];
  }

  /** On a sentinel cell the round trip does not hold: `+ !null` is 1, so two
      toggles leave 0 where `null` was. */
  lemma ToggleTwiceClearsSentinel(b: Matrix, r: int, c: int)
    requires Square(b) && InBounds(|b|, r, c)
    requires b[r][c] == Marked
    ensures TogglePiece(b, r, c)[r][c] == Piece
    ensures TogglePiece(TogglePiece(b, r, c), r, c)[r][c] == Empty
    ensures TogglePiece(TogglePiece(b, r, c), r, c) != b
  {
  }

  /** Two square boards of one size that agree on every cell are equal. */
  lemma SameCells(x: Matrix, y: Matrix)
    requires Square(x) && Square(y) && |x| == |y|
    requires forall i, j :: InBounds(|x|, i, j) ==> x[i][j] == y[i][j]
    ensures x == y
  {
    forall i | 0 <= i < |x|
      ensures x[i] == y[i]
    {
      assert forall j :: 0 <= j < |x| ==> x[i][j] == y[i][j];
    }
  }
}
