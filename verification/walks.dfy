/** The line walks of src/Board.js, written with the source's own loop
    variables, branches and early returns, and each proved to count exactly
    the pieces of the line it is given. */
module Walks {
  import opened Cells
  import opened Lines

  /** `hasRowConflictAt`'s loop: cells i and after of `rows()[r]` holding 1. */
  function RowScan(b: Matrix, r: int, i: nat): (count: nat)
    requires Square(b) && 0 <= r < |b|
    ensures count == CellsFrom(b, Line(Rows, r), r, i)
    decreases |b[r]| - i
  {
    if i >= |b[r]| then 0
    else (if b[r][i] == Piece then 1 else 0) + RowScan(b, r, i + 1)
  }

  /** The number of pieces row r holds, as `hasRowConflictAt` counts it. */
  function RowWalk(b: Matrix, r: int): (count: nat)
    requires Square(b) && 0 <= r < |b|
    ensures count == PiecesOn(b, Line(Rows, r))
  {
    RowsFromSkip(b, Line(Rows, r), 0, r);
    RowsFromNoHits(b, Line(Rows, r), r + 1);
    RowScan(b, r, 0)
  }

  /** `hasColConflictAt`'s loop: rows i and after holding 1 at column c; a
      column outside the board reads `undefined`, which is not 1. */
  function ColScan(b: Matrix, c: int, i: nat): (count: nat)
    requires Square(b)
    ensures count == RowsFrom(b, Line(Cols, c), i)
    decreases |b| - i
  {
    if i >= |b| then 0
    else
      CellsFromSingle(b, Line(Cols, c), i, 0, c);
      (if 0 <= c < |b[i]| && b[i][c] == Piece then 1 else 0) + ColScan(b, c, i + 1)
  }

  /** The number of pieces column c holds, as `hasColConflictAt` counts it. */
  function ColWalk(b: Matrix, c: int): (count: nat)
    requires Square(b)
    ensures count == PiecesOn(b, Line(Cols, c))
  {
    ColScan(b, c, 0)
  }

  /** The first branch of `hasMajorDiagonalConflictAt` (key >= 0): row i,
      column `col`, both advancing, returning once `col` reaches n. */
  function MajorFromTop(b: Matrix, i: nat, col: int): (count: nat)
    requires Square(b) && 0 <= col
    ensures count == RowsFrom(b, Line(Majors, col - i), i)
    decreases |b| - i
  {
    if i >= |b| then 0
    else if col >= |b| then
      RowsFromNoHits(b, Line(Majors, col - i), i);
      0
    else
      CellsFromSingle(b, Line(Majors, col - i), i, 0, col);
      (if b[i][col] == Piece then 1 else 0) + MajorFromTop(b, i + 1, col + 1)
  }

  /** The second branch of `hasMajorDiagonalConflictAt` (key < 0): column a,
      row `row` starting at -key, both advancing, returning once `row` is n.
      The test is `=== n`, so a start row beyond n would index a missing row. */
  function MajorFromLeft(b: Matrix, a: nat, row: int): (count: nat)
    requires Square(b) && 0 <= row
    requires a < |b| ==> row <= |b|
    ensures count == RowsFrom(b, Line(Majors, a - row), row)
    decreases |b| - a
  {
    if a >= |b| then
      RowsFromNoHits(b, Line(Majors, a - row), row);
      0
    else if row == |b| then 0
    else
      CellsFromSingle(b, Line(Majors, a - row), row, 0, a);
      (if b[row][a] == Piece then 1 else 0) + MajorFromLeft(b, a + 1, row + 1)
  }

  /** The number of pieces on the major diagonal c - r == k, as
      `hasMajorDiagonalConflictAt` counts it: the two branches together visit
      every in-bounds cell of the diagonal and no other cell. */
  function MajorWalk(b: Matrix, k: int): (count: nat)
    requires Square(b) && ValidKey(|b|, Line(Majors, k))
    ensures count == PiecesOn(b, Line(Majors, k))
  {
    if k >= 0 then MajorFromTop(b, 0, k)
    else
      RowsFromSkip(b, Line(Majors, k), 0, -k);
      MajorFromLeft(b, 0, -k)
  }

  /** The first branch of `hasMinorDiagonalConflictAt` (key < n): row i,
      column `col` moving left, returning once `col` is negative. */
  function MinorFromTop(b: Matrix, i: nat, col: int): (count: nat)
    requires Square(b) && col < |b|
    ensures count == RowsFrom(b, Line(Minors, col + i), i)
    decreases |b| - i
  {
    if i >= |b| then 0
    else if col < 0 then
      RowsFromNoHits(b, Line(Minors, col + i), i);
      0
    else
      CellsFromSingle(b, Line(Minors, col + i), i, 0, col);
      (if b[i][col] == Piece then 1 else 0) + MinorFromTop(b, i + 1, col - 1)
  }

  /** The second branch of `hasMinorDiagonalConflictAt` (n <= key < 2n - 1):
      column `col` from n - 1 down while it is positive, row from key - n + 1
      up, returning once the row is n. Column 0 is never read, and need not
      be: the starting row is at least 1, so the row runs out first. */
  function MinorFromRight(b: Matrix, col: int, row: int): (count: nat)
    requires Square(b) && 0 <= row <= |b| && col < |b|
    requires |b| <= row + col <= 2 * |b| - 2
    ensures count == RowsFrom(b, Line(Minors, row + col), row)
    decreases col
  {
    if col <= 0 then 0
    else if row == |b| then 0
    else
      CellsFromSingle(b, Line(Minors, row + col), row, 0, col);
      (if b[row][col] == Piece then 1 else 0) + MinorFromRight(b, col - 1, row + 1)
  }

  /** The number of pieces on the minor diagonal c + r == k, as
      `hasMinorDiagonalConflictAt` counts it. */
  function MinorWalk(b: Matrix, k: int): (count: nat)
    requires Square(b) && ValidKey(|b|, Line(Minors, k))
    ensures count == PiecesOn(b, Line(Minors, k))
  {
    if k < |b| then MinorFromTop(b, 0, k)
    else
      RowsFromSkip(b, Line(Minors, k), 0, k - |b| + 1);
      MinorFromRight(b, |b| - 1, k - |b| + 1)
  }

  /** The count of any line with a valid key, by the walk of its family. */
  function Walk(b: Matrix, line: Line): (count: nat)
    requires Square(b) && ValidKey(|b|, line)
    ensures count == PiecesOn(b, line)
  {
    match line.family
    case Rows => RowWalk(b, line.key)
    case Cols => ColWalk(b, line.key)
    case Majors => MajorWalk(b, line.key)
    case Minors => MinorWalk(b, line.key)
  }
}
