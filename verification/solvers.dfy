/** The greedy rook placer `findNRooksSolution` (src/solvers.js).

    A rook is seeded at (0, 0). Each pass of `fillNextValidSpace` scans the
    board in row-major order: it places a rook on the first cell that holds 0
    and whose row and column hold no rook, and writes the `null` sentinel into
    every 0-cell it rejects on the way. Passes repeat while one places a rook;
    then every sentinel is reset to 0. */
module Solvers {
  import opened Cells
  import opened Lines
  import opened Board

  /** (r1, c1) comes strictly before (r2, c2) in row-major order. */
  predicate Before(r1: int, c1: int, r2: int, c2: int) {
    r1 < r2 || (r1 == r2 && c1 < c2)
  }

  /** A rook may go on (r, c): the cell holds 0 and neither its row nor its
      column is used. */
  predicate RookLegal(b: Matrix, r: int, c: int)
    requires Square(b) && InBounds(|b|, r, c)
  {
    b[r][c] == Empty && !HasRowConflictAtUsed(b, r) && !HasColConflictAtUsed(b, c)
  }

  /** (r, c) is the first cell of the row-major scan on which a rook may go. */
  ghost predicate FirstLegal(b: Matrix, r: int, c: int)
    requires Square(b)
  {
    InBounds(|b|, r, c) && RookLegal(b, r, c) &&
    forall i, j :: InBounds(|b|, i, j) && Before(i, j, r, c) ==> !RookLegal(b, i, j)
  }

  /** A rejected 0 becomes the sentinel; 1 and the sentinel stay. */
  function Mark(x: Cell): Cell {
    if x == Empty then Marked else x
  }

  /** Cell (i, j) after a pass that stopped at (r, c), placing a rook there
      when `placed`: every cell scanned before it is marked if it held 0. */
  function AfterPass(b: Matrix, i: int, j: int, r: int, c: int, placed: bool): Cell
    requires Square(b) && InBounds(|b|, i, j)
  {
    if placed && i == r && j == c then Piece
    else if Before(i, j, r, c) then Mark(b[i][j])
    else b[i][j]
  }

  /** `next` is `b` after a pass that stopped at (r, c). */
  ghost predicate PassedTo(b: Matrix, next: Matrix, r: int, c: int, placed: bool)
    requires Square(b)
  {
    Square(next) && |next| == |b| &&
    forall i, j :: InBounds(|b|, i, j) ==> next[i][j] == AfterPass(b, i, j, r, c, placed)
  }

  /** The number of cells holding 0 in a row, from column j on. */
  function RowEmpties(row: seq<Cell>, j: nat): nat
    decreases |row| - j
  {
    if j >= |row| then 0
    else (if row[j] == Empty then 1 else 0) + RowEmpties(row, j + 1)
  }

  /** The number of cells holding 0 in rows i and after. */
  function EmptiesFrom(b: Matrix, i: nat): nat
    decreases |b| - i
  {
    if i >= |b| then 0 else RowEmpties(b[i], 0) + EmptiesFrom(b, i + 1)
  }

  /** The number of cells holding 0: the measure that falls on every pass that
      places a rook. */
  function EmptyCount(b: Matrix): nat {
    EmptiesFrom(b, 0)
  }

  lemma {:induction false} RowEmptiesMonotone(x: seq<Cell>, y: seq<Cell>, j: nat)
    requires |x| == |y|
    requires forall t :: j <= t < |x| && y[t] == Empty ==> x[t] == Empty
    ensures RowEmpties(y, j) <= RowEmpties(x, j)
    ensures (exists t :: j <= t < |x| && x[t] == Empty && y[t] != Empty) ==>
              RowEmpties(y, j) < RowEmpties(x, j)
    decreases |x| - j
  {
    if j < |x| {
      RowEmptiesMonotone(x, y, j + 1);
      if exists t :: j <= t < |x| && x[t] == Empty && y[t] != Empty {
        var t :| j <= t < |x| && x[t] == Empty && y[t] != Empty;
        if t > j {
          assert j + 1 <= t;
        }
      }
    }
  }

  lemma {:induction false} EmptiesMonotone(x: Matrix, y: Matrix, i: nat)
    requires |x| == |y|
    requires forall r :: 0 <= r < |x| ==> |x[r]| == |y[r]|
    requires forall r, c :: i <= r < |x| && 0 <= c < |x[r]| && y[r][c] == Empty ==> x[r][c] == Empty
    ensures EmptiesFrom(y, i) <= EmptiesFrom(x, i)
    ensures (exists r, c :: i <= r < |x| && 0 <= c < |x[r]| && x[r][c] == Empty && y[r][c] != Empty) ==>
              EmptiesFrom(y, i) < EmptiesFrom(x, i)
    decreases |x| - i
  {
    if i < |x| {
      EmptiesMonotone(x, y, i + 1);
      RowEmptiesMonotone(x[i], y[i], 0);
      if exists r, c :: i <= r < |x| && 0 <= c < |x[r]| && x[r][c] == Empty && y[r][c] != Empty {
        var r, c :| i <= r < |x| && 0 <= c < |x[r]| && x[r][c] == Empty && y[r][c] != Empty;
        if r > i {
          assert i + 1 <= r;
        } else {
          assert 0 <= c < |x[i]| && x[i][c] == Empty && y[i][c] != Empty;
        }
      }
    }
  }

  /** Pieces are never removed by a pass, and a pass that places a rook turns
      one 0-cell into 1 and no cell into 0, so it lowers the number of 0-cells. */
  lemma PassDecreasesEmpties(b: Matrix, next: Matrix, r: int, c: int)
    requires Square(b) && InBounds(|b|, r, c) && b[r][c] == Empty
    requires PassedTo(b, next, r, c, true)
    ensures forall i, j :: IsPiece(b, i, j) ==> IsPiece(next, i, j)
    ensures EmptyCount(next) < EmptyCount(b)
  {
    assert b[r][c] == Empty && next[r][c] != Empty;
    EmptiesMonotone(b, next, 0);
  }

  /** Placing a rook on a cell whose row and column hold no rook, on a board
      where no two rooks attack, leaves no two rooks attacking. */
  lemma PlacingOnFreeLinesKeepsRooksApart(b: Matrix, next: Matrix, r: int, c: int)
    requires Square(b) && Square(next) && |next| == |b| && InBounds(|b|, r, c)
    requires !RooksAttack(b)
    requires !SomeOnLine(b, Line(Rows, r)) && !SomeOnLine(b, Line(Cols, c))
    requires forall i, j :: IsPiece(next, i, j) ==> IsPiece(b, i, j) || (i == r && j == c)
    ensures !RooksAttack(next)
  {
    forall r1, c1, r2, c2 | IsPiece(next, r1, c1) && IsPiece(next, r2, c2) && (r1 != r2 || c1 != c2)
      ensures r1 != r2 && c1 != c2
    {
      if r1 == r && c1 == c {
        assert IsPiece(b, r2, c2);
        assert !Hit(b, Line(Rows, r), r2, c2) && !Hit(b, Line(Cols, c), r2, c2);
      } else if r2 == r && c2 == c {
        assert IsPiece(b, r1, c1);
        assert !Hit(b, Line(Rows, r), r1, c1) && !Hit(b, Line(Cols, c), r1, c1);
      } else {
        assert IsPiece(b, r1, c1) && IsPiece(b, r2, c2);
      }
    }
  }

  /** Boards with rooks on the same cells agree on which lines are used. */
  lemma SamePiecesSameUse(b: Matrix, next: Matrix, line: Line)
    requires forall i, j :: IsPiece(b, i, j) <==> IsPiece(next, i, j)
    ensures SomeOnLine(b, line) <==> SomeOnLine(next, line)
  {
    if SomeOnLine(b, line) {
      var i, j :| Hit(b, line, i, j);
      assert Hit(next, line, i, j);
    }
    if SomeOnLine(next, line) {
      var i, j :| Hit(next, line, i, j);
      assert Hit(b, line, i, j);
    }
  }

  /** One pass of `fillNextValidSpace`, without its recursive call. `placed`
      is the source's `flag`. */
  method FillNextValidSpace(b: Matrix) returns (next: Matrix, placed: bool)
    requires Square(b)
    ensures Square(next) && |next| == |b|
    ensures placed <==> exists r, c :: InBounds(|b|, r, c) && RookLegal(b, r, c)
    ensures placed ==> exists r, c :: FirstLegal(b, r, c) && PassedTo(b, next, r, c, true)
    ensures !placed ==> PassedTo(b, next, |b|, 0, false)
    ensures placed ==> EmptyCount(next) < EmptyCount(b)
    ensures !RooksAttack(b) ==> !RooksAttack(next)
  {
    var n := |b|;
    next := b;
    var a := 0;
    while a < n
      invariant 0 <= a <= n
      invariant PassedTo(b, next, a, 0, false)
      invariant forall i, j :: InBounds(n, i, j) && Before(i, j, a, 0) ==> !RookLegal(b, i, j)
    {
      var col := 0;
      while col < n
        invariant 0 <= col <= n
        invariant PassedTo(b, next, a, col, false)
        invariant forall i, j :: InBounds(n, i, j) && Before(i, j, a, col) ==> !RookLegal(b, i, j)
      {
        assert next[a][col] == b[a][col];
        assert forall i, j :: IsPiece(b, i, j) <==> IsPiece(next, i, j);
        SamePiecesSameUse(b, next, Line(Rows, a));
        SamePiecesSameUse(b, next, Line(Cols, col));
        if next[a][col] == Empty {
          if !HasRowConflictAtUsed(next, a) && !HasColConflictAtUsed(next, col) {
            var before := next;
            next := TogglePiece(next, a, col);
            placed := true;
            assert RookLegal(b, a, col);
            assert FirstLegal(b, a, col) && PassedTo(b, next, a, col, true);
            PassDecreasesEmpties(b, next, a, col);
            if !RooksAttack(b) {
              PlacingOnFreeLinesKeepsRooksApart(b, next, a, col);
            }
            return;
          } else {
            next := next[a := next[a][col := Marked]];
          }
        }
        col := col + 1;
      }
      a := a + 1;
    }
    placed := false;
    assert forall i, j :: IsPiece(b, i, j) <==> IsPiece(next, i, j);
  }

  /** A cell receives the sentinel only when it held 0 and its row or its column
      was already used; pieces are never removed, so usage only grows and a
      marked cell could never have become legal later in the pass. */
  lemma PassMarksOnlyBlockedCells(b: Matrix, next: Matrix, r: int, c: int, placed: bool)
    requires Square(b) && PassedTo(b, next, r, c, placed)
    requires forall i, j :: InBounds(|b|, i, j) && Before(i, j, r, c) ==> !RookLegal(b, i, j)
    ensures forall i, j :: InBounds(|b|, i, j) && next[i][j] == Marked && b[i][j] != Marked ==>
              HasRowConflictAtUsed(b, i) || HasColConflictAtUsed(b, j)
    ensures forall i, j :: IsPiece(b, i, j) ==> IsPiece(next, i, j)
    ensures forall line :: SomeOnLine(b, line) ==> SomeOnLine(next, line)
  {
    forall line | SomeOnLine(b, line)
      ensures SomeOnLine(next, line)
    {
      var i, j :| Hit(b, line, i, j);
      assert Hit(next, line, i, j);
    }
  }

  /** The recursion of `fillNextValidSpace`: passes repeat while one places a
      rook. No two rooks ever attack, and at the end no cell is legal. */
  method FillRemaining(b: Matrix, ghost k: nat) returns (result: Matrix)
    requires Square(b)
    ensures Square(result) && |result| == |b|
    ensures !RooksAttack(b) ==> !RooksAttack(result)
    ensures forall r, c :: InBounds(|b|, r, c) ==> !RookLegal(result, r, c)
    ensures 1 <= |b| && k < |b| && b == Stage(|b|, k) ==> result == Stage(|b|, |b| - 1)
    decreases EmptyCount(b)
  {
    var next, placed := FillNextValidSpace(b);
    if placed {
      if 1 <= |b| && k < |b| && b == Stage(|b|, k) {
        StageStep(|b|, k, next);
      }
      result := FillRemaining(next, k + 1);
    } else {
      result := next;
      NoEmptyNoLegal(next);
      if 1 <= |b| && k < |b| && b == Stage(|b|, k) {
        StageStop(|b|, k, next);
      }
    }
  }

  /** After a pass that placed nothing every 0 has become the sentinel, so no
      cell is legal. */
  lemma NoEmptyNoLegal(next: Matrix)
    requires Square(next)
    requires forall r, c :: InBounds(|next|, r, c) ==> next[r][c] != Empty
    ensures forall r, c :: InBounds(|next|, r, c) ==> !RookLegal(next, r, c)
  {
  }

  /** Cell (r, c) of Stage(n, k). */
  function StageCell(r: int, c: int, k: int): Cell {
    if r == c && r <= k then Piece
    else if Before(r, c, k, k) then Marked
    else Empty
  }

  /** The board after the seed and k further passes: rooks on (i, i) for i <= k,
      the sentinel on every other cell before (k, k), 0 after it. */
  function Stage(n: nat, k: int): (s: Matrix)
    ensures Square(s) && |s| == n
    ensures forall r, c :: InBounds(n, r, c) ==> s[r][c] == StageCell(r, c, k)
  {
    seq(n, r => seq(n, c => StageCell(r, c, k)))
  }

  /** On Stage(n, k), rows 0..k and columns 0..k are exactly the used ones. */
  lemma StageUsage(n: nat, k: int, i: int)
    requires 0 <= i < n
    ensures Square(Stage(n, k))
    ensures HasRowConflictAtUsed(Stage(n, k), i) <==> i <= k
    ensures HasColConflictAtUsed(Stage(n, k), i) <==> i <= k
  {
    var s := Stage(n, k);
    if i <= k {
      assert Hit(s, Line(Rows, i), i, i) && Hit(s, Line(Cols, i), i, i);
    }
  }

  /** Placement order: on Stage(n, k) the first legal cell is (k + 1, k + 1),
      and on Stage(n, n - 1) no cell is legal. */
  lemma StageFirstLegal(n: nat, k: nat)
    requires k < n
    ensures Square(Stage(n, k))
    ensures k + 1 < n ==> FirstLegal(Stage(n, k), k + 1, k + 1)
    ensures k + 1 == n ==> forall r, c :: InBounds(n, r, c) ==> !RookLegal(Stage(n, k), r, c)
  {
    var s := Stage(n, k);
    forall r | 0 <= r < n
      ensures HasRowConflictAtUsed(s, r) <==> r <= k
      ensures HasColConflictAtUsed(s, r) <==> r <= k
    {
      StageUsage(n, k, r);
    }
    if k + 1 < n {
      assert RookLegal(s, k + 1, k + 1);
      forall i, j | InBounds(n, i, j) && Before(i, j, k + 1, k + 1)
        ensures !RookLegal(s, i, j)
      {
        if i <= k {
          assert HasRowConflictAtUsed(s, i);
        } else {
          assert HasColConflictAtUsed(s, j);
        }
      }
    }
  }

  /** Two first legal cells are the same cell. */
  lemma FirstLegalUnique(b: Matrix, r1: int, c1: int, r2: int, c2: int)
    requires Square(b) && FirstLegal(b, r1, c1) && FirstLegal(b, r2, c2)
    ensures r1 == r2 && c1 == c2
  {
  }

  /** Pass k + 1 places its rook on (k + 1, k + 1) and produces Stage(n, k + 1). */
  lemma StageStep(n: nat, k: nat, next: Matrix)
    requires k < n
    requires Square(Stage(n, k))
    requires exists r, c :: FirstLegal(Stage(n, k), r, c) && PassedTo(Stage(n, k), next, r, c, true)
    ensures k + 1 < n && next == Stage(n, k + 1)
  {
    var s := Stage(n, k);
    var r, c :| FirstLegal(s, r, c) && PassedTo(s, next, r, c, true);
    StageUsage(n, k, r);
    assert k < r < n;
    StageFirstLegal(n, k);
    FirstLegalUnique(s, r, c, k + 1, k + 1);
    SameCells(next, Stage(n, k + 1));
  }

  /** A pass on Stage(n, k) that places nothing happens only at k = n - 1, and
      leaves the board as it was. */
  lemma StageStop(n: nat, k: nat, next: Matrix)
    requires k < n
    requires Square(Stage(n, k))
    requires PassedTo(Stage(n, k), next, n, 0, false)
    requires forall r, c :: InBounds(n, r, c) ==> !RookLegal(Stage(n, k), r, c)
    ensures k == n - 1 && next == Stage(n, n - 1)
  {
    StageFirstLegal(n, k);
    SameCells(next, Stage(n, n - 1));
  }

  /** The seed: toggling (0, 0) on an empty board gives Stage(n, 0). */
  lemma SeedIsStageZero(n: nat)
    requires n >= 1
    ensures TogglePiece(EmptyMatrix(n), 0, 0) == Stage(n, 0)
    ensures !RooksAttack(Stage(n, 0))
  {
    SameCells(TogglePiece(EmptyMatrix(n), 0, 0), Stage(n, 0));
  }

  /** The cleanup loop: every sentinel becomes 0, every other cell is kept. */
  method ResetMarks(b: Matrix) returns (clean: Matrix)
    ensures |clean| == |b|
    ensures forall i :: 0 <= i < |b| ==> |clean[i]| == |b[i]|
    ensures forall i, j :: 0 <= i < |b| && 0 <= j < |b[i]| ==>
              clean[i][j] != Marked && (clean[i][j] == Piece <==> b[i][j] == Piece)
    ensures forall i, j :: 0 <= i < |b| && 0 <= j < |b[i]| && b[i][j] != Marked ==> clean[i][j] == b[i][j]
  {
    clean := b;
    var c := 0;
    while c < |clean|
      invariant 0 <= c <= |clean| && |clean| == |b|
      invariant forall i :: 0 <= i < |b| ==> |clean[i]| == |b[i]|
      invariant forall i, j :: 0 <= i < |b| && 0 <= j < |b[i]| ==>
                  clean[i][j] == if i < c && b[i][j] == Marked then Empty else b[i][j]
    {
      var d := 0;
      while d < |clean[c]|
        invariant 0 <= c < |clean| && |clean| == |b|
        invariant 0 <= d <= |clean[c]| && |clean[c]| == |b[c]|
        invariant forall i :: 0 <= i < |b| ==> |clean[i]| == |b[i]|
        invariant forall i, j :: 0 <= i < |b| && 0 <= j < |b[i]| ==>
                    clean[i][j] == if (i < c || (i == c && j < d)) && b[i][j] == Marked then Empty else b[i][j]
      {
        if clean[c][d] == Marked {
          clean := clean[c := clean[c][d := Empty]];
        }
        d := d + 1;
      }
      c := c + 1;
    }
  }

  /** `findNRooksSolution(n)` for n >= 1 (on n = 0 the seed toggles a missing
      row). The result is the n×n identity: one rook per row and per column,
      no sentinel left, no two rooks attacking. */
  method FindNRooksSolution(n: int) returns (solution: Matrix)
    requires n >= 1
    ensures Square(solution) && |solution| == n
    ensures forall r, c :: InBounds(n, r, c) ==>
              solution[r][c] != Marked && (solution[r][c] == Piece <==> r == c)
    ensures !HasAnyRooksConflicts(solution)
    ensures forall i :: 0 <= i < n ==>
              PiecesOn(solution, Line(Rows, i)) == 1 && PiecesOn(solution, Line(Cols, i)) == 1
  {
    var board := TogglePiece(EmptyMatrix(n), 0, 0);
    SeedIsStageZero(n);
    board := FillRemaining(board, 0);
    solution := ResetMarks(board);
    assert forall i, j :: IsPiece(solution, i, j) <==> IsPiece(board, i, j);
    forall r1, c1, r2, c2 | IsPiece(solution, r1, c1) && IsPiece(solution, r2, c2) && (r1 != r2 || c1 != c2)
      ensures r1 != r2 && c1 != c2
    {
      assert IsPiece(board, r1, c1) && IsPiece(board, r2, c2);
    }
    forall i | 0 <= i < n
      ensures PiecesOn(solution, Line(Rows, i)) == 1 && PiecesOn(solution, Line(Cols, i)) == 1
    {
      OneRookOnLine(solution, Line(Rows, i), i, i);
      OneRookOnLine(solution, Line(Cols, i), i, i);
    }
  }

  /** A line holding a rook, on a board where no two rooks attack along rows
      or columns, holds exactly one. */
  lemma OneRookOnLine(b: Matrix, line: Line, r: int, c: int)
    requires Square(b) && !RooksAttack(b) && line.family in {Rows, Cols}
    requires Hit(b, line, r, c)
    ensures PiecesOn(b, line) == 1
  {
    CountAboveZero(b, line);
    CountAboveOne(b, line);
    forall r1, c1, r2, c2 | Hit(b, line, r1, c1) && Hit(b, line, r2, c2)
      ensures r1 == r2 && c1 == c2
    {
      assert r1 == r2 || c1 == c2;
    }
  }
}
