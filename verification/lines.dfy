/** Lines of the board and the reference count of the pieces on a line.

    A line is a family (rows, columns, major or minor diagonals) and a key.
    The cell (r, c) lies on the row r, the column c, the major diagonal c - r
    and the minor diagonal c + r (src/Board.js:32-38). `PiecesOn` counts the
    pieces of one line by visiting the whole board in row-major order; it is
    the definition every hand-written walk of src/Board.js is proved against. */
module Lines {
  import opened Cells

  datatype Family = Rows | Cols | Majors | Minors

  datatype Line = Line(family: Family, key: int)

  /** The key of the line of family `f` through (r, c). */
  function Key(f: Family, r: int, c: int): int {
    match f
    case Rows => r
    case Cols => c
    case Majors => c - r
    case Minors => c + r
  }

  predicate OnLine(line: Line, r: int, c: int) {
    Key(line.family, r, c) == line.key
  }

  /** First key the `hasAny...` aggregates visit. */
  function KeyLo(f: Family, n: int): int {
    match f
    case Majors => 1 - n
    case _ => 0
  }

  /** One past the last key the `hasAny...` aggregates visit. */
  function KeyHi(f: Family, n: int): int {
    match f
    case Minors => 2 * n - 1
    case _ => n
  }

  /** Keys for which the single-line query of src/Board.js returns a boolean
      instead of throwing or returning `undefined`:
      rows index `rows()[r]`, so r must name a row; any column is fine, a
      missing one reads `undefined`; a negative major key k starts at row -k,
      which must be at most n; a minor key must be below n or below 2n - 1. */
  predicate ValidKey(n: int, line: Line) {
    match line.family
    case Rows => 0 <= line.key < n
    case Cols => true
    case Majors => line.key >= 0 || n == 0 || -line.key <= n
    case Minors => line.key < n || line.key < 2 * n - 1
  }

  /** The key of every in-bounds cell lies in the range its aggregate visits,
      and is one its single-line query accepts. */
  lemma KeysInScanRange(f: Family, n: int, r: int, c: int)
    requires InBounds(n, r, c)
    ensures KeyLo(f, n) <= Key(f, r, c) < KeyHi(f, n)
    ensures ValidKey(n, Line(f, Key(f, r, c)))
  {
  }

  /** Every key an aggregate visits is one its single-line query accepts, so
      the `hasAny...` loops never reach a throwing or `undefined` case. */
  lemma ScanRangesAreValidKeys(f: Family, n: int)
    ensures forall k :: KeyLo(f, n) <= k < KeyHi(f, n) ==> ValidKey(n, Line(f, k))
  {
  }

  /** (r, c) holds a piece and lies on `line`. */
  predicate Hit(b: Matrix, line: Line, r: int, c: int) {
    IsPiece(b, r, c) && OnLine(line, r, c)
  }

  /** Pieces of `line` in row r, columns c and after. */
  function CellsFrom(b: Matrix, line: Line, r: int, c: nat): nat
    decreases |b| - c
  {
    if c >= |b| then 0
    else (if Hit(b, line, r, c) then 1 else 0) + CellsFrom(b, line, r, c + 1)
  }

  /** Pieces of `line` in rows r and after. */
  function RowsFrom(b: Matrix, line: Line, r: nat): nat
    decreases |b| - r
  {
    if r >= |b| then 0
    else CellsFrom(b, line, r, 0) + RowsFrom(b, line, r + 1)
  }

  /** The number of pieces on `line`. */
  function PiecesOn(b: Matrix, line: Line): nat {
    RowsFrom(b, line, 0)
  }

  /** Some piece lies on `line`. */
  ghost predicate SomeOnLine(b: Matrix, line: Line) {
    exists r, c :: Hit(b, line, r, c)
  }

  /** Two different pieces lie on `line`. */
  ghost predicate TwoOnLine(b: Matrix, line: Line) {
    exists r1, c1, r2, c2 ::
      Hit(b, line, r1, c1) && Hit(b, line, r2, c2) && (r1 != r2 || c1 != c2)
  }

  /** Two different pieces share a line of family `f`. */
  ghost predicate FamilyAttack(b: Matrix, f: Family) {
    exists r1, c1, r2, c2 ::
      IsPiece(b, r1, c1) && IsPiece(b, r2, c2) && (r1 != r2 || c1 != c2) &&
      Key(f, r1, c1) == Key(f, r2, c2)
  }

  lemma {:induction false} CellsFromPositive(b: Matrix, line: Line, r: int, c: nat)
    requires Square(b)
    ensures CellsFrom(b, line, r, c) > 0 <==> exists j :: c <= j && Hit(b, line, r, j)
    decreases |b| - c
  {
    if c < |b| {
      CellsFromPositive(b, line, r, c + 1);
      if exists j :: c <= j && Hit(b, line, r, j) {
        var j :| c <= j && Hit(b, line, r, j);
        if j > c {
          assert c + 1 <= j;
        }
      }
    }
  }

  lemma {:induction false} CellsFromAboveOne(b: Matrix, line: Line, r: int, c: nat)
    requires Square(b)
    ensures CellsFrom(b, line, r, c) > 1 <==>
              exists j1, j2 :: c <= j1 < j2 && Hit(b, line, r, j1) && Hit(b, line, r, j2)
    decreases |b| - c
  {
    if c < |b| {
      CellsFromAboveOne(b, line, r, c + 1);
      CellsFromPositive(b, line, r, c + 1);
      if CellsFrom(b, line, r, c) > 1 && Hit(b, line, r, c) && CellsFrom(b, line, r, c + 1) > 0 {
        var j :| c + 1 <= j && Hit(b, line, r, j);
        assert c <= c < j;
      }
      if exists j1, j2 :: c <= j1 < j2 && Hit(b, line, r, j1) && Hit(b, line, r, j2) {
        var j1, j2 :| c <= j1 < j2 && Hit(b, line, r, j1) && Hit(b, line, r, j2);
        if j1 == c {
          assert c + 1 <= j2;
        } else {
          assert c + 1 <= j1 < j2;
        }
      }
    }
  }

  lemma {:induction false} RowsFromPositive(b: Matrix, line: Line, i: nat)
    requires Square(b)
    ensures RowsFrom(b, line, i) > 0 <==> exists r, c :: i <= r && Hit(b, line, r, c)
    decreases |b| - i
  {
    if i < |b| {
      RowsFromPositive(b, line, i + 1);
      CellsFromPositive(b, line, i, 0);
      if exists r, c :: i <= r && Hit(b, line, r, c) {
        var r, c :| i <= r && Hit(b, line, r, c);
        if r == i {
          assert 0 <= c && Hit(b, line, i, c);
        } else {
          assert i + 1 <= r;
        }
      }
      if RowsFrom(b, line, i) > 0 && CellsFrom(b, line, i, 0) > 0 {
        var c :| 0 <= c && Hit(b, line, i, c);
        assert i <= i;
      }
    }
  }

  lemma {:induction false} RowsFromAboveOne(b: Matrix, line: Line, i: nat)
    requires Square(b)
    ensures RowsFrom(b, line, i) > 1 <==>
              exists r1, c1, r2, c2 :: i <= r1 && i <= r2 &&
                Hit(b, line, r1, c1) && Hit(b, line, r2, c2) && (r1 != r2 || c1 != c2)
    decreases |b| - i
  {
    if i < |b| {
      RowsFromAboveOne(b, line, i + 1);
      RowsFromPositive(b, line, i + 1);
      CellsFromPositive(b, line, i, 0);
      CellsFromAboveOne(b, line, i, 0);
      var here := CellsFrom(b, line, i, 0);
      var below := RowsFrom(b, line, i + 1);
      if here + below > 1 {
        if here > 1 {
          var j1, j2 :| 0 <= j1 < j2 && Hit(b, line, i, j1) && Hit(b, line, i, j2);
          assert i <= i && Hit(b, line, i, j1) && Hit(b, line, i, j2) && j1 != j2;
        } else if here == 1 {
          var j :| 0 <= j && Hit(b, line, i, j);
          var r, c :| i + 1 <= r && Hit(b, line, r, c);
          assert i <= i && i <= r && Hit(b, line, i, j) && Hit(b, line, r, c) && i != r;
        } else {
          var r1, c1, r2, c2 :| i + 1 <= r1 && i + 1 <= r2 &&
            Hit(b, line, r1, c1) && Hit(b, line, r2, c2) && (r1 != r2 || c1 != c2);
          assert i <= r1 && i <= r2;
        }
      }
      if exists r1, c1, r2, c2 :: i <= r1 && i <= r2 &&
           Hit(b, line, r1, c1) && Hit(b, line, r2, c2) && (r1 != r2 || c1 != c2) {
        var r1, c1, r2, c2 :| i <= r1 && i <= r2 &&
          Hit(b, line, r1, c1) && Hit(b, line, r2, c2) && (r1 != r2 || c1 != c2);
        if r1 == i && r2 == i {
          if c1 < c2 {
            assert 0 <= c1 < c2 && Hit(b, line, i, c1) && Hit(b, line, i, c2);
          } else {
            assert 0 <= c2 < c1 && Hit(b, line, i, c2) && Hit(b, line, i, c1);
          }
        } else if r1 == i {
          assert 0 <= c1 && Hit(b, line, i, c1);
          assert i + 1 <= r2 && Hit(b, line, r2, c2);
        } else if r2 == i {
          assert 0 <= c2 && Hit(b, line, i, c2);
          assert i + 1 <= r1 && Hit(b, line, r1, c1);
        } else {
          assert i + 1 <= r1 && i + 1 <= r2;
        }
      }
    }
  }

  /** A line is used (count > 0) exactly when some piece lies on it. */
  lemma CountAboveZero(b: Matrix, line: Line)
    requires Square(b)
    ensures PiecesOn(b, line) > 0 <==> SomeOnLine(b, line)
  {
    RowsFromPositive(b, line, 0);
  }

  /** A line conflicts (count > 1) exactly when two different pieces lie on it. */
  lemma CountAboveOne(b: Matrix, line: Line)
    requires Square(b)
    ensures PiecesOn(b, line) > 1 <==> TwoOnLine(b, line)
  {
    RowsFromAboveOne(b, line, 0);
  }

  /** Rows i and after hold no piece of `line`. */
  lemma {:induction false} RowsFromNoHits(b: Matrix, line: Line, i: nat)
    requires Square(b)
    requires forall r, c :: i <= r ==> !Hit(b, line, r, c)
    ensures RowsFrom(b, line, i) == 0
  {
    RowsFromPositive(b, line, i);
  }

  /** Rows i up to j hold no piece of `line`, so counting from i or from j agrees. */
  lemma {:induction false} RowsFromSkip(b: Matrix, line: Line, i: nat, j: nat)
    requires Square(b) && i <= j
    requires forall r, c :: i <= r < j ==> !Hit(b, line, r, c)
    ensures RowsFrom(b, line, i) == RowsFrom(b, line, j)
    decreases j - i
  {
    if i < j && i < |b| {
      CellsFromPositive(b, line, i, 0);
      RowsFromSkip(b, line, i + 1, j);
    }
  }

  /** In row r only column c0 lies on `line`: the row contributes the piece at
      (r, c0) or nothing. */
  lemma {:induction false} CellsFromSingle(b: Matrix, line: Line, r: int, c: nat, c0: int)
    requires Square(b)
    requires forall j :: OnLine(line, r, j) <==> j == c0
    ensures CellsFrom(b, line, r, c) == if c <= c0 && IsPiece(b, r, c0) then 1 else 0
    decreases |b| - c
  {
    if c < |b| {
      CellsFromSingle(b, line, r, c + 1, c0);
    }
  }

  /** Boards that hold pieces on the same cells give every line the same count:
      the sentinel and 0 are alike to every query. */
  lemma {:induction false} SamePiecesSameCount(b1: Matrix, b2: Matrix, line: Line, i: nat)
    requires |b1| == |b2|
    requires forall r, c :: IsPiece(b1, r, c) <==> IsPiece(b2, r, c)
    ensures RowsFrom(b1, line, i) == RowsFrom(b2, line, i)
    decreases |b1| - i
  {
    if i < |b1| {
      SamePiecesSameCount(b1, b2, line, i + 1);
      SamePiecesSameRow(b1, b2, line, i, 0);
    }
  }

  lemma {:induction false} SamePiecesSameRow(b1: Matrix, b2: Matrix, line: Line, r: int, c: nat)
    requires |b1| == |b2|
    requires forall r, c :: IsPiece(b1, r, c) <==> IsPiece(b2, r, c)
    ensures CellsFrom(b1, line, r, c) == CellsFrom(b2, line, r, c)
    decreases |b1| - c
  {
    if c < |b1| {
      SamePiecesSameRow(b1, b2, line, r, c + 1);
    }
  }

  /** Two pieces share a line of family `f` exactly when some key of the range
      the aggregate visits names a line holding two pieces. */
  lemma FamilyAttackByLines(b: Matrix, f: Family)
    requires Square(b)
    ensures FamilyAttack(b, f) <==>
              exists k :: KeyLo(f, |b|) <= k < KeyHi(f, |b|) && TwoOnLine(b, Line(f, k))
  {
    if FamilyAttack(b, f) {
      var r1, c1, r2, c2 :| IsPiece(b, r1, c1) && IsPiece(b, r2, c2) && (r1 != r2 || c1 != c2) &&
        Key(f, r1, c1) == Key(f, r2, c2);
      var k := Key(f, r1, c1);
      KeysInScanRange(f, |b|, r1, c1);
      assert Hit(b, Line(f, k), r1, c1) && Hit(b, Line(f, k), r2, c2);
    }
    if exists k :: KeyLo(f, |b|) <= k < KeyHi(f, |b|) && TwoOnLine(b, Line(f, k)) {
      var k :| KeyLo(f, |b|) <= k < KeyHi(f, |b|) && TwoOnLine(b, Line(f, k));
      var r1, c1, r2, c2 :| Hit(b, Line(f, k), r1, c1) && Hit(b, Line(f, k), r2, c2) && (r1 != r2 || c1 != c2);
      assert Key(f, r1, c1) == Key(f, r2, c2);
    }
  }
}
