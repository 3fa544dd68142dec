/** The conflict queries of src/Board.js.

    Each single-line query runs its family's walk and compares the count with
    a threshold: more than one piece is a conflict, at least one piece means
    the line is used. Each contract states what the answer means on the board:
    two different pieces on the line, or some piece on it. */
module Board {
  import opened Cells
  import opened Lines
  import opened Walks

  // ---- single lines, conflict mode (count > 1) ----

  function HasRowConflictAt(b: Matrix, r: int): (conflict: bool)
    requires Square(b) && 0 <= r < |b|
    ensures conflict <==> TwoOnLine(b, Line(Rows, r))
  {
    CountAboveOne(b, Line(Rows, r));
    RowWalk(b, r) > 1
  }

  function HasColConflictAt(b: Matrix, c: int): (conflict: bool)
    requires Square(b)
    ensures conflict <==> TwoOnLine(b, Line(Cols, c))
  {
    CountAboveOne(b, Line(Cols, c));
    ColWalk(b, c) > 1
  }

  function HasMajorDiagonalConflictAt(b: Matrix, k: int): (conflict: bool)
    requires Square(b) && ValidKey(|b|, Line(Majors, k))
    ensures conflict <==> TwoOnLine(b, Line(Majors, k))
  {
    CountAboveOne(b, Line(Majors, k));
    MajorWalk(b, k) > 1
  }

  function HasMinorDiagonalConflictAt(b: Matrix, k: int): (conflict: bool)
    requires Square(b) && ValidKey(|b|, Line(Minors, k))
    ensures conflict <==> TwoOnLine(b, Line(Minors, k))
  {
    CountAboveOne(b, Line(Minors, k));
    MinorWalk(b, k) > 1
  }

  // ---- single lines, occupancy mode (count > 0) ----

  function HasRowConflictAtUsed(b: Matrix, r: int): (used: bool)
    requires Square(b) && 0 <= r < |b|
    ensures used <==> SomeOnLine(b, Line(Rows, r))
  {
    CountAboveZero(b, Line(Rows, r));
    RowWalk(b, r) > 0
  }

  function HasColConflictAtUsed(b: Matrix, c: int): (used: bool)
    requires Square(b)
    ensures used <==> SomeOnLine(b, Line(Cols, c))
  {
    CountAboveZero(b, Line(Cols, c));
    ColWalk(b, c) > 0
  }

  function HasMajorDiagonalConflictAtUsed(b: Matrix, k: int): (used: bool)
    requires Square(b) && ValidKey(|b|, Line(Majors, k))
    ensures used <==> SomeOnLine(b, Line(Majors, k))
  {
    CountAboveZero(b, Line(Majors, k));
    MajorWalk(b, k) > 0
  }

  function HasMinorDiagonalConflictAtUsed(b: Matrix, k: int): (used: bool)
    requires Square(b) && ValidKey(|b|, Line(Minors, k))
    ensures used <==> SomeOnLine(b, Line(Minors, k))
  {
    CountAboveZero(b, Line(Minors, k));
    MinorWalk(b, k) > 0
  }

  /** The conflict query of a line's own family. */
  function ConflictAt(b: Matrix, line: Line): bool
    requires Square(b) && ValidKey(|b|, line)
  {
    match line.family
    case Rows => HasRowConflictAt(b, line.key)
    case Cols => HasColConflictAt(b, line.key)
    case Majors => HasMajorDiagonalConflictAt(b, line.key)
    case Minors => HasMinorDiagonalConflictAt(b, line.key)
  }

  /** The occupancy query of a line's own family. */
  function UsedAt(b: Matrix, line: Line): bool
    requires Square(b) && ValidKey(|b|, line)
  {
    match line.family
    case Rows => HasRowConflictAtUsed(b, line.key)
    case Cols => HasColConflictAtUsed(b, line.key)
    case Majors => HasMajorDiagonalConflictAtUsed(b, line.key)
    case Minors => HasMinorDiagonalConflictAtUsed(b, line.key)
  }

  /** Each conflict query implies its occupancy twin on the same key, and the
      converse fails: a line holding one piece is used but not in conflict. */
  lemma ConflictImpliesUsed(b: Matrix, line: Line)
    requires Square(b) && ValidKey(|b|, line)
    ensures ConflictAt(b, line) ==> UsedAt(b, line)
    ensures PiecesOn(b, line) == 1 ==> UsedAt(b, line) && !ConflictAt(b, line)
  {
  }

  /** A sentinel is invisible to every query: boards holding pieces on the same
      cells answer every line alike. */
  lemma SentinelsAreNotCounted(b1: Matrix, b2: Matrix, line: Line)
    requires Square(b1) && Square(b2) && |b1| == |b2| && ValidKey(|b1|, line)
    requires forall r, c :: IsPiece(b1, r, c) <==> IsPiece(b2, r, c)
    ensures Walk(b1, line) == Walk(b2, line)
    ensures ConflictAt(b1, line) == ConflictAt(b2, line)
    ensures UsedAt(b1, line) == UsedAt(b2, line)
  {
    SamePiecesSameCount(b1, b2, line, 0);
  }

  // ---- aggregates ----

  /** The loop of the `hasAny...` aggregates: some key from i up to the end
      of the family's range names a line in conflict. */
  function AnyConflictFrom(b: Matrix, f: Family, i: int): (any: bool)
    requires Square(b) && KeyLo(f, |b|) <= i
    ensures any <==> exists k :: i <= k < KeyHi(f, |b|) && TwoOnLine(b, Line(f, k))
    decreases KeyHi(f, |b|) - i
  {
    if i >= KeyHi(f, |b|) then false
    else ConflictAt(b, Line(f, i)) || AnyConflictFrom(b, f, i + 1)
  }

  /** The whole range of the family's keys: rows and columns 0..n-1, major
      diagonals -(n-1)..n-1, minor diagonals 0..2n-2. */
  function AnyConflict(b: Matrix, f: Family): (any: bool)
    requires Square(b)
    ensures any <==> FamilyAttack(b, f)
  {
    FamilyAttackByLines(b, f);
    AnyConflictFrom(b, f, KeyLo(f, |b|))
  }

  function HasAnyRowConflicts(b: Matrix): (any: bool)
    requires Square(b)
    ensures any <==> FamilyAttack(b, Rows)
  {
    AnyConflict(b, Rows)
  }

  function HasAnyColConflicts(b: Matrix): (any: bool)
    requires Square(b)
    ensures any <==> FamilyAttack(b, Cols)
  {
    AnyConflict(b, Cols)
  }

  function HasAnyMajorDiagonalConflicts(b: Matrix): (any: bool)
    requires Square(b)
    ensures any <==> FamilyAttack(b, Majors)
  {
    AnyConflict(b, Majors)
  }

  function HasAnyMinorDiagonalConflicts(b: Matrix): (any: bool)
    requires Square(b)
    ensures any <==> FamilyAttack(b, Minors)
  {
    AnyConflict(b, Minors)
  }

  // The `...Used` aggregates call the conflict queries, not their occupancy
  // twins, so each is the conflict aggregate of its family.

  function HasAnyRowConflictsUsed(b: Matrix): (any: bool)
    requires Square(b)
    ensures any <==> FamilyAttack(b, Rows)
    ensures any == HasAnyRowConflicts(b)
  {
    AnyConflict(b, Rows)
  }

  function HasAnyColConflictsUsed(b: Matrix): (any: bool)
    requires Square(b)
    ensures any <==> FamilyAttack(b, Cols)
    ensures any == HasAnyColConflicts(b)
  {
    AnyConflict(b, Cols)
  }

  function HasAnyMajorDiagonalConflictsUsed(b: Matrix): (any: bool)
    requires Square(b)
    ensures any <==> FamilyAttack(b, Majors)
    ensures any == HasAnyMajorDiagonalConflicts(b)
  {
    AnyConflict(b, Majors)
  }

  function HasAnyMinorDiagonalConflictsUsed(b: Matrix): (any: bool)
    requires Square(b)
    ensures any <==> FamilyAttack(b, Minors)
    ensures any == HasAnyMinorDiagonalConflicts(b)
  {
    AnyConflict(b, Minors)
  }

  /** The `...Used` aggregates are not occupancy tests: on the 1×1 board with
      one piece, row 0, column 0 and both diagonals through (0, 0) are used,
      yet every `...Used` aggregate answers false. */
  lemma UsedAggregatesIgnoreOccupancy()
    ensures HasRowConflictAtUsed([[Piece]], 0) && !HasAnyRowConflictsUsed([[Piece]])
    ensures HasColConflictAtUsed([[Piece]], 0) && !HasAnyColConflictsUsed([[Piece]])
    ensures HasMajorDiagonalConflictAtUsed([[Piece]], 0) && !HasAnyMajorDiagonalConflictsUsed([[Piece]])
    ensures HasMinorDiagonalConflictAtUsed([[Piece]], 0) && !HasAnyMinorDiagonalConflictsUsed([[Piece]])
  {
  }

  // ---- rooks and queens ----

  /** Two different pieces share a row or a column. */
  ghost predicate RooksAttack(b: Matrix) {
    exists r1, c1, r2, c2 ::
      IsPiece(b, r1, c1) && IsPiece(b, r2, c2) && (r1 != r2 || c1 != c2) &&
      (r1 == r2 || c1 == c2)
  }

  /** Two different pieces share a row, a column or a diagonal. */
  ghost predicate QueensAttack(b: Matrix) {
    exists r1, c1, r2, c2 ::
      IsPiece(b, r1, c1) && IsPiece(b, r2, c2) && (r1 != r2 || c1 != c2) &&
      (r1 == r2 || c1 == c2 || c1 - r1 == c2 - r2 || c1 + r1 == c2 + r2)
  }

  function HasAnyRooksConflicts(b: Matrix): (any: bool)
    requires Square(b)
    ensures any <==> RooksAttack(b)
  {
    HasAnyRowConflicts(b) || HasAnyColConflicts(b)
  }

  function HasAnyQueensConflicts(b: Matrix): (any: bool)
    requires Square(b)
    ensures any <==> QueensAttack(b)
  {
    HasAnyRooksConflicts(b) || HasAnyMajorDiagonalConflicts(b) || HasAnyMinorDiagonalConflicts(b)
  }

  /** Some line through (r, c) holds two pieces exactly when its row, its
      column, its major or its minor diagonal does. */
  lemma LinesThrough(b: Matrix, r: int, c: int)
    ensures (exists f :: TwoOnLine(b, Line(f, Key(f, r, c)))) <==>
              TwoOnLine(b, Line(Rows, r)) || TwoOnLine(b, Line(Cols, c)) ||
              TwoOnLine(b, Line(Majors, c - r)) || TwoOnLine(b, Line(Minors, c + r))
  {
    if exists f :: TwoOnLine(b, Line(f, Key(f, r, c))) {
      var f :| TwoOnLine(b, Line(f, Key(f, r, c)));
      match f
      case Rows =>
      case Cols =>
      case Majors =>
      case Minors =>
    }
    if TwoOnLine(b, Line(Rows, r)) {
      assert TwoOnLine(b, Line(Rows, Key(Rows, r, c)));
    } else if TwoOnLine(b, Line(Cols, c)) {
      assert TwoOnLine(b, Line(Cols, Key(Cols, r, c)));
    } else if TwoOnLine(b, Line(Majors, c - r)) {
      assert TwoOnLine(b, Line(Majors, Key(Majors, r, c)));
    } else if TwoOnLine(b, Line(Minors, c + r)) {
      assert TwoOnLine(b, Line(Minors, Key(Minors, r, c)));
    }
  }

  /** The four lines through (r, c): its row, its column and its two diagonals. */
  function HasAnyQueenConflictsOn(b: Matrix, r: int, c: int): (any: bool)
    requires Square(b) && 0 <= r < |b|
    requires ValidKey(|b|, Line(Majors, Key(Majors, r, c)))
    requires ValidKey(|b|, Line(Minors, Key(Minors, r, c)))
    ensures any <==> exists f :: TwoOnLine(b, Line(f, Key(f, r, c)))
  {
    LinesThrough(b, r, c);
    HasRowConflictAt(b, r) ||
    HasColConflictAt(b, c) ||
    HasMajorDiagonalConflictAt(b, Key(Majors, r, c)) ||
    HasMinorDiagonalConflictAt(b, Key(Minors, r, c))
  }

  /** The whole-board queen test holds exactly when the four lines through some
      in-bounds cell hold a conflict; in particular a conflict through an
      in-bounds cell is a conflict of the board. */
  lemma QueenConflictsOnMatchesAny(b: Matrix)
    requires Square(b)
    ensures HasAnyQueensConflicts(b) <==>
              exists r, c :: InBounds(|b|, r, c) && HasAnyQueenConflictsOn(b, r, c)
  {
    if HasAnyQueensConflicts(b) {
      var r1, c1, r2, c2 :| IsPiece(b, r1, c1) && IsPiece(b, r2, c2) && (r1 != r2 || c1 != c2) &&
        (r1 == r2 || c1 == c2 || c1 - r1 == c2 - r2 || c1 + r1 == c2 + r2);
      var f := if r1 == r2 then Rows else if c1 == c2 then Cols
               else if c1 - r1 == c2 - r2 then Majors else Minors;
      assert Key(f, r1, c1) == Key(f, r2, c2);
      var line := Line(f, Key(f, r1, c1));
      assert Hit(b, line, r1, c1) && Hit(b, line, r2, c2);
      assert InBounds(|b|, r1, c1) && HasAnyQueenConflictsOn(b, r1, c1);
    }
    if exists r, c :: InBounds(|b|, r, c) && HasAnyQueenConflictsOn(b, r, c) {
      var r, c :| InBounds(|b|, r, c) && HasAnyQueenConflictsOn(b, r, c);
      var f :| TwoOnLine(b, Line(f, Key(f, r, c)));
      var line := Line(f, Key(f, r, c));
      var r1, c1, r2, c2 :| Hit(b, line, r1, c1) && Hit(b, line, r2, c2) && (r1 != r2 || c1 != c2);
      assert Key(f, r1, c1) == Key(f, r2, c2);
      assert QueensAttack(b);
    }
  }

  /** A conflict on the lines through an in-bounds cell is a conflict of the board. */
  lemma QueenConflictsOnImpliesAny(b: Matrix, r: int, c: int)
    requires Square(b) && InBounds(|b|, r, c)
    ensures HasAnyQueenConflictsOn(b, r, c) ==> HasAnyQueensConflicts(b)
  {
  }

  /** Every aggregate is false on a board without pieces, in particular on the
      board of size 0 and on a fresh `makeEmptyMatrix(n)`. */
  lemma EmptyBoardsHaveNoConflicts(n: nat)
    ensures !HasAnyQueensConflicts(EmptyMatrix(n)) && !HasAnyRooksConflicts(EmptyMatrix(n))
    ensures forall b: Matrix :: |b| == 0 ==>
              !HasAnyRowConflicts(b) && !HasAnyColConflicts(b) &&
              !HasAnyMajorDiagonalConflicts(b) && !HasAnyMinorDiagonalConflicts(b)
  {
  }
}
