# n-rooks / n-queens board: a verified model

This project models the core of a small n-rooks / n-queens exercise. That core has two parts:

- the conflict engine of its `Board`, in `src/Board.js`;
- the one working solver, the greedy rook placer `findNRooksSolution`, in `src/solvers.js`.

A board is an n×n matrix. Each cell holds a `Cell`:

- `Empty` is the source's `0`;
- `Piece` is the source's `1`;
- `Marked` is the `null` sentinel that the rook placer writes into cells it rejects.

Every query tests `=== 1`, so only `Piece` is counted.

Modules, one concept each:

- `Cells` (`cells.dfy`): the cell type, square matrices, `makeEmptyMatrix`, `togglePiece` and `_isInBounds`.
- `Lines` (`lines.dfy`): the four line families and their keys. The cell (r, c) has row key r, column key c, major-diagonal key c − r and minor-diagonal key c + r. This module also holds the reference count `PiecesOn`, which visits the whole board in row-major order and counts the pieces whose key matches. The predicates `SomeOnLine`, `TwoOnLine` and `FamilyAttack` say what "used" and "conflict" mean on the board.
- `Walks` (`walks.dfy`): the source's hand-written line walks. Each keeps the source's loop variables, its two branches and its early returns. Each walk is proved to count exactly the pieces on its line, so it visits precisely the in-bounds cells with the given key.
- `Board` (`board.dfy`): the per-line queries (threshold > 1 for conflicts, > 0 for the `...Used` twins), the `hasAny...` aggregates and the rook and queen combinations. Each contract states the meaning on the board. For example, `HasAnyRooksConflicts` holds exactly when two different pieces share a row or a column.
- `Solvers` (`solvers.dfy`):
  - one pass of `fillNextValidSpace`, written as two nested loops;
  - its recursion, which terminates because the number of 0-cells strictly falls;
  - the `null` → 0 cleanup loop;
  - `findNRooksSolution`, whose result is proved to be the n×n identity.

Every query is a pure function, so no query changes the board.

Facts about the code that the model keeps:

- Not every key gets a boolean answer from the single-line queries. A row index must name a row, because `rows()[r].length` throws otherwise (src/Board.js:82-84, 229-231). Any column index is answered, since a missing column reads `undefined`. Major key −n and every negative minor key return false. Major keys below −n on a non-empty board index a missing row and throw. Minor keys of at least max(n, 2n − 1) fall through both branches and return `undefined`. `ValidKey` is exactly the set of keys that do get a boolean, and it is the precondition of the single-line queries.
- The `...Used` aggregates call the conflict queries, not their occupancy twins (src/Board.js:243, 271, 316, 362). So each equals its conflict aggregate.
- Only `findNRooksSolution` is implemented. The other three entry points are stubs (src/solvers.js:66-87).

## Model

| member | source | states |
|---|---|---|
| Cells.EmptyMatrix | src/Board.js:375-381 | an n×n square board on which every cell is 0 and no cell holds a piece |
| Cells.TogglePiece | src/Board.js:27-30 | the board stays n×n; the toggled cell holds a piece exactly when it did not before and is never left `null`; every other cell is unchanged |
| Cells.ToggleTwiceRestores | src/Board.js:27-30 | on a cell holding 0 or 1, toggling twice gives back the original board |
| Cells.ToggleTwiceClearsSentinel | src/Board.js:28 | on a `null` cell, `+ !null` is 1, so one toggle places a piece and two toggles leave 0: the round trip fails on the sentinel |
| Cells.InBounds | src/Board.js:57-62 | `_isInBounds`: both indices lie in [0, n) |
| Cells.InBoundsMeansCellExists | src/Board.js:57-62 | on a square board, `_isInBounds(r, c)` holds exactly when (r, c) names a cell of the matrix, and every piece is in bounds |
| Lines.Key | src/Board.js:32-38 | the key of the line through (r, c): r for rows, c for columns, c − r for major diagonals and c + r for minor diagonals, as the two index helpers return |
| Lines.KeysInScanRange | src/Board.js:32-38 | every in-bounds cell's key lies in the range its aggregate visits (rows and columns 0..n−1, majors −(n−1)..n−1, minors 0..2n−2) and is a key its single-line query answers |
| Lines.ScanRangesAreValidKeys | src/Board.js:166-174 | every key an aggregate visits is one its single-line query answers with a boolean, so the aggregate loops never throw or see `undefined` |
| Lines.CountAboveZero | src/Board.js:236 | a line's piece count is above 0 exactly when some piece lies on it |
| Lines.CountAboveOne | src/Board.js:89 | a line's piece count is above 1 exactly when two different pieces lie on it |
| Lines.SamePiecesSameCount | src/Board.js:85 | boards holding pieces on the same cells give every line the same count: 0 and `null` are alike |
| Lines.FamilyAttackByLines | src/Board.js:166-174 | two pieces share a line of a family exactly when some key of the family's scanned range names a line holding two pieces |
| Walks.RowScan | src/Board.js:84-88 | the loop over `rows()[r]` counts the pieces of row r from column i on |
| Walks.RowWalk | src/Board.js:81-90 | the row walk's count equals the reference count of row r |
| Walks.ColScan | src/Board.js:112-116 | the loop over rows counts the pieces at column c; a column off the board reads `undefined` and counts nothing |
| Walks.ColWalk | src/Board.js:109-118 | the column walk's count equals the reference count of column c, for any integer c |
| Walks.MajorFromTop | src/Board.js:140-150 | the key ≥ 0 branch, which advances row and column and returns once the column reaches n, counts exactly the diagonal's cells from row i on |
| Walks.MajorFromLeft | src/Board.js:151-162 | the key < 0 branch, which starts at row −key and stops when the row `=== n`, counts exactly the diagonal's cells from that row on |
| Walks.MajorWalk | src/Board.js:137-163 | for every key the code accepts, the two branches together count exactly the in-bounds cells with c − r = key; keys ≥ n and key −n give 0 |
| Walks.MinorFromTop | src/Board.js:185-195 | the key < n branch, which moves the column left and returns once it is negative, counts exactly the diagonal's cells from row i on |
| Walks.MinorFromRight | src/Board.js:196-207 | the n ≤ key < 2n−1 branch counts exactly the diagonal's cells from its starting row on, although it never reads column 0 |
| Walks.MinorWalk | src/Board.js:182-208 | for every key the code accepts, the count is exactly the in-bounds cells with c + r = key; negative keys give 0 |
| Board.HasRowConflictAt | src/Board.js:81-90 | true exactly when two different pieces lie in row r |
| Board.HasColConflictAt | src/Board.js:109-118 | true exactly when two different pieces lie in column c |
| Board.HasMajorDiagonalConflictAt | src/Board.js:137-163 | true exactly when two different pieces lie on the major diagonal c − r = k |
| Board.HasMinorDiagonalConflictAt | src/Board.js:182-208 | true exactly when two different pieces lie on the minor diagonal c + r = k |
| Board.HasRowConflictAtUsed | src/Board.js:228-237 | true exactly when some piece lies in row r |
| Board.HasColConflictAtUsed | src/Board.js:256-265 | true exactly when some piece lies in column c |
| Board.HasMajorDiagonalConflictAtUsed | src/Board.js:284-310 | true exactly when some piece lies on the major diagonal c − r = k |
| Board.HasMinorDiagonalConflictAtUsed | src/Board.js:329-355 | true exactly when some piece lies on the minor diagonal c + r = k |
| Board.ConflictImpliesUsed | src/Board.js:228-237 | each conflict query implies its `...Used` twin on the same key; a line holding exactly one piece is used but not in conflict |
| Board.SentinelsAreNotCounted | src/Board.js:144 | boards with pieces on the same cells give the same walk count, conflict answer and occupancy answer on every line |
| Board.AnyConflictFrom | src/Board.js:168-173 | the aggregate loop is true exactly when some key from i to the end of the family's range names a line holding two pieces |
| Board.HasAnyRowConflicts | src/Board.js:93-101 | true exactly when two different pieces share a row |
| Board.HasAnyColConflicts | src/Board.js:121-129 | true exactly when two different pieces share a column |
| Board.HasAnyMajorDiagonalConflicts | src/Board.js:166-174 | true exactly when two different pieces share a major diagonal |
| Board.HasAnyMinorDiagonalConflicts | src/Board.js:211-220 | true exactly when two different pieces share a minor diagonal |
| Board.HasAnyRowConflictsUsed | src/Board.js:240-248 | calls the conflict query, so it is true exactly when two pieces share a row, not when some row is used; it always equals `hasAnyRowConflicts` |
| Board.HasAnyColConflictsUsed | src/Board.js:268-276 | true exactly when two pieces share a column; it always equals `hasAnyColConflicts` |
| Board.HasAnyMajorDiagonalConflictsUsed | src/Board.js:313-321 | true exactly when two pieces share a major diagonal; it always equals `hasAnyMajorDiagonalConflicts` |
| Board.HasAnyMinorDiagonalConflictsUsed | src/Board.js:358-367 | true exactly when two pieces share a minor diagonal; it always equals `hasAnyMinorDiagonalConflicts` |
| Board.UsedAggregatesIgnoreOccupancy | src/Board.js:240-248 | on the 1×1 board with one piece, each line through (0, 0) is used, yet every `...Used` aggregate answers false |
| Board.HasAnyRooksConflicts | src/Board.js:40-42 | true exactly when two different pieces share a row or a column |
| Board.HasAnyQueensConflicts | src/Board.js:53-55 | true exactly when two different pieces share a row, a column or a diagonal |
| Board.HasAnyQueenConflictsOn | src/Board.js:44-51 | true exactly when one of the four lines through (r, c) holds two pieces |
| Board.QueenConflictsOnMatchesAny | src/Board.js:44-55 | the whole-board queen test holds exactly when the four lines through some in-bounds cell hold a conflict |
| Board.QueenConflictsOnImpliesAny | src/Board.js:44-51 | for an in-bounds (r, c), a conflict through (r, c) is a conflict of the board |
| Board.EmptyBoardsHaveNoConflicts | src/Board.js:375-381 | a fresh empty board has no rook or queen conflict, and on the board of size 0 every aggregate is false |
| Solvers.FillNextValidSpace | src/solvers.js:25-40 | a pass places a rook exactly when some cell is legal. It places it on the first legal cell in row-major order and marks every 0 before it. Otherwise it marks every 0. A placing pass lowers the number of 0-cells, and a pass never makes two rooks attack |
| Solvers.PassMarksOnlyBlockedCells | src/solvers.js:29-37 | a cell gets the sentinel only if it held 0 and its row or column was already used; pieces are never removed, so every used line stays used |
| Solvers.PassDecreasesEmpties | src/solvers.js:29-34 | a pass that places a rook keeps every piece and strictly lowers the number of 0-cells |
| Solvers.PlacingOnFreeLinesKeepsRooksApart | src/solvers.js:30-31 | adding a rook whose row and column hold no rook to a board with no rook conflict leaves no rook conflict |
| Solvers.FillRemaining | src/solvers.js:24-46 | the recursion terminates on the number of 0-cells; it never creates a rook conflict, and at the end no cell is legal. From Stage(n, k) it ends at Stage(n, n−1) |
| Solvers.StageUsage | src/solvers.js:30 | after pass k, rows 0..k and columns 0..k are exactly the used ones |
| Solvers.StageFirstLegal | src/solvers.js:27-34 | after pass k the first legal cell is (k+1, k+1), and after pass n−1 no cell is legal |
| Solvers.FirstLegalUnique | src/solvers.js:27-34 | the first legal cell of the row-major scan is unique |
| Solvers.StageStep | src/solvers.js:27-34 | a placing pass on Stage(n, k) puts its rook on (k+1, k+1) and yields Stage(n, k+1) |
| Solvers.StageStop | src/solvers.js:42-45 | a pass on Stage(n, k) that places nothing happens only when k = n−1, and it leaves the board unchanged |
| Solvers.SeedIsStageZero | src/solvers.js:19-21 | toggling (0, 0) on an empty n×n board gives Stage(n, 0), which has no rook conflict |
| Solvers.ResetMarks | src/solvers.js:51-57 | afterwards no cell holds `null`, every cell holds a piece exactly when it did before, and non-sentinel cells are kept |
| Solvers.FindNRooksSolution | src/solvers.js:18-61 | for n ≥ 1 the result is the n×n identity: no `null` left, a piece on (r, c) exactly when r = c, no rook conflict, and exactly one piece in every row and every column |

## Left out

- Backbone plumbing is not modelled: `Backbone.Model.extend`, attribute storage keyed by row index, `rows()`, `get`/`set`, and `initialize`'s argument checks and console help text (src/Board.js:7-25). The board is a plain square matrix.
- The `'change'` event that `togglePiece` triggers is not modelled; it only notifies the display.
- The `console.log` of the solution is not modelled (src/solvers.js:59).
- In the source, `solution` aliases the board's rows. The model has a single matrix that is updated in place.
- `countNRooksSolutions`, `findNQueensSolution` and `countNQueensSolutions` are not modelled. They only assign `undefined` and return nothing (src/solvers.js:66-87), so there is no backtracking, rook count or queen count to model.
- Boards built from an explicit matrix may be non-square. Every member requires a square board, which is what `makeEmptyMatrix` builds.
- Cell values other than 0, 1 and `null` are not modelled.
- Cells.TogglePiece: requires (r, c) to be on the board. In JavaScript a missing row throws, and a column past the end of a row would grow that row.
- Board.HasAnyQueenConflictsOn: requires all four keys to be ones the single-line queries accept, although JavaScript's `||` would skip a later query once an earlier line conflicts.
- Board.HasRowConflictAt, Board.HasRowConflictAtUsed, Walks.RowWalk, Walks.RowScan: require 0 ≤ r < n, because for any other r the source reads `rows()[r].length` on `undefined` and throws (src/Board.js:82-84, 229-231).
- Walks.MajorWalk, Board.HasMajorDiagonalConflictAt, Board.HasMajorDiagonalConflictAtUsed: keys below −n on a non-empty board are excluded by the precondition, because the source indexes a missing row and throws.
- Walks.MinorWalk, Board.HasMinorDiagonalConflictAt, Board.HasMinorDiagonalConflictAtUsed: keys of at least max(n, 2n − 1) are excluded by the precondition, because the source falls through both branches and returns `undefined`.
- Solvers.FindNRooksSolution: requires n ≥ 1. For n = 0 the source's `togglePiece(0, 0)` indexes a missing row and throws. Non-integer n is not modelled.
