/** The moves a player makes on a `Sudoku`: `set`, which refuses an illegal
    value and reports why, and the swap preview of the game screen, which
    empties a cell with `force`, asks `getAllLegalPositions` for its value
    and puts the value back. */
module Moves {
  import opened Wrappers
  import opened JavaInt
  import opened Board
  import opened SudokuSquare
  import opened Legality
  import opened Candidates

  /** What a successful `set` leaves behind: the board afterwards and the
      collection of violations it returns. */
  datatype Placement = Placement(board: Board, violations: seq<Square>)

  /** `set`: a value outside 0..9 is refused first, then a coordinate off the
      board; otherwise the violations are computed and the value is written
      only when there are none. */
  function Set(b: Board, row: int, col: int, v: int32): (r: Result<Placement, Error>)
    ensures !(0 <= v <= 9) ==> r == Failure(IllegalValue(v))
    ensures 0 <= v <= 9 && !OnBoard(row, col) ==> r == Failure(OutOfBounds)
    ensures 0 <= v <= 9 && OnBoard(row, col) ==> r.Success? && r.value.violations == Violations(b, row, col, v)
    ensures r.Success? ==> IsLegal(b, row, col, v) ==> r.value.board == Write(b, row, col, v)
    ensures r.Success? ==> !IsLegal(b, row, col, v) ==> r.value.board == b
  {
    if !(0 <= v <= 9) then Failure(IllegalValue(v))
    else if !OnBoard(row, col) then Failure(OutOfBounds)
    else
      var illegals := Violations(b, row, col, v);
      LegalIffNoViolations(b, row, col, v);
      if illegals == [] then Success(Placement(Write(b, row, col, v), illegals))
      else Success(Placement(b, illegals))
  }

  /** `set` is all-or-nothing: the board either stays as it was or changes in
      the target cell alone, and it changes exactly when nothing is reported. */
  lemma SetAllOrNothing(b: Board, row: int, col: int, v: int32)
    requires 0 <= v <= 9 && OnBoard(row, col)
    ensures var p := Set(b, row, col, v).value;
      (p.violations == [] ==> p.board[row][col] == v)
      && (p.violations != [] ==> p.board == b)
      && forall i, j :: OnBoard(i, j) && (i != row || j != col) ==> p.board[i][j] == b[i][j]
  {
    LegalIffNoViolations(b, row, col, v);
  }

  /** No other peer of cell (i, j) holds its value. */
  ghost predicate Unique(b: Board, i: int, j: int)
    requires OnBoard(i, j)
  {
    forall k, l :: OnBoard(k, l) && (k != i || l != j) && Peer(i, j, Pos(k, l)) ==> b[k][l] != b[i][j]
  }

  /** No filled cell shares its value with a peer. */
  ghost predicate Consistent(b: Board) {
    forall i, j :: OnBoard(i, j) && b[i][j] != 0 ==> Unique(b, i, j)
  }

  /** A board reached by `set` alone never holds a conflict: `set` keeps a
      conflict-free board conflict-free. */
  lemma SetPreservesConsistent(b: Board, row: int, col: int, v: int32)
    requires 0 <= v <= 9 && OnBoard(row, col) && Consistent(b)
    ensures Consistent(Set(b, row, col, v).value.board)
  {
    if IsLegal(b, row, col, v) {
      var c := Write(b, row, col, v);
      forall i, j | OnBoard(i, j) && c[i][j] != 0 ensures Unique(c, i, j) {
        if i == row && j == col {
          WrittenCellUnique(b, row, col, v);
        } else {
          OtherCellUnique(b, row, col, v, i, j);
        }
      }
    }
  }

  lemma WrittenCellUnique(b: Board, row: int, col: int, v: int32)
    requires OnBoard(row, col) && IsLegal(b, row, col, v)
    ensures Unique(Write(b, row, col, v), row, col)
  {
  }

  lemma OtherCellUnique(b: Board, row: int, col: int, v: int32, i: int, j: int)
    requires OnBoard(row, col) && IsLegal(b, row, col, v)
    requires OnBoard(i, j) && (i != row || j != col) && b[i][j] != 0 && Unique(b, i, j)
    ensures Unique(Write(b, row, col, v), i, j)
  {
    var c := Write(b, row, col, v);
    if Peer(i, j, Pos(row, col)) {
      PeerSymmetric(i, j, Pos(row, col));
      assert b[i][j] != v;
    }
  }

  /** Setting a cell to the value it already holds is always refused, and the
      cell itself is among the reported violations. */
  lemma SetOwnValueRefused(b: Board, row: int, col: int)
    requires OnBoard(row, col) && 0 <= b[row][col] <= 9
    ensures Set(b, row, col, b[row][col]).Success?
    ensures Set(b, row, col, b[row][col]).value.board == b
    ensures Square(row as int32, col as int32, b[row][col]) in Set(b, row, col, b[row][col]).value.violations
  {
    TargetReportsItself(b, row, col);
  }

  /** What the swap preview computes: the board afterwards and the squares it
      highlights. */
  datatype SwapView = SwapView(board: Board, targets: set<Square>)

  /** The preview of dragging cell (row, col) (SudokuGUI.java lines 391-401):
      read the cell's value t, `force` a 0 there, collect
      `getAllLegalPositions(t)`, and `force` t back. */
  function SwapPreview(b: Board, row: int, col: int): (r: Result<SwapView, Error>)
    ensures r.Success? <==> OnBoard(row, col)
    ensures r.Failure? ==> r.error == OutOfBounds
    ensures r.Success? ==> r.value.board == b
    ensures r.Success? ==> r.value.targets == AllLegalPositions(Write(b, row, col, 0), b[row][col])
  {
    match Get(b, row, col)
    case Failure(e) => Failure(e)
    case Success(t) =>
      var cleared := Force(b, row, col, 0).value;
      var targets := AllLegalPositions(cleared, t);
      var restored := Force(cleared, row, col, t).value;
      ForceForce(b, row, col, 0, t);
      ForceOwnValue(b, row, col);
      Success(SwapView(restored, targets))
  }

  /** The dragged cell is highlighted as its own target, recorded as empty,
      exactly when its value is a digit that no other peer holds. */
  lemma SwapIncludesOwnCell(b: Board, row: int, col: int)
    requires OnBoard(row, col)
    ensures Square(row as int32, col as int32, 0) in SwapPreview(b, row, col).value.targets
            <==> 1 <= b[row][col] <= 9 && Unique(b, row, col)
  {
    var t := b[row][col];
    var c := Write(b, row, col, 0);
    AllLegalPositionsAreLegal(c, t);
    if 1 <= t <= 9 {
      ClearedLegal(b, row, col);
    }
  }

  /** With the cell emptied, its value is legal there exactly when no other
      peer holds it. */
  lemma ClearedLegal(b: Board, row: int, col: int)
    requires OnBoard(row, col) && 1 <= b[row][col] <= 9
    ensures IsLegal(Write(b, row, col, 0), row, col, b[row][col]) <==> Unique(b, row, col)
  {
  }

  /** Every highlighted square holds the value the cleared board has there,
      and dropping the dragged value on it breaks no rule. */
  lemma SwapTargetsAreLegal(b: Board, row: int, col: int, s: Square)
    requires OnBoard(row, col)
    requires s in SwapPreview(b, row, col).value.targets
    ensures OnBoard(s.row, s.col) && 1 <= b[row][col] <= 9
    ensures s.value == Write(b, row, col, 0)[s.row][s.col]
    ensures IsLegal(Write(b, row, col, 0), s.row, s.col, b[row][col])
  {
    AllLegalPositionsAreLegal(Write(b, row, col, 0), b[row][col]);
  }
}
