/** The board state of `Sudoku`: the 9x9 `int` grid, raw reads and writes,
    and the whole-board completeness check. */
module Board {
  import opened Wrappers
  import opened JavaInt

  predicate IsGrid(g: seq<seq<int32>>) {
    |g| == 9 && forall r :: 0 <= r < 9 ==> |g[r]| == 9
  }

  /** `int[9][9] board`; 0 marks an empty cell. Any `int` may be stored. */
  type Board = g: seq<seq<int32>> | IsGrid(g) witness seq(9, _ => seq(9, _ => 0))

  /** A cell position (row, column). */
  datatype Pos = Pos(row: int, col: int)

  /** The errors the Java code raises: ArrayIndexOutOfBoundsException for a
      coordinate outside the grid, IllegalArgumentException for a value that
      `set` refuses. */
  datatype Error = OutOfBounds | IllegalValue(value: int)

  predicate OnBoard(row: int, col: int) {
    0 <= row < 9 && 0 <= col < 9
  }

  predicate Valid(p: Pos) {
    OnBoard(p.row, p.col)
  }

  function At(b: Board, p: Pos): int32
    requires Valid(p)
  {
    b[p.row][p.col]
  }

  /** The all-zero board a fresh `Sudoku` starts with. */
  function Empty(): (b: Board)
    ensures forall i, j :: OnBoard(i, j) ==> b[i][j] == 0
  {
    seq(9, _ => seq(9, _ => 0))
  }

  /** The array store `board[row][col] = val`. */
  function Write(b: Board, row: int, col: int, v: int32): (b': Board)
    requires OnBoard(row, col)
    ensures b'[row][col] == v
    ensures forall i, j :: OnBoard(i, j) && (i != row || j != col) ==> b'[i][j] == b[i][j]
  {
    var line: seq<int32> := b[row][col := v];
    b[row := line]
  }

  /** Boards that agree on every cell are equal. */
  lemma Extensionality(a: Board, c: Board)
    requires forall i, j :: OnBoard(i, j) ==> a[i][j] == c[i][j]
    ensures a == c
  {
    forall i | 0 <= i < 9
      ensures a[i] == c[i]
    {
      assert forall j :: 0 <= j < 9 ==> a[i][j] == c[i][j];
    }
  }

  /** `get`: the cell's value, or a bounds error. */
  function Get(b: Board, row: int, col: int): (r: Result<int32, Error>)
    ensures r.Success? <==> OnBoard(row, col)
    ensures r.Failure? ==> r.error == OutOfBounds
  {
    if OnBoard(row, col) then Success(b[row][col]) else Failure(OutOfBounds)
  }

  /** `force`: stores any `int` without a legality or range check. */
  function Force(b: Board, row: int, col: int, v: int32): (r: Result<Board, Error>)
    ensures r.Success? <==> OnBoard(row, col)
    ensures r.Failure? ==> r.error == OutOfBounds
    ensures r.Success? ==> r.value[row][col] == v
    ensures r.Success? ==> forall i, j :: OnBoard(i, j) && (i != row || j != col) ==> r.value[i][j] == b[i][j]
  {
    if OnBoard(row, col) then Success(Write(b, row, col, v)) else Failure(OutOfBounds)
  }

  /** Reading after `force`: the forced cell reads the new value, every other
      coordinate reads as before, out-of-range ones still fail. */
  lemma GetAfterForce(b: Board, row: int, col: int, v: int32, i: int, j: int)
    requires Force(b, row, col, v).Success?
    ensures Get(Force(b, row, col, v).value, i, j)
            == if i == row && j == col then Success(v) else Get(b, i, j)
  {
  }

  /** `force` twice in a row leaves only the second value. */
  lemma ForceForce(b: Board, row: int, col: int, v: int32, w: int32)
    requires OnBoard(row, col)
    ensures Force(Force(b, row, col, v).value, row, col, w) == Force(b, row, col, w)
  {
    Extensionality(Force(Force(b, row, col, v).value, row, col, w).value, Force(b, row, col, w).value);
  }

  /** Forcing a cell's own value back leaves the board as it was. */
  lemma ForceOwnValue(b: Board, row: int, col: int)
    requires OnBoard(row, col)
    ensures Force(b, row, col, b[row][col]) == Success(b)
  {
    Extensionality(Force(b, row, col, b[row][col]).value, b);
  }

  /** `isBlank`: whether the cell holds 0. */
  function IsBlank(b: Board, row: int, col: int): (r: Result<bool, Error>)
    ensures r.Success? <==> OnBoard(row, col)
    ensures r.Success? ==> (r.value <==> Get(b, row, col) == Success(0))
  {
    if OnBoard(row, col) then Success(b[row][col] == 0) else Failure(OutOfBounds)
  }

  /** Row-major cell number k (0..80): row k / 9, column k % 9. */
  function RowMajor(k: int): (p: Pos)
    requires 0 <= k < 81
    ensures Valid(p) && p.row * 9 + p.col == k
  {
    Pos(k / 9, k % 9)
  }

  /** Column-major cell number k (0..80): column k / 9, row k % 9. */
  function ColMajor(k: int): (p: Pos)
    requires 0 <= k < 81
    ensures Valid(p) && p.col * 9 + p.row == k
  {
    Pos(k % 9, k / 9)
  }

  /** The remaining passes of `gameOver`'s row-by-row scan, from cell k on. */
  function NoBlankFrom(b: Board, k: nat): (r: bool)
    requires k <= 81
    ensures r <==> forall n :: k <= n < 81 ==> At(b, RowMajor(n)) != 0
    decreases 81 - k
  {
    if k == 81 then true
    else
      var p := RowMajor(k);
      if IsBlank(b, p.row, p.col).value then false else NoBlankFrom(b, k + 1)
  }

  /** `gameOver`: true exactly when no cell holds 0, whatever the other values. */
  function GameOver(b: Board): (r: bool)
    ensures r <==> forall i, j :: OnBoard(i, j) ==> b[i][j] != 0
  {
    NoBlankFromStart(b);
    NoBlankFrom(b, 0)
  }

  /** The full row-major scan finds no blank exactly when no cell is blank. */
  lemma NoBlankFromStart(b: Board)
    ensures NoBlankFrom(b, 0) <==> forall i, j :: OnBoard(i, j) ==> b[i][j] != 0
  {
    if NoBlankFrom(b, 0) {
      forall i, j | OnBoard(i, j) ensures b[i][j] != 0 {
        RowMajorOf(i, j);
        assert At(b, RowMajor(i * 9 + j)) != 0;
      }
    }
  }

  /** Cell (i, j) is row-major number i * 9 + j. */
  lemma RowMajorOf(i: int, j: int)
    requires OnBoard(i, j)
    ensures 0 <= i * 9 + j < 81 && RowMajor(i * 9 + j) == Pos(i, j)
  {
    var p := RowMajor(i * 9 + j);
    assert p.row * 9 + p.col == i * 9 + j;
  }

  /** Cell (i, j) is column-major number j * 9 + i. */
  lemma ColMajorOf(i: int, j: int)
    requires OnBoard(i, j)
    ensures 0 <= j * 9 + i < 81 && ColMajor(j * 9 + i) == Pos(i, j)
  {
    var p := ColMajor(j * 9 + i);
    assert p.col * 9 + p.row == j * 9 + i;
  }

  /** Which band of three rows (or columns) x lies in: Java's `x / 3` on the board. */
  function Band(x: int): (band: int)
    requires 0 <= x < 9
    ensures 0 <= band < 3 && 3 * band <= x < 3 * band + 3
  {
    if x < 3 then 0 else if x < 6 then 1 else 2
  }

  /** `get3x3row`: Java's `row / 3`, the band of boxes a row belongs to. */
  function Get3x3Row(row: int): (band: int)
    ensures 0 <= row < 9 ==> band == Band(row)
    ensures band * 3 == row - Rem(row, 3)
  {
    DivRemIdentity(row, 3);
    Div(row, 3)
  }
}
