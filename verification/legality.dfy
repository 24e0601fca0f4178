/** The legality rules of `Sudoku`: `isLegal` and `getLegalViolations`, and the
    cell orders in which their loops visit the board. */
module Legality {
  import opened Wrappers
  import opened JavaInt
  import opened Board
  import opened SudokuSquare

  /** Cell p shares the row, the column or the 3x3 box of (row, col). The cell
      (row, col) itself is its own peer: no Java scan skips it. */
  predicate Peer(row: int, col: int, p: Pos)
    requires OnBoard(row, col) && Valid(p)
  {
    p.row == row || p.col == col || (Band(p.row) == Band(row) && Band(p.col) == Band(col))
  }

  lemma PeerSymmetric(row: int, col: int, p: Pos)
    requires OnBoard(row, col) && Valid(p)
    ensures Peer(row, col, p) <==> Peer(p.row, p.col, Pos(row, col))
    ensures Peer(row, col, Pos(row, col))
  {
  }

  /** The first row (or column) of the band holding x, which Java computes as
      `x - x % 3`; see `CornerIsJava`. */
  function Corner(x: int): (c: int)
    requires 0 <= x < 9
    ensures 0 <= c <= x <= c + 2 <= 8
  {
    3 * Band(x)
  }

  lemma CornerIsJava(x: int)
    requires 0 <= x < 9
    ensures Corner(x) == x - Rem(x, 3)
  {
  }

  /** y lies in the same band of three as x. */
  predicate InBand(x: int, y: int)
    requires 0 <= x < 9
  {
    Corner(x) <= y <= Corner(x) + 2
  }

  lemma BandIsBox(x: int, y: int)
    requires 0 <= x < 9 && 0 <= y < 9
    ensures InBand(x, y) <==> Band(y) == Band(x)
  {
  }

  predicate Distinct<T(==)>(s: seq<T>) {
    forall x, y :: 0 <= x < y < |s| ==> s[x] != s[y]
  }

  lemma DistinctConcat<T>(a: seq<T>, c: seq<T>)
    requires Distinct(a) && Distinct(c)
    requires forall t :: t in a ==> t !in c
    ensures Distinct(a + c)
  {
    forall x, y | 0 <= x < y < |a + c|
      ensures (a + c)[x] != (a + c)[y]
    {
      if y < |a| {
      } else if x >= |a| {
        assert (a + c)[x] == c[x - |a|] && (a + c)[y] == c[y - |a|];
      } else {
        assert (a + c)[x] in a && (a + c)[y] == c[y - |a|];
      }
    }
  }

  /** The cross loop of `isLegal` and `getLegalValues`: for i = 0..8, cell
      (row, i) and then cell (i, col), so read number k is (row, k / 2) when k
      is even and (k / 2, col) when it is odd. */
  function CrossScan(row: int, col: int): seq<Pos> {
    seq(18, k requires 0 <= k < 18 => if k % 2 == 0 then Pos(row, k / 2) else Pos(k / 2, col))
  }

  lemma CrossScanCells(row: int, col: int)
    ensures forall p :: p in CrossScan(row, col) <==>
      (p.row == row && 0 <= p.col < 9) || (p.col == col && 0 <= p.row < 9)
  {
    var s := CrossScan(row, col);
    forall p: Pos | (p.row == row && 0 <= p.col < 9) || (p.col == col && 0 <= p.row < 9)
      ensures p in s
    {
      if p.row == row && 0 <= p.col < 9 {
        assert s[2 * p.col] == p;
      } else {
        assert s[2 * p.row + 1] == p;
      }
    }
  }

  /** The box loop shared by all three scans: columns cc..cc+2, each from row
      cr down to cr+2, so read number k is (cr + k % 3, cc + k / 3). */
  function Box(row: int, col: int): seq<Pos>
    requires OnBoard(row, col)
  {
    BoxFrom(Corner(row), Corner(col))
  }

  /** The box loop from corner (cr, cc), wherever that corner lies. */
  function BoxFrom(cr: int, cc: int): seq<Pos> {
    seq(9, k requires 0 <= k < 9 => Pos(cr + k % 3, cc + k / 3))
  }

  /** `Box` holds each cell of the box of (row, col) once. */
  lemma BoxCells(row: int, col: int)
    requires OnBoard(row, col)
    ensures forall p :: p in Box(row, col) <==> InBand(row, p.row) && InBand(col, p.col)
    ensures Distinct(Box(row, col))
  {
    var s := Box(row, col);
    var cr := Corner(row);
    var cc := Corner(col);
    forall p: Pos | InBand(row, p.row) && InBand(col, p.col) ensures p in s {
      assert s[(p.col - cc) * 3 + (p.row - cr)] == p;
    }
  }

  /** Every cell `isLegal` and `getLegalValues` read, in the order they read them
      (Sudoku.java lines 66-78 and 159-173). */
  function LegalScan(row: int, col: int): seq<Pos>
    requires OnBoard(row, col)
  {
    CrossScan(row, col) + Box(row, col)
  }

  /** Within the board, `LegalScan` visits exactly the peers of (row, col). */
  lemma LegalScanIsPeers(row: int, col: int)
    requires OnBoard(row, col)
    ensures forall p :: p in LegalScan(row, col) <==> Valid(p) && Peer(row, col, p)
  {
    CrossScanCells(row, col);
    BoxCells(row, col);
    forall p
      ensures p in LegalScan(row, col) <==> Valid(p) && Peer(row, col, p)
    {
      if Valid(p) {
        BandIsBox(row, p.row);
        BandIsBox(col, p.col);
      }
    }
  }

  /** The row and column loop of `getLegalViolations` from index i on: a row
      cell only outside the box's columns, a column cell only outside its rows. */
  function ViolationCross(row: int, col: int, i: int): seq<Pos>
    requires OnBoard(row, col) && 0 <= i <= 9
    decreases 9 - i
  {
    if i == 9 then [] else CrossStep(row, col, i) + ViolationCross(row, col, i + 1)
  }

  /** What index i of the violations cross loop contributes. */
  function CrossStep(row: int, col: int, i: int): seq<Pos>
    requires OnBoard(row, col) && 0 <= i < 9
  {
    (if !InBand(col, i) then [Pos(row, i)] else []) + (if !InBand(row, i) then [Pos(i, col)] else [])
  }

  lemma CrossStepCells(row: int, col: int, i: int)
    requires OnBoard(row, col) && 0 <= i < 9
    ensures forall p :: p in CrossStep(row, col, i) <==>
      (p.row == row && p.col == i && !InBand(col, p.col))
      || (p.col == col && p.row == i && !InBand(row, p.row))
    ensures Distinct(CrossStep(row, col, i))
  {
  }

  lemma {:induction false} ViolationCrossCells(row: int, col: int, i: int)
    requires OnBoard(row, col) && 0 <= i <= 9
    ensures forall p :: p in ViolationCross(row, col, i) <==>
      (p.row == row && i <= p.col < 9 && !InBand(col, p.col))
      || (p.col == col && i <= p.row < 9 && !InBand(row, p.row))
    ensures Distinct(ViolationCross(row, col, i))
    decreases 9 - i
  {
    if i < 9 {
      ViolationCrossCells(row, col, i + 1);
      CrossStepCells(row, col, i);
      assert ViolationCross(row, col, i) == CrossStep(row, col, i) + ViolationCross(row, col, i + 1);
      DistinctConcat(CrossStep(row, col, i), ViolationCross(row, col, i + 1));
    }
  }

  /** Every cell `getLegalViolations` reports from, in its order
      (Sudoku.java lines 91-108). */
  function ViolationScan(row: int, col: int): seq<Pos>
    requires OnBoard(row, col)
  {
    ViolationCross(row, col, 0) + Box(row, col)
  }

  /** Within the board, `ViolationScan` visits each peer of (row, col) once. */
  lemma ViolationScanIsPeers(row: int, col: int)
    requires OnBoard(row, col)
    ensures forall p :: p in ViolationScan(row, col) <==> Valid(p) && Peer(row, col, p)
    ensures Distinct(ViolationScan(row, col))
  {
    var cross := ViolationCross(row, col, 0);
    var box := Box(row, col);
    ViolationCrossCells(row, col, 0);
    BoxCells(row, col);
    DistinctConcat(cross, box);
    forall p
      ensures p in cross + box <==> Valid(p) && Peer(row, col, p)
    {
      if Valid(p) {
        BandIsBox(row, p.row);
        BandIsBox(col, p.col);
      }
    }
  }

  /** The loop of `isLegal`: walks the cells in order, answering false at the
      first one holding v; an index outside the array throws. */
  function Walk(b: Board, ps: seq<Pos>, v: int32): (r: Result<bool, Error>)
    ensures (forall p :: p in ps ==> Valid(p)) ==> r == Success(forall p :: p in ps ==> At(b, p) != v)
    decreases |ps|
  {
    if |ps| == 0 then Success(true)
    else if !Valid(ps[0]) then Failure(OutOfBounds)
    else if At(b, ps[0]) == v then Success(false)
    else Walk(b, ps[1..], v)
  }

  /** `isLegal` on a cell of the board: v occurs in none of its peers,
      the cell itself included. */
  function IsLegal(b: Board, row: int, col: int, v: int32): (r: bool)
    requires OnBoard(row, col)
    ensures r <==> forall i, j :: OnBoard(i, j) && Peer(row, col, Pos(i, j)) ==> b[i][j] != v
  {
    LegalScanIsPeers(row, col);
    var ok := Walk(b, LegalScan(row, col), v).value;
    ScanAgreesWithPeers(b, row, col, v, ok);
    ok
  }

  lemma ScanAgreesWithPeers(b: Board, row: int, col: int, v: int32, ok: bool)
    requires OnBoard(row, col)
    requires forall p :: p in LegalScan(row, col) <==> Valid(p) && Peer(row, col, p)
    requires ok <==> forall p :: p in LegalScan(row, col) ==> At(b, p) != v
    ensures ok <==> forall i, j :: OnBoard(i, j) && Peer(row, col, Pos(i, j)) ==> b[i][j] != v
  {
    if ok {
      forall i, j | OnBoard(i, j) && Peer(row, col, Pos(i, j))
        ensures b[i][j] != v
      {
        assert Pos(i, j) in LegalScan(row, col);
      }
    } else {
      var p :| p in LegalScan(row, col) && At(b, p) == v;
      assert OnBoard(p.row, p.col) && Peer(row, col, Pos(p.row, p.col)) && b[p.row][p.col] == v;
    }
  }

  /** `isLegal` for any coordinates: the cross loop, then the box loop from
      Java's corner `x - x % 3`, walked until a read matches or falls off the
      array. Because of the `||` in the cross loop, a column outside the board
      does not throw when `board[row][0]` already holds v: the answer is then
      false. */
  function IsLegalChecked(b: Board, row: int, col: int, v: int32): (r: Result<bool, Error>)
    ensures OnBoard(row, col) ==> r == Success(IsLegal(b, row, col, v))
    ensures !(0 <= row < 9) ==> r == Failure(OutOfBounds)
    ensures 0 <= row < 9 && !(0 <= col < 9) ==>
      r == if b[row][0] == v then Success(false) else Failure(OutOfBounds)
  {
    var box := BoxFrom(row - Rem(row, 3), col - Rem(col, 3));
    if OnBoard(row, col) then
      CornerIsJava(row);
      CornerIsJava(col);
      assert CrossScan(row, col) + box == LegalScan(row, col);
      LegalWalkOnBoard(b, row, col, v);
      Walk(b, CrossScan(row, col) + box, v)
    else
      OffBoardWalk(b, row, col, v, box);
      WalkHead(b, row, col, v);
      Walk(b, CrossScan(row, col) + box, v)
  }

  lemma LegalWalkOnBoard(b: Board, row: int, col: int, v: int32)
    requires OnBoard(row, col)
    ensures Walk(b, LegalScan(row, col), v) == Success(IsLegal(b, row, col, v))
  {
    LegalScanIsPeers(row, col);
  }

  /** Off the board, the walk ends at one of the first two reads of the cross
      loop, `board[row][0]` or `board[0][col]`, whatever follows them. */
  lemma OffBoardWalk(b: Board, row: int, col: int, v: int32, rest: seq<Pos>)
    requires !OnBoard(row, col)
    ensures Walk(b, CrossScan(row, col) + rest, v) == Walk(b, [Pos(row, 0), Pos(0, col)], v)
  {
    var ps := CrossScan(row, col) + rest;
    assert ps[0] == Pos(row, 0) && ps[1] == Pos(0, col);
    assert ps[1..][0] == Pos(0, col);
    var two := [Pos(row, 0), Pos(0, col)];
    assert two[1..] == [Pos(0, col)];
  }

  /** What those two reads give: a row off the board fails at once; with the
      row on the board, a match at `board[row][0]` answers false and otherwise
      the read of `board[0][col]` fails. */
  lemma WalkHead(b: Board, row: int, col: int, v: int32)
    ensures !(0 <= row < 9) ==> Walk(b, [Pos(row, 0), Pos(0, col)], v) == Failure(OutOfBounds)
    ensures 0 <= row < 9 && !(0 <= col < 9) ==>
      Walk(b, [Pos(row, 0), Pos(0, col)], v)
      == if b[row][0] == v then Success(false) else Failure(OutOfBounds)
  {
    var ps := [Pos(row, 0), Pos(0, col)];
    assert ps[1..] == [Pos(0, col)];
  }

  function PosOf(s: Square): Pos {
    Pos(s.row as int, s.col as int)
  }

  /** The squares (p, v) for the cells p of ps that hold v, in the order of ps. */
  function Hits(b: Board, ps: seq<Pos>, v: int32): (r: seq<Square>)
    requires forall p :: p in ps ==> Valid(p)
    ensures forall s :: s in r <==> s.value == v && PosOf(s) in ps && At(b, PosOf(s)) == v
    ensures Distinct(ps) ==> forall x, y :: 0 <= x < y < |r| ==> PosOf(r[x]) != PosOf(r[y])
    decreases |ps|
  {
    if |ps| == 0 then []
    else
      var p := ps[0];
      var rest := Hits(b, ps[1..], v);
      if At(b, p) == v then
        var s := Square(p.row as int32, p.col as int32, v);
        assert Distinct(ps) ==> Distinct(ps[1..]) && p !in ps[1..];
        [s] + rest
      else rest
  }

  /** `getLegalViolations` on a cell of the board: every peer cell holding v is
      reported once, as (row, col, v), and nothing else is reported. */
  function Violations(b: Board, row: int, col: int, v: int32): (r: seq<Square>)
    requires OnBoard(row, col)
    ensures forall s :: s in r <==>
      s.value == v && Valid(PosOf(s)) && Peer(row, col, PosOf(s)) && At(b, PosOf(s)) == v
    ensures forall x, y :: 0 <= x < y < |r| ==> PosOf(r[x]) != PosOf(r[y])
  {
    ViolationScanIsPeers(row, col);
    Hits(b, ViolationScan(row, col), v)
  }

  /** `isLegal` holds exactly when `getLegalViolations` reports nothing. */
  lemma LegalIffNoViolations(b: Board, row: int, col: int, v: int32)
    requires OnBoard(row, col)
    ensures IsLegal(b, row, col, v) <==> Violations(b, row, col, v) == []
  {
    NoHitIffLegal(b, row, col, v, IsLegal(b, row, col, v), Violations(b, row, col, v));
  }

  lemma NoHitIffLegal(b: Board, row: int, col: int, v: int32, ok: bool, r: seq<Square>)
    requires OnBoard(row, col)
    requires ok <==> forall i, j :: OnBoard(i, j) && Peer(row, col, Pos(i, j)) ==> b[i][j] != v
    requires forall s :: s in r <==>
      s.value == v && Valid(PosOf(s)) && Peer(row, col, PosOf(s)) && At(b, PosOf(s)) == v
    ensures ok <==> r == []
  {
    assert |r| > 0 ==> r[0] in r;
    if !ok {
      var i, j :| OnBoard(i, j) && Peer(row, col, Pos(i, j)) && b[i][j] == v;
      var s := Square(i as int32, j as int32, v);
      assert PosOf(s) == Pos(i, j);
      assert s in r;
    }
  }

  /** The target cell is not skipped: a cell already holding v reports itself. */
  lemma TargetReportsItself(b: Board, row: int, col: int)
    requires OnBoard(row, col)
    ensures Square(row as int32, col as int32, b[row][col]) in Violations(b, row, col, b[row][col])
    ensures !IsLegal(b, row, col, b[row][col])
  {
    var v := b[row][col];
    SelfIsHit(b, row, col, Violations(b, row, col, v));
    LegalIffNoViolations(b, row, col, v);
  }

  lemma SelfIsHit(b: Board, row: int, col: int, r: seq<Square>)
    requires OnBoard(row, col)
    requires forall s :: s in r <==>
      s.value == b[row][col] && Valid(PosOf(s)) && Peer(row, col, PosOf(s)) && At(b, PosOf(s)) == b[row][col]
    ensures Square(row as int32, col as int32, b[row][col]) in r
  {
    var s := Square(row as int32, col as int32, b[row][col]);
    assert PosOf(s) == Pos(row, col);
  }
}
