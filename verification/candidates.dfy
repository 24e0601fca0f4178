/** Candidate analysis of `Sudoku`: `getLegalValues` and the two whole-board
    queries built on it, `getMostContrainedSquares` (hints) and
    `getAllLegalPositions` (swap targets). */
module Candidates {
  import opened Wrappers
  import opened JavaInt
  import opened Board
  import opened SudokuSquare
  import opened Legality

  /** The set `getLegalValues` starts from. */
  const Digits: set<int32> := {1, 2, 3, 4, 5, 6, 7, 8, 9}

  /** No cell of ps holds v. */
  predicate Unseen(b: Board, ps: seq<Pos>, v: int32)
    requires forall p :: p in ps ==> Valid(p)
  {
    forall p :: p in ps ==> At(b, p) != v
  }

  /** `result.remove(...)` for each cell of ps in turn. */
  function RemoveSeen(b: Board, ps: seq<Pos>, s: set<int32>): set<int32>
    requires forall p :: p in ps ==> Valid(p)
    decreases |ps|
  {
    if |ps| == 0 then s else RemoveSeen(b, ps[1..], s - {At(b, ps[0])})
  }

  /** A value survives exactly when it was in s and no cell of ps holds it. */
  lemma {:induction false} RemoveSeenKeeps(b: Board, ps: seq<Pos>, s: set<int32>)
    requires forall p :: p in ps ==> Valid(p)
    ensures forall v :: v in RemoveSeen(b, ps, s) <==> v in s && Unseen(b, ps, v)
    decreases |ps|
  {
    if |ps| > 0 {
      RemoveSeenKeeps(b, ps[1..], s - {At(b, ps[0])});
      forall v ensures Unseen(b, ps, v) <==> At(b, ps[0]) != v && Unseen(b, ps[1..], v) {
        assert forall p :: p in ps <==> p == ps[0] || p in ps[1..];
      }
    }
  }

  /** `isLegal` on the board is the same as "no cell of `LegalScan` holds v". */
  lemma LegalIsScanClear(b: Board, row: int, col: int, v: int32)
    requires OnBoard(row, col)
    ensures forall p :: p in LegalScan(row, col) ==> Valid(p)
    ensures IsLegal(b, row, col, v) <==> Unseen(b, LegalScan(row, col), v)
  {
    LegalScanIsPeers(row, col);
    LegalWalkOnBoard(b, row, col, v);
  }

  /** `getLegalValues`: the digits 1..9 that no cell of the isLegal scan
      holds; `LegalValuesAreLegal` reads this as `isLegal`. */
  function LegalValues(b: Board, row: int, col: int): (r: set<int32>)
    requires OnBoard(row, col)
    ensures r <= Digits
  {
    LegalScanIsPeers(row, col);
    RemoveSeenKeeps(b, LegalScan(row, col), Digits);
    RemoveSeen(b, LegalScan(row, col), Digits)
  }

  /** The candidates are exactly the digits `isLegal` accepts. The cell's own
      value counts, so a filled cell never lists its own digit. */
  lemma LegalValuesAreLegal(b: Board, row: int, col: int)
    requires OnBoard(row, col)
    ensures forall v :: v in LegalValues(b, row, col) <==> 1 <= v <= 9 && IsLegal(b, row, col, v)
  {
    forall v ensures v in LegalValues(b, row, col) <==> 1 <= v <= 9 && IsLegal(b, row, col, v) {
      CandidateIffLegal(b, row, col, v);
    }
  }

  lemma DigitsRange(v: int32)
    ensures v in Digits <==> 1 <= v <= 9
  {
  }

  lemma CandidateIffLegal(b: Board, row: int, col: int, v: int32)
    requires OnBoard(row, col)
    ensures forall p :: p in LegalScan(row, col) ==> Valid(p)
    ensures v in RemoveSeen(b, LegalScan(row, col), Digits) <==> 1 <= v <= 9 && IsLegal(b, row, col, v)
  {
    LegalIsScanClear(b, row, col, v);
    RemoveSeenKeeps(b, LegalScan(row, col), Digits);
    DigitsRange(v);
  }

  /** A filled cell's own digit is never among its candidates. */
  lemma OwnValueNotCandidate(b: Board, row: int, col: int)
    requires OnBoard(row, col) && b[row][col] != 0
    ensures b[row][col] !in LegalValues(b, row, col)
  {
    TargetReportsItself(b, row, col);
    LegalValuesAreLegal(b, row, col);
  }

  /** On the empty board every digit is a candidate everywhere. */
  lemma EmptyBoardAllCandidates(row: int, col: int)
    requires OnBoard(row, col)
    ensures LegalValues(Empty(), row, col) == Digits
  {
    var r := LegalValues(Empty(), row, col);
    LegalValuesAreLegal(Empty(), row, col);
    forall v | v in Digits ensures v in r {
      DigitsRange(v);
      assert IsLegal(Empty(), row, col, v);
    }
  }

  lemma {:induction false} SubsetCard<T>(a: set<T>, c: set<T>)
    requires a <= c
    ensures |a| <= |c|
    decreases |a|
  {
    if a != {} {
      var x :| x in a;
      SubsetCard(a - {x}, c - {x});
    }
  }

  lemma DigitsCount()
    ensures |Digits| == 9
  {
  }

  /** `getLegalValues(row, col).size()`: at most nine. */
  function Count(b: Board, row: int, col: int): (n: int)
    requires OnBoard(row, col)
    ensures 0 <= n <= 9
  {
    var r := LegalValues(b, row, col);
    DigitsCount();
    SubsetCard(r, Digits);
    |r|
  }

  /** Column-major number of a square's cell, the order of the hint scan. */
  function Index(s: Square): int {
    s.col as int * 9 + s.row as int
  }

  /** The square the hint scan records for cell k: its position, value 0. */
  function SquareOf(k: int): (s: Square)
    requires 0 <= k < 81
    ensures Index(s) == k && Valid(PosOf(s)) && PosOf(s) == ColMajor(k) && s.value == 0
  {
    var p := ColMajor(k);
    Square(p.row as int32, p.col as int32, 0)
  }

  /** What the hint scan sees at cell k (column-major): nothing for a filled
      cell, the candidate count for an empty one. */
  function Weights(b: Board): (ws: seq<Option<int>>)
    ensures |ws| == 81
    ensures forall k :: 0 <= k < 81 ==>
      ws[k] == if At(b, ColMajor(k)) == 0 then Some(Count(b, ColMajor(k).row, ColMajor(k).col)) else None
  {
    seq(81, k requires 0 <= k < 81 =>
      var p := ColMajor(k);
      if At(b, p) == 0 then Some(Count(b, p.row, p.col)) else None)
  }

  /** What the hint scan knows after the first k weights: `least` bounds every
      weight seen; `acc` lists, in increasing order, exactly the cells seen whose
      weight is `least`; `least` is still Integer.MAX_VALUE while no weight has
      been seen. */
  predicate LeastState(ws: seq<Option<int>>, k: int, least: int, acc: seq<int>)
    requires 0 <= k <= |ws|
  {
    && (forall j :: 0 <= j < k && ws[j].Some? ==> least <= ws[j].value)
    && (forall x :: 0 <= x < |acc| ==> 0 <= acc[x] < k && ws[acc[x]] == Some(least))
    && (forall x, y :: 0 <= x < y < |acc| ==> acc[x] < acc[y])
    && (forall j :: 0 <= j < k && ws[j] == Some(least) ==> j in acc)
    && (acc == [] <==> forall j :: 0 <= j < k ==> ws[j].None?)
    && (acc == [] ==> least == MaxInt)
  }

  /** The loop of `getMostContrainedSquares` from cell k on: a strictly smaller
      count restarts the list, an equal one is appended. */
  function LeastFrom(ws: seq<Option<int>>, k: int, least: int, acc: seq<int>): (r: (int, seq<int>))
    requires 0 <= k <= |ws|
    requires forall j :: 0 <= j < |ws| && ws[j].Some? ==> ws[j].value < MaxInt
    requires LeastState(ws, k, least, acc)
    ensures LeastState(ws, |ws|, r.0, r.1)
    decreases |ws| - k
  {
    if k == |ws| then (least, acc)
    else match ws[k]
      case None =>
        LeastStateKeep(ws, k, least, acc);
        LeastFrom(ws, k + 1, least, acc)
      case Some(n) =>
        if n <= least then
          if n < least then
            LeastStateRestart(ws, k, least, acc);
            LeastFrom(ws, k + 1, n, [k])
          else
            LeastStateAppend(ws, k, least, acc);
            LeastFrom(ws, k + 1, n, acc + [k])
        else
          LeastStateKeep(ws, k, least, acc);
          LeastFrom(ws, k + 1, least, acc)
  }

  /** A weight that is absent or above the least leaves the state as it is. */
  lemma LeastStateKeep(ws: seq<Option<int>>, k: int, least: int, acc: seq<int>)
    requires 0 <= k < |ws| && LeastState(ws, k, least, acc)
    requires ws[k].Some? ==> least < ws[k].value < MaxInt
    ensures LeastState(ws, k + 1, least, acc)
  {
  }

  /** A weight below the least restarts the list with cell k alone. */
  lemma LeastStateRestart(ws: seq<Option<int>>, k: int, least: int, acc: seq<int>)
    requires 0 <= k < |ws| && LeastState(ws, k, least, acc)
    requires ws[k].Some? && ws[k].value < least
    ensures LeastState(ws, k + 1, ws[k].value, [k])
  {
  }

  /** A weight equal to the least appends cell k. */
  lemma LeastStateAppend(ws: seq<Option<int>>, k: int, least: int, acc: seq<int>)
    requires 0 <= k < |ws| && LeastState(ws, k, least, acc)
    requires ws[k] == Some(least) && least < MaxInt
    ensures LeastState(ws, k + 1, least, acc + [k])
  {
    assert forall x :: 0 <= x < |acc| ==> acc[x] < k;
  }

  /** `getMostContrainedSquares`: the empty cells with the fewest candidates,
      each recorded with value 0, in column-major order. */
  function MostConstrainedSquares(b: Board): (r: seq<Square>)
    ensures forall s :: s in r ==> OnBoard(s.row, s.col) && b[s.row][s.col] == 0 && s.value == 0
    ensures forall s, t :: s in r && t in r ==> Count(b, s.row, s.col) == Count(b, t.row, t.col)
    ensures forall s, i, j :: s in r && OnBoard(i, j) && b[i][j] == 0 ==> Count(b, s.row, s.col) <= Count(b, i, j)
    ensures forall s, i, j :: s in r && OnBoard(i, j) && b[i][j] == 0 && Count(b, i, j) == Count(b, s.row, s.col)
              ==> Square(i as int32, j as int32, 0) in r
    ensures forall x, y :: 0 <= x < y < |r| ==> Index(r[x]) < Index(r[y])
    ensures r == [] <==> GameOver(b)
  {
    var ws := Weights(b);
    var (least, cells) := LeastFrom(ws, 0, MaxInt, []);
    var r := seq(|cells|, x requires 0 <= x < |cells| => SquareOf(cells[x]));
    FinalState(b, ws, least, cells, r);
    r
  }

  /** Reads the final `LeastState` back in terms of rows and columns. */
  lemma FinalState(b: Board, ws: seq<Option<int>>, least: int, cells: seq<int>, r: seq<Square>)
    requires ws == Weights(b) && LeastState(ws, 81, least, cells)
    requires |r| == |cells| && forall x :: 0 <= x < |r| ==> 0 <= cells[x] < 81 && r[x] == SquareOf(cells[x])
    ensures forall s :: s in r ==>
      OnBoard(s.row, s.col) && b[s.row][s.col] == 0 && s.value == 0 && Count(b, s.row, s.col) == least
    ensures forall i, j :: OnBoard(i, j) && b[i][j] == 0 ==> least <= Count(b, i, j)
    ensures forall i, j :: OnBoard(i, j) && b[i][j] == 0 && Count(b, i, j) == least
              ==> Square(i as int32, j as int32, 0) in r
    ensures forall x, y :: 0 <= x < y < |r| ==> Index(r[x]) < Index(r[y])
    ensures r == [] <==> GameOver(b)
  {
    forall s | s in r
      ensures OnBoard(s.row, s.col) && b[s.row][s.col] == 0 && s.value == 0 && Count(b, s.row, s.col) == least
    {
      var x :| 0 <= x < |r| && r[x] == s;
      WeightAt(b, s.row as int, s.col as int);
    }
    forall i, j | OnBoard(i, j) && b[i][j] == 0
      ensures least <= Count(b, i, j)
      ensures Count(b, i, j) == least ==> Square(i as int32, j as int32, 0) in r
    {
      WeightAt(b, i, j);
      if Count(b, i, j) == least {
        var x := Listed(ws, least, cells, j * 9 + i);
        assert r[x] == SquareOf(j * 9 + i);
      }
    }
    if r == [] {
      forall i, j | OnBoard(i, j) ensures b[i][j] != 0 {
        WeightAt(b, i, j);
      }
    } else {
      WeightAt(b, r[0].row as int, r[0].col as int);
    }
  }

  /** Cell i, j of the board is weight j * 9 + i of the hint scan. */
  lemma WeightAt(b: Board, i: int, j: int)
    requires OnBoard(i, j)
    ensures 0 <= j * 9 + i < 81 && SquareOf(j * 9 + i) == Square(i as int32, j as int32, 0)
    ensures Weights(b)[j * 9 + i] == if b[i][j] == 0 then Some(Count(b, i, j)) else None
  {
    ColMajorOf(i, j);
  }

  /** Where the final scan state lists a cell of least weight. */
  lemma Listed(ws: seq<Option<int>>, least: int, cells: seq<int>, k: int) returns (x: int)
    requires 0 <= k < |ws| && LeastState(ws, |ws|, least, cells) && ws[k] == Some(least)
    ensures 0 <= x < |cells| && cells[x] == k
  {
    x :| 0 <= x < |cells| && cells[x] == k;
  }

  /** A square `getAllLegalPositions(v)` may report: an on-board cell with
      its current value, whose candidates hold v. */
  predicate LegalPosition(b: Board, v: int32, s: Square) {
    OnBoard(s.row, s.col) && s.value == b[s.row][s.col] && v in LegalValues(b, s.row, s.col)
  }

  /** The square the swap scan records for cell k: position and current value. */
  function SquareAt(b: Board, k: int): (s: Square)
    requires 0 <= k < 81
    ensures Index(s) == k && OnBoard(s.row, s.col) && s.value == b[s.row][s.col]
  {
    var p := ColMajor(k);
    Square(p.row as int32, p.col as int32, At(b, p))
  }

  /** The only square at cell k holding the cell's value. */
  lemma OnlyCell(b: Board, k: int, t: Square)
    requires 0 <= k < 81 && OnBoard(t.row, t.col) && Index(t) == k && t.value == b[t.row][t.col]
    ensures t == SquareAt(b, k)
  {
    ColMajorOf(t.row as int, t.col as int);
  }

  /** Cell k's contribution to the swap scan. */
  function PositionAt(b: Board, v: int32, k: int): (r: set<Square>)
    requires 0 <= k < 81
    ensures forall s :: s in r <==> LegalPosition(b, v, s) && Index(s) == k
  {
    var s := SquareAt(b, k);
    forall t | LegalPosition(b, v, t) && Index(t) == k ensures t == s {
      OnlyCell(b, k, t);
    }
    if v in LegalValues(b, s.row, s.col) then {s} else {}
  }

  /** The loop of `getAllLegalPositions` from cell k on. */
  function PositionsFrom(b: Board, v: int32, k: int): (r: set<Square>)
    requires 0 <= k <= 81
    ensures forall s :: s in r <==> LegalPosition(b, v, s) && k <= Index(s)
    decreases 81 - k
  {
    if k == 81 then
      forall s | LegalPosition(b, v, s) ensures Index(s) < 81 {
        ColMajorOf(s.row as int, s.col as int);
      }
      {}
    else
      PositionAt(b, v, k) + PositionsFrom(b, v, k + 1)
  }

  /** `getAllLegalPositions(v)`: every cell, filled or empty, whose candidate
      set holds v, recorded with the cell's current value. */
  function AllLegalPositions(b: Board, v: int32): (r: set<Square>)
    ensures forall s :: s in r <==> LegalPosition(b, v, s)
  {
    var r := PositionsFrom(b, v, 0);
    forall s | LegalPosition(b, v, s) ensures 0 <= Index(s) { }
    r
  }

  /** The positions of v are exactly the cells where `isLegal` accepts it, and
      there are none for a value outside 1..9. */
  lemma AllLegalPositionsAreLegal(b: Board, v: int32)
    ensures forall s :: s in AllLegalPositions(b, v) <==>
      OnBoard(s.row, s.col) && s.value == b[s.row][s.col] && 1 <= v <= 9 && IsLegal(b, s.row, s.col, v)
    ensures !(1 <= v <= 9) ==> AllLegalPositions(b, v) == {}
  {
    var r := AllLegalPositions(b, v);
    forall s ensures s in r <==>
      OnBoard(s.row, s.col) && s.value == b[s.row][s.col] && 1 <= v <= 9 && IsLegal(b, s.row, s.col, v)
    {
      if OnBoard(s.row, s.col) {
        LegalValuesAreLegal(b, s.row, s.col);
      }
    }
  }
}
