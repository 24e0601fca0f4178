/** The text forms of a `Sudoku` board: `toString` (blanks as `_`),
    `toSaveString` (blanks as `0`), and the read loop of `load`, which takes
    81 integers from a `Scanner` and stores them row by row. */
module Persistence {
  import opened Wrappers
  import opened JavaInt
  import opened Decimal
  import opened Scanner
  import opened Board

  /** One cell as both renderings print it: `blank` for 0, else the number. */
  function CellText(v: int32, blank: string): string {
    if v == 0 then blank else IntToString(v)
  }

  /** The cells of one row, each followed by a space. */
  function CellsText(cells: seq<int32>, blank: string): string
    decreases |cells|
  {
    if |cells| == 0 then "" else CellText(cells[0], blank) + " " + CellsText(cells[1..], blank)
  }

  /** The rows, each followed by a newline. */
  function RowsText(rows: seq<seq<int32>>, blank: string): string
    decreases |rows|
  {
    if |rows| == 0 then "" else CellsText(rows[0], blank) + "\n" + RowsText(rows[1..], blank)
  }

  /** `toString`: 81 tokens, row by row, `_` for an empty cell and the
      number for any other. */
  function Render(b: Board): (s: string)
    ensures |Words(s)| == 81
    ensures forall n :: 0 <= n < 81 ==>
      Words(s)[n] == if At(b, RowMajor(n)) == 0 then "_" else IntToString(At(b, RowMajor(n)))
  {
    TextTokens(b, "_");
    RowsText(b, "_")
  }

  /** `toSaveString`: 81 tokens, row by row, each the cell's number (0 for an
      empty cell). */
  function SaveString(b: Board): (s: string)
    ensures |Words(s)| == 81
    ensures forall n :: 0 <= n < 81 ==> Words(s)[n] == IntToString(At(b, RowMajor(n)))
  {
    TextTokens(b, "0");
    ZeroText();
    RowsText(b, "0")
  }

  /** 0 is written "0", so the save text writes every cell as its number. */
  lemma ZeroText()
    ensures forall v: int32 :: CellText(v, "0") == IntToString(v)
  {
  }

  /** Every character `c` of s that equals `x` replaced by `y`. */
  function Replace(s: string, x: char, y: char): (r: string)
    ensures x != y ==> x !in r
    ensures x !in s ==> r == s
  {
    seq(|s|, i requires 0 <= i < |s| => if s[i] == x then y else s[i])
  }

  lemma ReplaceConcat(s: string, t: string, x: char, y: char)
    ensures Replace(s + t, x, y) == Replace(s, x, y) + Replace(t, x, y)
  {
  }

  /** A number's text holds no underscore, so only a blank differs. */
  lemma CellRenderAsSaved(v: int32)
    ensures Replace(CellText(v, "_") + " ", '_', '0') == CellText(v, "0") + " "
  {
    ReplaceConcat(CellText(v, "_"), " ", '_', '0');
    assert Replace(" ", '_', '0') == " ";
    if v == 0 {
      assert Replace("_", '_', '0') == "0";
    } else {
      assert Replace(IntToString(v), '_', '0') == IntToString(v);
    }
  }

  lemma {:induction false} CellsRenderAsSaved(cells: seq<int32>)
    ensures Replace(CellsText(cells, "_"), '_', '0') == CellsText(cells, "0")
    decreases |cells|
  {
    if |cells| > 0 {
      CellsRenderAsSaved(cells[1..]);
      CellRenderAsSaved(cells[0]);
      ReplaceConcat(CellText(cells[0], "_") + " ", CellsText(cells[1..], "_"), '_', '0');
    }
  }

  lemma {:induction false} RowsRenderAsSaved(rows: seq<seq<int32>>)
    ensures Replace(RowsText(rows, "_"), '_', '0') == RowsText(rows, "0")
    decreases |rows|
  {
    if |rows| > 0 {
      CellsRenderAsSaved(rows[0]);
      RowsRenderAsSaved(rows[1..]);
      ReplaceConcat(CellsText(rows[0], "_") + "\n", RowsText(rows[1..], "_"), '_', '0');
      ReplaceConcat(CellsText(rows[0], "_"), "\n", '_', '0');
    }
  }

  /** `toString` and `toSaveString` differ only in how a blank is shown. */
  lemma RenderIsSaveStringWithBlanks(b: Board)
    ensures Replace(Render(b), '_', '0') == SaveString(b)
  {
    RowsRenderAsSaved(b);
  }

  /** A text for the empty cell that the tokeniser reads as one token. */
  predicate IsMarker(blank: string) {
    |blank| > 0 && NoSpace(blank)
  }

  /** The tokens a `Scanner` finds in the text of some cells. */
  function CellTokens(cells: seq<int32>, blank: string): seq<string> {
    seq(|cells|, j requires 0 <= j < |cells| => CellText(cells[j], blank))
  }

  /** The tokens of all rows, row after row. */
  function RowTokens(rows: seq<seq<int32>>, blank: string): seq<string>
    decreases |rows|
  {
    if |rows| == 0 then [] else CellTokens(rows[0], blank) + RowTokens(rows[1..], blank)
  }

  lemma CellTextIsToken(v: int32, blank: string)
    requires IsMarker(blank)
    ensures |CellText(v, blank)| > 0 && NoSpace(CellText(v, blank))
  {
    IntTextHasNoSpace(v);
  }

  lemma CellTokensCons(cells: seq<int32>, blank: string)
    requires |cells| > 0
    ensures CellTokens(cells, blank) == [CellText(cells[0], blank)] + CellTokens(cells[1..], blank)
  {
    var ts := CellTokens(cells, blank);
    var us := [CellText(cells[0], blank)] + CellTokens(cells[1..], blank);
    assert |ts| == |us|;
    forall j | 0 <= j < |ts| ensures ts[j] == us[j] {
      if j > 0 {
        assert us[j] == CellTokens(cells[1..], blank)[j - 1];
      }
    }
  }

  lemma {:induction false} CellsWords(cells: seq<int32>, blank: string, rest: string)
    requires IsMarker(blank)
    ensures Words(CellsText(cells, blank) + rest) == CellTokens(cells, blank) + Words(rest)
    decreases |cells|
  {
    if |cells| == 0 {
      assert CellsText(cells, blank) + rest == rest;
    } else {
      CellsWords(cells[1..], blank, rest);
      CellsWordsCons(cells, blank, rest);
    }
  }

  /** One induction step of `CellsWords`: the first cell, then the rest. */
  lemma CellsWordsCons(cells: seq<int32>, blank: string, rest: string)
    requires |cells| > 0 && IsMarker(blank)
    requires Words(CellsText(cells[1..], blank) + rest) == CellTokens(cells[1..], blank) + Words(rest)
    ensures Words(CellsText(cells, blank) + rest) == CellTokens(cells, blank) + Words(rest)
  {
    FirstCellWord(cells, blank, rest);
    CellTokensCons(cells, blank);
    SeqAssoc([CellText(cells[0], blank)], CellTokens(cells[1..], blank), Words(rest));
  }

  lemma FirstCellWord(cells: seq<int32>, blank: string, rest: string)
    requires |cells| > 0 && IsMarker(blank)
    ensures Words(CellsText(cells, blank) + rest)
            == [CellText(cells[0], blank)] + Words(CellsText(cells[1..], blank) + rest)
  {
    var t := CellText(cells[0], blank);
    assert CellsText(cells, blank) + rest == t + " " + (CellsText(cells[1..], blank) + rest);
    CellTextIsToken(cells[0], blank);
    WordsOfTokenThenSpace(t, " ", CellsText(cells[1..], blank) + rest);
  }

  lemma SeqAssoc<T>(x: seq<T>, y: seq<T>, z: seq<T>)
    ensures x + (y + z) == (x + y) + z
  {
  }

  lemma {:induction false} RowsWords(rows: seq<seq<int32>>, blank: string)
    requires IsMarker(blank)
    ensures Words(RowsText(rows, blank)) == RowTokens(rows, blank)
    decreases |rows|
  {
    if |rows| > 0 {
      var tail := RowsText(rows[1..], blank);
      assert RowsText(rows, blank) == CellsText(rows[0], blank) + ("\n" + tail);
      CellsWords(rows[0], blank, "\n" + tail);
      WordsSkipSpace("\n", tail);
      RowsWords(rows[1..], blank);
    }
  }

  /** Token i * 9 + j is the text of row i, column j. */
  lemma {:induction false} RowTokensAt(rows: seq<seq<int32>>, blank: string)
    requires forall i :: 0 <= i < |rows| ==> |rows[i]| == 9
    ensures |RowTokens(rows, blank)| == 9 * |rows|
    ensures forall i, j :: 0 <= i < |rows| && 0 <= j < 9 ==>
      RowTokens(rows, blank)[i * 9 + j] == CellText(rows[i][j], blank)
    decreases |rows|
  {
    if |rows| > 0 {
      RowTokensAt(rows[1..], blank);
      var ts := RowTokens(rows, blank);
      forall i, j | 0 <= i < |rows| && 0 <= j < 9
        ensures ts[i * 9 + j] == CellText(rows[i][j], blank)
      {
        RowTokensStep(rows, blank, i, j);
      }
    }
  }

  lemma RowTokensStep(rows: seq<seq<int32>>, blank: string, i: int, j: int)
    requires 0 <= i < |rows| && 0 <= j < 9
    requires forall i :: 0 <= i < |rows| ==> |rows[i]| == 9
    requires |RowTokens(rows[1..], blank)| == 9 * (|rows| - 1)
    requires forall i, j :: 0 <= i < |rows| - 1 && 0 <= j < 9 ==>
      RowTokens(rows[1..], blank)[i * 9 + j] == CellText(rows[1..][i][j], blank)
    ensures |RowTokens(rows, blank)| == 9 * |rows|
    ensures RowTokens(rows, blank)[i * 9 + j] == CellText(rows[i][j], blank)
  {
    var head := CellTokens(rows[0], blank);
    var tail := RowTokens(rows[1..], blank);
    assert RowTokens(rows, blank) == head + tail;
    if i > 0 {
      var n := (i - 1) * 9 + j;
      assert i * 9 + j == 9 + n;
      assert tail[n] == CellText(rows[1..][i - 1][j], blank);
    }
  }

  /** Both renderings hold 81 tokens, the cells' texts row by row. */
  lemma TextTokens(b: Board, blank: string)
    requires IsMarker(blank)
    ensures |Words(RowsText(b, blank))| == 81
    ensures forall n :: 0 <= n < 81 ==> Words(RowsText(b, blank))[n] == CellText(At(b, RowMajor(n)), blank)
  {
    RowsWords(b, blank);
    RowTokensAt(b, blank);
    forall n | 0 <= n < 81 ensures Words(RowsText(b, blank))[n] == CellText(At(b, RowMajor(n)), blank) {
      var p := RowMajor(n);
      assert n == p.row * 9 + p.col;
    }
  }

  /** Why the read loop stopped: no token was left (NoSuchElementException)
      or a token was not an `int` (InputMismatchException). */
  datatype LoadError = MissingToken | BadToken(token: string)

  /** The board after the read loop, and the exception that ended it early, if any. */
  datatype LoadOutcome = LoadOutcome(board: Board, error: Option<LoadError>)

  /** How many cells the read loop stores when it starts at cell k: it stops
      after cell 80, at the first missing token or at the first token that is
      not an `int`. */
  function ReadCount(words: seq<string>, k: int): (n: int)
    requires 0 <= k <= 81
    ensures k <= n <= 81
    ensures n > k ==> n <= |words|
    ensures forall m :: k <= m < n ==> NextInt(words[m]).Some?
    ensures n < 81 ==> n >= |words| || NextInt(words[n]).None?
    decreases 81 - k
  {
    if k == 81 || k >= |words| || NextInt(words[k]).None? then k else ReadCount(words, k + 1)
  }

  /** The read loop of `load` from cell k (row-major) on: each value is stored
      as soon as it is read, so an exception leaves the cells before it
      written and the rest untouched. No range check is made. */
  function LoadFrom(b: Board, words: seq<string>, k: int): (r: LoadOutcome)
    requires 0 <= k <= 81
    ensures var n := ReadCount(words, k);
      forall m :: 0 <= m < 81 ==>
        At(r.board, RowMajor(m)) == if k <= m < n then NextInt(words[m]).value else At(b, RowMajor(m))
    ensures var n := ReadCount(words, k);
      r.error == if n == 81 then None
                 else if n >= |words| then Some(MissingToken)
                 else Some(BadToken(words[n]))
    decreases 81 - k
  {
    if k == 81 then LoadOutcome(b, None)
    else if k >= |words| then LoadOutcome(b, Some(MissingToken))
    else match NextInt(words[k])
      case None => LoadOutcome(b, Some(BadToken(words[k])))
      case Some(v) =>
        var p := RowMajor(k);
        var r := LoadFrom(Write(b, p.row, p.col, v), words, k + 1);
        WriteOnlyCell(b, k, v);
        r
  }

  lemma WriteOnlyCell(b: Board, k: int, v: int32)
    requires 0 <= k < 81
    ensures forall m :: 0 <= m < 81 ==>
      At(Write(b, RowMajor(k).row, RowMajor(k).col, v), RowMajor(m)) == if m == k then v else At(b, RowMajor(m))
  {
  }

  /** The read loop of `load`, on the text of the file: cell (i, j) holds
      token i * 9 + j when the loop got that far and its old value otherwise,
      and the outcome names the exception that stopped the loop, if any. */
  function Load(b: Board, text: string): (r: LoadOutcome)
    ensures var words := Words(text);
      var n := ReadCount(words, 0);
      forall i, j :: OnBoard(i, j) ==>
        r.board[i][j] == if i * 9 + j < n then NextInt(words[i * 9 + j]).value else b[i][j]
    ensures var words := Words(text);
      var n := ReadCount(words, 0);
      r.error == if n == 81 then None
                 else if n >= |words| then Some(MissingToken)
                 else Some(BadToken(words[n]))
  {
    LoadCells(b, Words(text));
    LoadFrom(b, Words(text), 0)
  }

  /** The row-major reading of `LoadFrom`'s contract, cell by cell. */
  lemma LoadCells(b: Board, words: seq<string>)
    ensures var n := ReadCount(words, 0);
      forall i, j :: OnBoard(i, j) ==>
        LoadFrom(b, words, 0).board[i][j] == if i * 9 + j < n then NextInt(words[i * 9 + j]).value else b[i][j]
  {
    var n := ReadCount(words, 0);
    var r := LoadFrom(b, words, 0);
    forall i, j | OnBoard(i, j)
      ensures r.board[i][j] == if i * 9 + j < n then NextInt(words[i * 9 + j]).value else b[i][j]
    {
      RowMajorOf(i, j);
    }
  }

  /** `load` of a `toSaveString` text restores the saved board whatever the
      board held before, and ends without an exception. */
  lemma SaveLoadRoundTrip(prior: Board, b: Board)
    ensures Load(prior, SaveString(b)) == LoadOutcome(b, None)
  {
    SavedTokensRead(b);
    var words := Words(SaveString(b));
    var r := Load(prior, SaveString(b));
    forall i, j | OnBoard(i, j) ensures r.board[i][j] == b[i][j] {
      RowMajorOf(i, j);
      assert r.board[i][j] == NextInt(words[i * 9 + j]).value;
    }
    Extensionality(r.board, b);
  }

  /** Every token of the saved text reads back as the number it was written
      from, so the read loop takes all 81 of them. */
  lemma SavedTokensRead(b: Board)
    ensures |Words(SaveString(b))| >= 81
    ensures forall m :: 0 <= m < 81 ==> NextInt(Words(SaveString(b))[m]) == Some(At(b, RowMajor(m)))
    ensures ReadCount(Words(SaveString(b)), 0) == 81
  {
    var words := Words(SaveString(b));
    forall m | 0 <= m < 81 ensures NextInt(words[m]) == Some(At(b, RowMajor(m))) {
      NextIntRoundTrip(At(b, RowMajor(m)));
    }
  }
}
