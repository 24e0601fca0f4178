/** `SudokuSquare`: a (row, col, value) triple used to report cells. */
module SudokuSquare {
  import opened Wrappers
  import opened JavaInt
  import opened Decimal

  /** The Java class's three public fields; the constructor
      `SudokuSquare(row, col, value)` is this datatype's constructor. */
  datatype Square = Square(row: int32, col: int32, value: int32)

  /** A Java object handed to `equals`: a square, or anything else (null included). */
  datatype JavaObject = SquareObject(square: Square) | OtherObject

  /** The no-argument constructor: every field keeps Java's default 0. */
  function Blank(): (s: Square)
    ensures s.row == 0 && s.col == 0 && s.value == 0
  {
    Square(0, 0, 0)
  }

  /** `equals`: field-wise comparison, false for anything that is not a square. */
  function Equals(s: Square, o: JavaObject): (r: bool)
    ensures r <==> o == SquareObject(s)
  {
    match o
    case SquareObject(t) => s.row == t.row && s.col == t.col && s.value == t.value
    case OtherObject => false
  }

  /** `equals` is reflexive and symmetric on squares. */
  lemma EqualsIsEquivalence(s: Square, t: Square)
    ensures Equals(s, SquareObject(s))
    ensures Equals(s, SquareObject(t)) <==> Equals(t, SquareObject(s))
  {
  }

  /** `toString`: "[r=R, c=C, v=V]", a text that loses nothing: it parses
      back to the square. */
  function ToString(s: Square): (t: string)
    ensures Parse(t) == Some(s)
  {
    FieldsParse(s);
    "[r=" + IntToString(s.row) + ", c=" + IntToString(s.col) + ", v=" + IntToString(s.value) + "]"
  }

  /** The text before the first `d` in `s` and the text after it. */
  function SplitAt(s: string, d: char): (r: Option<(string, string)>)
    ensures r.Some? ==> s == r.value.0 + [d] + r.value.1 && d !in r.value.0
    ensures r.None? ==> d !in s
    decreases |s|
  {
    if |s| == 0 then None
    else if s[0] == d then Some(([], s[1..]))
    else match SplitAt(s[1..], d)
      case Some((a, b)) => Some(([s[0]] + a, b))
      case None => None
  }

  lemma {:induction false} SplitAtFirst(a: string, d: char, rest: string)
    requires d !in a
    ensures SplitAt(a + [d] + rest, d) == Some((a, rest))
    decreases |a|
  {
    if |a| > 0 {
      assert (a + [d] + rest)[1..] == a[1..] + [d] + rest;
      SplitAtFirst(a[1..], d, rest);
      assert [a[0]] + a[1..] == a;
    } else {
      assert a + [d] + rest == [d] + rest;
    }
  }

  /** Reads `tag`, an integer, then the terminator `stop`; yields the integer
      and the remaining text. */
  function ReadField(t: string, tag: string, stop: char): Option<(int, string)>
  {
    if |tag| <= |t| && t[..|tag|] == tag then
      match SplitAt(t[|tag|..], stop)
      case Some((text, rest)) =>
        (match ParseInteger(text)
         case Some(n) => Some((n, rest))
         case None => None)
      case None => None
    else None
  }

  lemma ReadFieldOf(tag: string, n: int, stop: char, rest: string)
    requires !IsDigit(stop) && stop != '-'
    ensures ReadField(tag + IntToString(n) + [stop] + rest, tag, stop) == Some((n, rest))
  {
    var t := tag + IntToString(n) + [stop] + rest;
    assert t[..|tag|] == tag;
    assert t[|tag|..] == IntToString(n) + [stop] + rest;
    SplitAtFirst(IntToString(n), stop, rest);
    IntToStringRoundTrip(n);
  }

  /** Reads back the text `toString` produces. */
  function Parse(t: string): Option<Square>
  {
    match ReadField(t, "[r=", ',')
    case None => None
    case Some((row, t1)) =>
      match ReadField(t1, " c=", ',')
      case None => None
      case Some((col, t2)) =>
        match ReadField(t2, " v=", ']')
        case None => None
        case Some((value, t3)) =>
          if t3 == [] && InInt32Range(row) && InInt32Range(col) && InInt32Range(value)
          then Some(Square(row as int32, col as int32, value as int32))
          else None
  }

  /** The three fields of the text read back in turn. */
  lemma FieldsParse(s: Square)
    ensures Parse("[r=" + IntToString(s.row) + ", c=" + IntToString(s.col) + ", v=" + IntToString(s.value) + "]")
            == Some(s)
  {
    var r, c, v := IntToString(s.row), IntToString(s.col), IntToString(s.value);
    var t3: string := [];
    var t2 := " v=" + v + [']'] + t3;
    var t1 := " c=" + c + [','] + t2;
    assert "[r=" + r + ", c=" + c + ", v=" + v + "]" == "[r=" + r + [','] + t1;
    ReadFieldOf("[r=", s.row, ',', t1);
    ReadFieldOf(" c=", s.col, ',', t2);
    ReadFieldOf(" v=", s.value, ']', t3);
  }

  /** Distinct squares render differently. */
  lemma ToStringInjective(s: Square, t: Square)
    requires ToString(s) == ToString(t)
    ensures s == t
  {
  }
}
