/** The part of `java.util.Scanner` that the puzzle loader uses: splitting the
    input into whitespace-separated tokens and reading each one with `nextInt`. */
module Scanner {
  import opened Wrappers
  import opened JavaInt
  import opened Decimal

  /** The ASCII characters Java counts as whitespace (the default delimiter). */
  predicate IsSpace(c: char) {
    c == ' ' || c == '\t' || c == '\n' || c == '\r'
    || c as int == 0x0B || c as int == 0x0C || 0x1C <= c as int <= 0x1F
  }

  predicate NoSpace(s: string) {
    forall i :: 0 <= i < |s| ==> !IsSpace(s[i])
  }

  predicate AllSpace(s: string) {
    forall i :: 0 <= i < |s| ==> IsSpace(s[i])
  }

  /** Length of the run of non-whitespace characters that starts `s`. */
  function TokenLength(s: string): (n: nat)
    ensures n <= |s|
    ensures NoSpace(s[..n])
    ensures n < |s| ==> IsSpace(s[n])
    decreases |s|
  {
    if |s| == 0 || IsSpace(s[0]) then 0
    else
      var n := 1 + TokenLength(s[1..]);
      assert s[..n] == [s[0]] + s[1..][..n - 1];
      n
  }

  /** The tokens successive `next` calls return: maximal runs of non-whitespace. */
  function Words(s: string): (ws: seq<string>)
    ensures forall i :: 0 <= i < |ws| ==> |ws[i]| > 0 && NoSpace(ws[i])
    decreases |s|
  {
    if |s| == 0 then []
    else if IsSpace(s[0]) then Words(s[1..])
    else
      var n := TokenLength(s);
      [s[..n]] + Words(s[n..])
  }

  /** `nextInt` on one token: a signed decimal that fits a Java `int`.
      A token outside that range raises InputMismatchException. */
  function NextInt(token: string): (r: Option<int32>)
    ensures r.Some? <==> ParseInteger(token).Some? && InInt32Range(ParseInteger(token).value)
    ensures r.Some? ==> r.value == ParseInteger(token).value
  {
    match ParseInteger(token)
    case Some(n) => if MinInt <= n <= MaxInt then Some(n as int32) else None
    case None => None
  }

  /** The text of a Java `int` is read back by `nextInt` as the same value. */
  lemma NextIntRoundTrip(n: int32)
    ensures NextInt(IntToString(n)) == Some(n)
  {
    IntToStringRoundTrip(n);
  }

  /** Leading whitespace is skipped. */
  lemma {:induction false} WordsSkipSpace(sp: string, rest: string)
    requires AllSpace(sp)
    ensures Words(sp + rest) == Words(rest)
    decreases |sp|
  {
    if |sp| > 0 {
      assert (sp + rest)[1..] == sp[1..] + rest;
      WordsSkipSpace(sp[1..], rest);
    } else {
      assert sp + rest == rest;
    }
  }

  lemma {:induction false} TokenLengthOfToken(t: string, rest: string)
    requires NoSpace(t)
    requires |rest| == 0 || IsSpace(rest[0])
    ensures TokenLength(t + rest) == |t|
    decreases |t|
  {
    if |t| > 0 {
      assert (t + rest)[1..] == t[1..] + rest;
      TokenLengthOfToken(t[1..], rest);
    } else {
      assert t + rest == rest;
    }
  }

  /** A token followed by whitespace (or the end) is returned whole. */
  lemma WordsOfToken(t: string, rest: string)
    requires |t| > 0 && NoSpace(t)
    requires |rest| == 0 || IsSpace(rest[0])
    ensures Words(t + rest) == [t] + Words(rest)
  {
    TokenLengthOfToken(t, rest);
    var s := t + rest;
    assert s[..|t|] == t;
    assert s[|t|..] == rest;
  }

  /** Whitespace-separated tokens are split back exactly: `t + sep + rest` yields
      `t` and then the tokens of `rest`. */
  lemma WordsOfTokenThenSpace(t: string, sep: string, rest: string)
    requires |t| > 0 && NoSpace(t)
    requires |sep| > 0 && AllSpace(sep)
    ensures Words(t + sep + rest) == [t] + Words(rest)
  {
    assert t + sep + rest == t + (sep + rest);
    WordsOfToken(t, sep + rest);
    WordsSkipSpace(sep, rest);
  }

  /** Integer text never contains whitespace. */
  lemma IntTextHasNoSpace(n: int)
    ensures |IntToString(n)| > 0 && NoSpace(IntToString(n))
  {
  }
}
