/**
  Splitting the text of a wordlist file into words, one per line, as Python's
  `str.splitlines()` does. The model recognises the three line boundaries of
  text files: "\n", "\r\n" and "\r".
 */
module Lines {

  /** A character that starts a line boundary. */
  predicate IsBreak(c: char) {
    c == '\n' || c == '\r'
  }

  /** A string that holds no line boundary, i.e. a single line. */
  predicate NoBreak(s: string) {
    forall i :: 0 <= i < |s| ==> !IsBreak(s[i])
  }

  /** Index of the first line boundary in `s`, or `|s|` when there is none. */
  function BreakIndex(s: string): (k: nat)
    ensures k <= |s|
    ensures NoBreak(s[..k])
    ensures k < |s| ==> IsBreak(s[k])
  {
    if |s| == 0 || IsBreak(s[0]) then 0
    else
      1 + BreakIndex(s[1..])
  }

  /** Number of characters taken by the boundary at `k`: "\r\n" is one boundary of two characters. */
  function BreakWidth(s: string, k: nat): nat
    requires k <= |s|
  {
    if k == |s| then 0
    else if s[k] == '\r' && k + 1 < |s| && s[k + 1] == '\n' then 2
    else 1
  }

  /**
    The lines of `s` without their boundaries. A final boundary does not
    start another line, and a blank line is kept as an empty word.
   */
  function SplitLines(s: string): (lines: seq<string>)
    ensures forall i :: 0 <= i < |lines| ==> NoBreak(lines[i])
    ensures |lines| <= |s|
    ensures |lines| == 0 <==> |s| == 0
    decreases |s|
  {
    if |s| == 0 then []
    else
      var k := BreakIndex(s);
      [s[..k]] + SplitLines(s[k + BreakWidth(s, k)..])
  }

  /** The layout of a wordlist file: every line followed by "\n". */
  function Unlines(lines: seq<string>): string {
    if |lines| == 0 then "" else lines[0] + "\n" + Unlines(lines[1..])
  }

  /** A boundary-free prefix is skipped whole by `BreakIndex`. */
  lemma {:induction false} BreakIndexAfter(a: string, t: string)
    requires NoBreak(a)
    ensures BreakIndex(a + t) == |a| + BreakIndex(t)
  {
    if |a| > 0 {
      assert (a + t)[0] == a[0];
      assert (a + t)[1..] == a[1..] + t;
      BreakIndexAfter(a[1..], t);
    } else {
      assert a + t == t;
    }
  }

  /** Writing boundary-free words one per line and splitting the text gives the words back. */
  lemma {:induction false} SplitUnlines(lines: seq<string>)
    requires forall i :: 0 <= i < |lines| ==> NoBreak(lines[i])
    ensures SplitLines(Unlines(lines)) == lines
  {
    if |lines| > 0 {
      var l := lines[0];
      var rest := Unlines(lines[1..]);
      var s := Unlines(lines);
      assert s == l + ("\n" + rest);
      BreakIndexAfter(l, "\n" + rest);
      assert BreakIndex(s) == |l|;
      assert s[..|l|] == l;
      assert s[|l|] == '\n';
      assert BreakWidth(s, |l|) == 1;
      assert s[|l| + 1..] == rest;
      SplitUnlines(lines[1..]);
      assert SplitLines(s) == [l] + lines[1..];
    }
  }

  /** A text whose only boundaries are "\n" and which is empty or ends in "\n". */
  predicate UnixText(s: string) {
    (forall i :: 0 <= i < |s| ==> s[i] != '\r') && (|s| == 0 || s[|s| - 1] == '\n')
  }

  /** Every suffix of a text in that layout that starts a line is in that layout too. */
  lemma UnixSuffix(s: string, j: nat)
    requires UnixText(s) && j <= |s|
    ensures UnixText(s[j..])
  {
    if j < |s| {
      assert s[j..][|s| - j - 1] == s[|s| - 1];
    }
  }

  /** Splitting such a text and writing the lines back reproduces it exactly. */
  lemma {:induction false} UnlinesSplit(s: string)
    requires UnixText(s)
    ensures Unlines(SplitLines(s)) == s
    decreases |s|
  {
    if |s| > 0 {
      var k := BreakIndex(s);
      assert IsBreak(s[|s| - 1]);
      assert s[k] == '\n';
      var rest := s[k + 1..];
      assert s == s[..k] + "\n" + rest;
      LineThen(s[..k], "\n", rest);
      var lines := SplitLines(s);
      assert lines[0] == s[..k] && lines[1..] == SplitLines(rest);
      UnixSuffix(s, k + 1);
      UnlinesSplit(rest);
    }
  }

  /** A line boundary: "\n", "\r\n", or a "\r" that is not followed by "\n". */
  predicate EndsLine(b: string, t: string) {
    b == "\n" || b == "\r\n" || (b == "\r" && (|t| == 0 || t[0] != '\n'))
  }

  /** Each of the three boundaries ends the line before it and is dropped. */
  lemma LineThen(a: string, b: string, t: string)
    requires NoBreak(a) && EndsLine(b, t)
    ensures SplitLines(a + b + t) == [a] + SplitLines(t)
  {
    var s := a + b + t;
    assert s == a + (b + t);
    BreakIndexAfter(a, b + t);
    assert BreakIndex(s) == |a|;
    assert s[..|a|] == a;
    assert BreakWidth(s, |a|) == |b|;
    assert s[|a| + |b|..] == t;
  }

  /** Text without a boundary is one line. */
  lemma LastLine(a: string)
    requires NoBreak(a) && |a| > 0
    ensures SplitLines(a) == [a]
  {
    BreakIndexAfter(a, "");
    assert a + "" == a;
    assert a[|a|..] == "";
  }

  /** A blank line between two words survives as an empty word. */
  lemma BlankLineKept(a: string, c: string)
    requires NoBreak(a) && NoBreak(c)
    ensures SplitLines(a + "\n\n" + c + "\n") == [a, "", c]
  {
    var words := [a, "", c];
    assert Unlines(words[2..]) == c + "\n";
    assert Unlines(words[1..]) == "\n" + c + "\n";
    assert Unlines(words) == a + "\n\n" + c + "\n";
    SplitUnlines(words);
  }

  /** "\r\n" is a single boundary and a lone "\r" ends a line too. */
  lemma MixedBoundaries(a: string, b: string, c: string)
    requires NoBreak(a) && NoBreak(b) && NoBreak(c) && |c| > 0
    ensures SplitLines(a + "\r\n" + b + "\r" + c) == [a, b, c]
  {
    LastLine(c);
    assert c[0] != '\n';
    LineThen(b, "\r", c);
    assert a + "\r\n" + b + "\r" + c == a + "\r\n" + (b + "\r" + c);
    LineThen(a, "\r\n", b + "\r" + c);
    assert [a] + ([b] + [c]) == [a, b, c];
  }
}
