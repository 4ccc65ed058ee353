/** Python's `separator.join(words)`. */
module Join {

  /** Sum of the lengths of the words. */
  function TotalLength(words: seq<string>): nat {
    if |words| == 0 then 0 else |words[0]| + TotalLength(words[1..])
  }

  /**
    The words with one copy of `sep` between each neighbouring pair: the
    result is as long as the words together plus one separator per gap.
   */
  function Join(words: seq<string>, sep: string): (r: string)
    ensures |words| == 0 ==> r == ""
    ensures |words| > 0 ==> |r| == TotalLength(words) + (|words| - 1) * |sep|
  {
    if |words| == 0 then ""
    else if |words| == 1 then words[0]
    else
      var rest := Join(words[1..], sep);
      assert (|words| - 1) * |sep| == |sep| + (|words| - 2) * |sep|;
      words[0] + sep + rest
  }

  /** Where word `k` starts in the joined string. */
  function Start(words: seq<string>, sep: string, k: nat): nat
    requires k <= |words|
  {
    if k == 0 then 0 else |words[0]| + |sep| + Start(words[1..], sep, k - 1)
  }

  /** Consecutive words are one separator apart. */
  lemma {:induction false} StartNext(words: seq<string>, sep: string, k: nat)
    requires k + 1 <= |words|
    ensures Start(words, sep, k + 1) == Start(words, sep, k) + |words[k]| + |sep|
  {
    if k > 0 {
      StartNext(words[1..], sep, k - 1);
      assert words[1..][k - 1] == words[k];
    }
  }

  /** Every word, and the separator after it when there is a next word, lies inside the joined string. */
  lemma {:induction false} StartBound(words: seq<string>, sep: string, k: nat)
    requires k < |words|
    ensures Start(words, sep, k) + |words[k]| + (if k + 1 < |words| then |sep| else 0) <= |Join(words, sep)|
  {
    if |words| > 1 {
      assert Join(words, sep) == words[0] + sep + Join(words[1..], sep);
      if k > 0 {
        StartBound(words[1..], sep, k - 1);
        assert words[1..][k - 1] == words[k];
      }
    }
  }

  /** Word `k` sits at `Start(k)` in the joined string. */
  lemma {:induction false} WordAt(words: seq<string>, sep: string, k: nat)
    requires k < |words|
    ensures Start(words, sep, k) + |words[k]| <= |Join(words, sep)|
    ensures Join(words, sep)[Start(words, sep, k)..Start(words, sep, k) + |words[k]|] == words[k]
  {
    StartBound(words, sep, k);
    var j := Join(words, sep);
    if |words| > 1 {
      var head := words[0] + sep;
      var rest := Join(words[1..], sep);
      assert j == head + rest;
      if k > 0 {
        WordAt(words[1..], sep, k - 1);
        var s := Start(words[1..], sep, k - 1);
        assert words[1..][k - 1] == words[k];
        assert j[|head| + s..|head| + s + |words[k]|] == rest[s..s + |words[k]|];
      }
    }
  }

  /** Between word `k` and word `k + 1` stands exactly the separator. */
  lemma {:induction false} SepAfter(words: seq<string>, sep: string, k: nat)
    requires k + 1 < |words|
    ensures Start(words, sep, k + 1) == Start(words, sep, k) + |words[k]| + |sep|
    ensures Start(words, sep, k + 1) <= |Join(words, sep)|
    ensures Join(words, sep)[Start(words, sep, k) + |words[k]|..Start(words, sep, k + 1)] == sep
  {
    StartNext(words, sep, k);
    StartBound(words, sep, k);
    var j := Join(words, sep);
    var head := words[0] + sep;
    var rest := Join(words[1..], sep);
    assert j == head + rest;
    if k > 0 {
      SepAfter(words[1..], sep, k - 1);
      StartNext(words[1..], sep, k - 1);
      var s := Start(words[1..], sep, k - 1);
      assert words[1..][k - 1] == words[k];
      assert j[|head| + s + |words[k]|..|head| + s + |words[k]| + |sep|] == rest[s + |words[k]|..s + |words[k]| + |sep|];
    }
  }

  /** The last word ends the joined string. */
  lemma {:induction false} JoinEnd(words: seq<string>, sep: string)
    requires |words| > 0
    ensures Start(words, sep, |words| - 1) + |words[|words| - 1]| == |Join(words, sep)|
  {
    if |words| > 1 {
      JoinEnd(words[1..], sep);
      assert words[1..][|words| - 2] == words[|words| - 1];
    }
  }

  /** Word `k` of `words` sits at `Start(k)` in `p`, for every `k`. */
  predicate WordsAt(p: string, words: seq<string>, sep: string) {
    forall k :: 0 <= k < |words| ==>
      && Start(words, sep, k) + |words[k]| <= |p|
      && p[Start(words, sep, k)..Start(words, sep, k) + |words[k]|] == words[k]
  }

  /** Every word of `words` but the last is followed in `p` directly by `sep`. */
  predicate SepsAfter(p: string, words: seq<string>, sep: string) {
    forall k :: 0 <= k < |words| - 1 ==>
      && Start(words, sep, k) + |words[k]| + |sep| <= |p|
      && p[Start(words, sep, k) + |words[k]|..Start(words, sep, k) + |words[k]| + |sep|] == sep
  }

  /**
    `p` holds the words in order, each but the last followed directly by
    `sep`, and nothing after the last word.
   */
  predicate Laid(p: string, words: seq<string>, sep: string) {
    && (|words| == 0 ==> p == "")
    && WordsAt(p, words, sep)
    && SepsAfter(p, words, sep)
    && (|words| > 0 ==> Start(words, sep, |words| - 1) + |words[|words| - 1]| == |p|)
  }

  /** The joined string is laid out as the words and separators in turn. */
  lemma JoinLaid(words: seq<string>, sep: string)
    ensures Laid(Join(words, sep), words, sep)
  {
    var j := Join(words, sep);
    forall k | 0 <= k < |words|
      ensures Start(words, sep, k) + |words[k]| <= |j|
      ensures j[Start(words, sep, k)..Start(words, sep, k) + |words[k]|] == words[k]
    {
      WordAt(words, sep, k);
    }
    forall k | 0 <= k < |words| - 1
      ensures Start(words, sep, k) + |words[k]| + |sep| <= |j|
      ensures j[Start(words, sep, k) + |words[k]|..Start(words, sep, k) + |words[k]| + |sep|] == sep
    {
      SepAfter(words, sep, k);
    }
    if |words| > 0 {
      JoinEnd(words, sep);
    }
  }

  /** A string laid out as the words and separators in turn is the joined string. */
  lemma {:induction false} LaidIsJoin(p: string, words: seq<string>, sep: string)
    requires Laid(p, words, sep)
    ensures p == Join(words, sep)
  {
    if |words| == 1 {
      assert p[0..|words[0]|] == words[0];
      assert p == p[0..|words[0]|];
    } else if |words| > 1 {
      var w := words[0];
      var h := |w| + |sep|;
      assert Start(words, sep, 0) == 0;
      assert p[..|w|] == w;
      assert p[|w|..h] == sep;
      var q := p[h..];
      LaidTail(p, words, sep);
      LaidIsJoin(q, words[1..], sep);
      assert p == p[..|w|] + p[|w|..h] + q;
    }
  }

  /** Positions in the tail of a word list are shifted by the first word and a separator. */
  lemma StartTail(words: seq<string>, sep: string, k: nat)
    requires k + 1 < |words|
    ensures Start(words, sep, k + 1) == |words[0]| + |sep| + Start(words[1..], sep, k)
    ensures words[k + 1] == words[1..][k]
  {
  }

  /** A slice of a suffix is a slice of the whole, shifted. */
  lemma SliceOfSuffix(p: string, h: nat, i: nat, j: nat)
    requires h <= |p| && i <= j && h + j <= |p|
    ensures p[h..][i..j] == p[h + i..h + j]
  {
  }

  /** The words after the first sit in the tail of `p`, shifted by the first word and a separator. */
  lemma WordsAtTail(p: string, words: seq<string>, sep: string)
    requires WordsAt(p, words, sep) && |words| > 1 && |words[0]| + |sep| <= |p|
    ensures WordsAt(p[|words[0]| + |sep|..], words[1..], sep)
  {
    var h := |words[0]| + |sep|;
    var q := p[h..];
    var rest := words[1..];
    forall k | 0 <= k < |rest|
      ensures Start(rest, sep, k) + |rest[k]| <= |q|
      ensures q[Start(rest, sep, k)..Start(rest, sep, k) + |rest[k]|] == rest[k]
    {
      StartTail(words, sep, k);
      var s := Start(rest, sep, k);
      assert Start(words, sep, k + 1) + |words[k + 1]| <= |p|;
      SliceOfSuffix(p, h, s, s + |rest[k]|);
    }
  }

  /** The separators after the first sit in the tail of `p`, shifted likewise. */
  lemma SepsAfterTail(p: string, words: seq<string>, sep: string)
    requires SepsAfter(p, words, sep) && |words| > 1 && |words[0]| + |sep| <= |p|
    ensures SepsAfter(p[|words[0]| + |sep|..], words[1..], sep)
  {
    var h := |words[0]| + |sep|;
    var q := p[h..];
    var rest := words[1..];
    forall k | 0 <= k < |rest| - 1
      ensures Start(rest, sep, k) + |rest[k]| + |sep| <= |q|
      ensures q[Start(rest, sep, k) + |rest[k]|..Start(rest, sep, k) + |rest[k]| + |sep|] == sep
    {
      StartTail(words, sep, k);
      var s := Start(rest, sep, k);
      assert Start(words, sep, k + 1) + |words[k + 1]| + |sep| <= |p|;
      SliceOfSuffix(p, h, s + |rest[k]|, s + |rest[k]| + |sep|);
    }
  }

  /** Removing the first word and its separator leaves the layout of the other words. */
  lemma LaidTail(p: string, words: seq<string>, sep: string)
    requires Laid(p, words, sep) && |words| > 1
    ensures |words[0]| + |sep| <= |p|
    ensures Laid(p[|words[0]| + |sep|..], words[1..], sep)
  {
    assert Start(words, sep, 0) == 0;
    WordsAtTail(p, words, sep);
    SepsAfterTail(p, words, sep);
    StartTail(words, sep, |words| - 2);
  }
}
