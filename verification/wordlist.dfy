/**
  The wordlist that `main` builds before generating: the lines of the
  wordlist text, then an optional minimum-length filter, then an optional
  maximum-length filter. Each filter is a list comprehension guarded by the
  truthiness of its option, so an absent option and `0` both mean "no filter".
 */
module Wordlist {
  import opened Wrappers
  import Lines

  /** `a` can be obtained from `b` by deleting elements, keeping the order of the rest. */
  predicate Subseq<T(==)>(a: seq<T>, b: seq<T>)
    decreases |b|
  {
    if |a| == 0 then true
    else if |b| == 0 then false
    else (a[0] == b[0] && Subseq(a[1..], b[1..])) || Subseq(a, b[1..])
  }

  /** Every sequence is a subsequence of itself. */
  lemma {:induction false} SubseqRefl<T>(a: seq<T>)
    ensures Subseq(a, a)
  {
    if |a| > 0 {
      SubseqRefl(a[1..]);
    }
  }

  /** A subsequence of a tail is a subsequence of the whole. */
  lemma SubseqSkip<T>(a: seq<T>, b: seq<T>)
    requires |b| > 0 && Subseq(a, b[1..])
    ensures Subseq(a, b)
  {
  }

  /** Being a subsequence is transitive. */
  lemma {:induction false} SubseqTrans<T>(a: seq<T>, b: seq<T>, c: seq<T>)
    requires Subseq(a, b) && Subseq(b, c)
    ensures Subseq(a, c)
    decreases |c|
  {
    if |a| > 0 {
      assert |b| > 0 && |c| > 0;
      if b[0] == c[0] && Subseq(b[1..], c[1..]) {
        if a[0] == b[0] && Subseq(a[1..], b[1..]) {
          SubseqTrans(a[1..], b[1..], c[1..]);
        } else {
          SubseqTrans(a, b[1..], c[1..]);
        }
      } else {
        SubseqTrans(a, b, c[1..]);
      }
    }
  }

  /** A bound on the length of a word, counted in characters (Python's `len`). */
  datatype Bound = AtLeast(n: int) | AtMost(n: int)

  predicate Admits(b: Bound, w: string) {
    match b
    case AtLeast(n) => |w| >= n
    case AtMost(n) => |w| <= n
  }

  /**
    The comprehension `[w for w in words if <b holds of w>]`: the admitted
    words, each as often as it occurs, in their original order.
   */
  function Filter(words: seq<string>, b: Bound): (r: seq<string>)
    ensures Subseq(r, words)
    ensures forall w :: multiset(r)[w] == if Admits(b, w) then multiset(words)[w] else 0
    ensures forall w :: w in r <==> w in words && Admits(b, w)
  {
    if |words| == 0 then []
    else
      var rest := Filter(words[1..], b);
      assert words == [words[0]] + words[1..];
      if Admits(b, words[0]) then
        [words[0]] + rest
      else
        SubseqSkip(rest, words);
        rest
  }

  /** A list whose every word is admitted passes the filter unchanged. */
  lemma {:induction false} FilterKeepsAdmitted(words: seq<string>, b: Bound)
    requires forall i :: 0 <= i < |words| ==> Admits(b, words[i])
    ensures Filter(words, b) == words
  {
    if |words| > 0 {
      FilterKeepsAdmitted(words[1..], b);
      assert [words[0]] + words[1..] == words;
    }
  }

  /** Filtering twice by the same bound is filtering once. */
  lemma FilterIdempotent(words: seq<string>, b: Bound)
    ensures Filter(Filter(words, b), b) == Filter(words, b)
  {
    var once := Filter(words, b);
    assert forall i :: 0 <= i < |once| ==> Admits(b, once[i]) by {
      forall i | 0 <= i < |once|
        ensures Admits(b, once[i])
      {
        assert once[i] in once;
      }
    }
    FilterKeepsAdmitted(once, b);
  }

  /** Filters by two bounds commute. */
  lemma {:induction false} FilterCommute(words: seq<string>, b1: Bound, b2: Bound)
    ensures Filter(Filter(words, b1), b2) == Filter(Filter(words, b2), b1)
  {
    if |words| > 0 {
      FilterCommute(words[1..], b1, b2);
      var w := words[0];
      var f1 := Filter(words, b1);
      var f2 := Filter(words, b2);
      if Admits(b1, w) {
        assert f1[0] == w && f1[1..] == Filter(words[1..], b1);
      }
      if Admits(b2, w) {
        assert f2[0] == w && f2[1..] == Filter(words[1..], b2);
      }
    }
  }

  /** Python truthiness of an optional integer option: absent and `0` are false. */
  predicate Truthy(option: Option<int>) {
    option.Some? && option.value != 0
  }

  /** Whether a word passes the `--min` option. */
  predicate LongEnough(w: string, min: Option<int>) {
    !Truthy(min) || |w| >= min.value
  }

  /** Whether a word passes the `--max` option. */
  predicate ShortEnough(w: string, max: Option<int>) {
    !Truthy(max) || |w| <= max.value
  }

  /** The `--min` step: keep the words of at least `min` characters when `min` is truthy. */
  function ApplyMin(words: seq<string>, min: Option<int>): (r: seq<string>)
    ensures Subseq(r, words)
    ensures forall w :: multiset(r)[w] == if LongEnough(w, min) then multiset(words)[w] else 0
    ensures !Truthy(min) ==> r == words
  {
    if Truthy(min) then Filter(words, AtLeast(min.value)) else (SubseqRefl(words); words)
  }

  /** The `--max` step: keep the words of at most `max` characters when `max` is truthy. */
  function ApplyMax(words: seq<string>, max: Option<int>): (r: seq<string>)
    ensures Subseq(r, words)
    ensures forall w :: multiset(r)[w] == if ShortEnough(w, max) then multiset(words)[w] else 0
    ensures !Truthy(max) ==> r == words
  {
    if Truthy(max) then Filter(words, AtMost(max.value)) else (SubseqRefl(words); words)
  }

  /** The wordlist handed to the generator: the lines of `text`, filtered by `--min`, then by `--max`. */
  function Build(text: string, min: Option<int>, max: Option<int>): (r: seq<string>)
    ensures Subseq(r, Lines.SplitLines(text))
    ensures forall w :: multiset(r)[w] ==
                        if LongEnough(w, min) && ShortEnough(w, max) then multiset(Lines.SplitLines(text))[w] else 0
    ensures forall w :: w in r <==> w in Lines.SplitLines(text) && LongEnough(w, min) && ShortEnough(w, max)
  {
    var lines := Lines.SplitLines(text);
    var shortened := ApplyMin(lines, min);
    var r := ApplyMax(shortened, max);
    SubseqTrans(r, shortened, lines);
    r
  }

  /** Applying the `--min` step twice is applying it once. */
  lemma ApplyMinIdempotent(words: seq<string>, min: Option<int>)
    ensures ApplyMin(ApplyMin(words, min), min) == ApplyMin(words, min)
  {
    if Truthy(min) {
      FilterIdempotent(words, AtLeast(min.value));
    }
  }

  /** Applying the `--max` step twice is applying it once. */
  lemma ApplyMaxIdempotent(words: seq<string>, max: Option<int>)
    ensures ApplyMax(ApplyMax(words, max), max) == ApplyMax(words, max)
  {
    if Truthy(max) {
      FilterIdempotent(words, AtMost(max.value));
    }
  }

  /** The order of the two length steps does not matter. */
  lemma MinMaxCommute(words: seq<string>, min: Option<int>, max: Option<int>)
    ensures ApplyMax(ApplyMin(words, min), max) == ApplyMin(ApplyMax(words, max), min)
  {
    if Truthy(min) && Truthy(max) {
      FilterCommute(words, AtLeast(min.value), AtMost(max.value));
    }
  }

  /** Building the wordlist from its own result leaves it unchanged. */
  lemma BuildIdempotent(text: string, min: Option<int>, max: Option<int>)
    ensures ApplyMax(ApplyMin(Build(text, min, max), min), max) == Build(text, min, max)
  {
    var lines := Lines.SplitLines(text);
    var once := Build(text, min, max);
    MinMaxCommute(lines, min, max);
    MinMaxCommute(once, min, max);
    // once == ApplyMin(ApplyMax(lines, max), min)
    ApplyMinIdempotent(ApplyMax(lines, max), min);
    MinMaxCommute(ApplyMin(ApplyMax(lines, max), min), min, max);
    ApplyMaxIdempotent(ApplyMin(lines, min), max);
  }

  /**
    A blank line of the text stays in the wordlist as the empty word unless a
    positive `--min` or a negative `--max` removes it; in particular `--max 0`
    does not remove it.
   */
  lemma BlankWordSurvives(text: string, min: Option<int>, max: Option<int>)
    requires "" in Lines.SplitLines(text)
    ensures "" in Build(text, min, max) <==> !(Truthy(min) && min.value > 0) && !(Truthy(max) && max.value < 0)
  {
  }

  /** Without length options the wordlist is exactly the lines of the text. */
  lemma BuildUnfiltered(text: string)
    ensures Build(text, None, None) == Lines.SplitLines(text)
    ensures Build(text, Some(0), Some(0)) == Lines.SplitLines(text)
  {
  }

  /** Keeping words of at least 6 characters from "ant", "apple", "banana" leaves "banana" only. */
  lemma MinLengthExample()
    ensures ApplyMin(["ant", "apple", "banana"], Some(6)) == ["banana"]
  {
    var words := ["ant", "apple", "banana"];
    assert words[1..] == ["apple", "banana"];
    assert words[1..][1..] == ["banana"];
    assert words[1..][1..][1..] == [];
  }
}
