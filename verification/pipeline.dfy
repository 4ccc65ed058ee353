/**
  The generating part of `main`: build the wordlist from the text of the
  wordlist file and the length options, then call the generator `count`
  times, keeping the passphrases in the order they were made.
 */
module Pipeline {
  import opened Wrappers
  import Lines
  import Wordlist
  import Passphrase
  import Join
  import CaseTransform

  /** `range(n)` has `n` elements when `n` is positive and none otherwise. */
  function RangeSize(n: int): nat {
    if n < 0 then 0 else n
  }

  /** The parsed options that the generating part of `main` reads. */
  datatype Options = Options(
    separator: string,
    count: int,
    length: int,
    transform: Option<string -> string>,
    min: Option<int>,
    max: Option<int>)

  /** One draw sequence for each of the first `count` calls of the generator. */
  predicate ValidBatches(batches: seq<seq<nat>>, n: nat, count: int, length: int) {
    && |batches| >= count
    && forall i :: 0 <= i < |batches| ==> Passphrase.ValidDraws(batches[i], n, length)
  }

  /**
    The count loop: `max(count, 0)` passphrases, the `i`-th made by its own
    call with the `i`-th draws, or the error of the first call that raised.
   */
  method GenerateMany(wordlist: seq<string>, count: int, length: int, separator: string,
                      transform: Option<string -> string>, batches: seq<seq<nat>>)
    returns (r: Result<seq<string>, Passphrase.GenError>)
    requires ValidBatches(batches, |wordlist|, count, length)
    ensures r.Failure? <==> count >= 1 && length >= 1 && |wordlist| == 0
    ensures r.Success? ==> |r.value| == RangeSize(count)
    ensures r.Success? ==> forall i :: 0 <= i < |r.value| ==>
              Passphrase.Generate(wordlist, length, separator, transform, batches[i]) == Success(r.value[i])
  {
    var passphrases: seq<string> := [];
    var i := 0;
    while i < count
      invariant 0 <= i <= RangeSize(count)
      invariant |passphrases| == i
      invariant i > 0 ==> length < 1 || |wordlist| > 0
      invariant forall j :: 0 <= j < i ==>
                  Passphrase.Generate(wordlist, length, separator, transform, batches[j]) == Success(passphrases[j])
    {
      var p := Passphrase.GeneratePassphrase(wordlist, length, separator, transform, batches[i]);
      if p.Failure? {
        return Failure(p.error);
      }
      passphrases := passphrases + [p.value];
      i := i + 1;
    }
    return Success(passphrases);
  }

  /**
    From the text of the wordlist file to the passphrases: generation fails
    exactly when a word has to be drawn and no line of the text passes both
    length options; otherwise there are `max(count, 0)` passphrases, each
    generated from the filtered wordlist.
   */
  method Run(text: string, options: Options, batches: seq<seq<nat>>)
    returns (r: Result<seq<string>, Passphrase.GenError>)
    requires ValidBatches(batches, |Wordlist.Build(text, options.min, options.max)|, options.count, options.length)
    ensures r.Failure? <==>
              && options.count >= 1 && options.length >= 1
              && forall w :: w in Lines.SplitLines(text) ==>
                   !(Wordlist.LongEnough(w, options.min) && Wordlist.ShortEnough(w, options.max))
    ensures r.Success? ==> |r.value| == RangeSize(options.count)
    ensures r.Success? ==> forall i :: 0 <= i < |r.value| ==>
              Passphrase.Generate(Wordlist.Build(text, options.min, options.max), options.length,
                                  options.separator, options.transform, batches[i]) == Success(r.value[i])
  {
    var wordlist := Wordlist.Build(text, options.min, options.max);
    if |wordlist| > 0 {
      assert wordlist[0] in wordlist;
    }
    r := GenerateMany(wordlist, options.count, options.length, options.separator, options.transform, batches);
  }

  /**
    Every word of a generated passphrase is the transform of a line of the
    wordlist text that passes both length options.
   */
  lemma WordsComeFromAdmittedLines(text: string, min: Option<int>, max: Option<int>, length: int,
                                   transform: Option<string -> string>, draws: seq<nat>, k: nat)
    requires |Wordlist.Build(text, min, max)| > 0
    requires Passphrase.ValidDraws(draws, |Wordlist.Build(text, min, max)|, length)
    requires k < length
    ensures exists w :: && w in Lines.SplitLines(text)
                        && Wordlist.LongEnough(w, min) && Wordlist.ShortEnough(w, max)
                        && Passphrase.Emitted(Wordlist.Build(text, min, max), length, transform, draws)[k]
                             == Passphrase.ApplyTransform(transform, w)
  {
    var wordlist := Wordlist.Build(text, min, max);
    var w := wordlist[draws[k]];
    assert w in wordlist;
  }

  /**
    A case option transforms each drawn word on its own: in the passphrase,
    every word is that option's case mapping of the drawn word, and the
    separators between the words are left as given.
   */
  lemma CaseOptionPerWord(wordlist: seq<string>, length: int, separator: string,
                          c: CaseTransform.Case, draws: seq<nat>)
    requires |wordlist| > 0 && length >= 1
    requires Passphrase.ValidDraws(draws, |wordlist|, length)
    ensures var t := CaseTransform.Selected(Some(c));
            var words := Passphrase.Emitted(wordlist, length, t, draws);
            var r := Passphrase.Generate(wordlist, length, separator, t, draws);
            && r.Success?
            && Join.Laid(r.value, words, separator)
            && |words| == length
            && (forall k :: 0 <= k < length ==> words[k] == CaseTransform.Apply(c, wordlist[draws[k]]))
            && (c == CaseTransform.Upper ==>
                  forall k, i :: 0 <= k < length && 0 <= i < |words[k]| ==> !CaseTransform.IsLowerAscii(words[k][i]))
            && (c == CaseTransform.Lower ==>
                  forall k, i :: 0 <= k < length && 0 <= i < |words[k]| ==> !CaseTransform.IsUpperAscii(words[k][i]))
  {
    var t := CaseTransform.Selected(Some(c));
    Passphrase.GenerateShape(wordlist, length, separator, t, draws);
    var words := Passphrase.Emitted(wordlist, length, t, draws);
    forall k | 0 <= k < length
      ensures words[k] == CaseTransform.Apply(c, wordlist[draws[k]])
    {
      assert words[k] == Passphrase.ApplyTransform(t, wordlist[draws[k]]);
    }
  }
}
