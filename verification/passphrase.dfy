/**
  `generate_passphrase`: draw `length` words from the wordlist, transform
  each one, and join them with the separator. The secure random source is
  replaced by the sequence of indices it would have produced.
 */
module Passphrase {
  import opened Wrappers
  import Join

  /** `random.choice` raises on an empty sequence. */
  datatype GenError = EmptyWordlist

  /** `transform(word) if transform else word`. */
  function ApplyTransform(transform: Option<string -> string>, w: string): string {
    match transform
    case None => w
    case Some(f) => f(w)
  }

  /**
    What the random source supplies for one passphrase: at least `length`
    draws, each an index into a list of `n` words whenever there are any.
   */
  predicate ValidDraws(draws: seq<nat>, n: nat, length: int) {
    |draws| >= length && (n > 0 ==> forall k :: 0 <= k < |draws| ==> draws[k] < n)
  }

  /** The `length` words the draws pick, each transformed on its own. */
  function Emitted(wordlist: seq<string>, length: nat, transform: Option<string -> string>, draws: seq<nat>): seq<string>
    requires |wordlist| > 0 && ValidDraws(draws, |wordlist|, length)
  {
    seq(length, k requires 0 <= k < length => ApplyTransform(transform, wordlist[draws[k]]))
  }

  /**
    The passphrase the source returns for these draws: the empty string when
    `length` is not positive, an error when a word must be drawn from an empty
    list, and otherwise the transformed chosen words joined by `separator`.
   */
  function Generate(wordlist: seq<string>, length: int, separator: string,
                    transform: Option<string -> string>, draws: seq<nat>): (r: Result<string, GenError>)
    requires ValidDraws(draws, |wordlist|, length)
    ensures r.Failure? <==> length >= 1 && |wordlist| == 0
  {
    if length <= 0 then Success("")
    else if |wordlist| == 0 then Failure(EmptyWordlist)
    else Success(Join.Join(Emitted(wordlist, length, transform, draws), separator))
  }

  /** The loop of `generate_passphrase`, word by word, agrees with `Generate`. */
  method GeneratePassphrase(wordlist: seq<string>, length: int, separator: string,
                            transform: Option<string -> string>, draws: seq<nat>)
    returns (r: Result<string, GenError>)
    requires ValidDraws(draws, |wordlist|, length)
    ensures r == Generate(wordlist, length, separator, transform, draws)
  {
    var words: seq<string> := [];
    var i := 0;
    while i < length
      invariant 0 <= i <= |draws| && i <= (if length < 0 then 0 else length)
      invariant |words| == i
      invariant i > 0 ==> |wordlist| > 0
      invariant forall k :: 0 <= k < i ==> words[k] == ApplyTransform(transform, wordlist[draws[k]])
    {
      if |wordlist| == 0 {
        return Failure(EmptyWordlist);
      }
      words := words + [ApplyTransform(transform, wordlist[draws[i]])];
      i := i + 1;
    }
    if length > 0 {
      assert words == Emitted(wordlist, length, transform, draws);
    }
    return Success(Join.Join(words, separator));
  }

  /**
    The shape of a generated passphrase: the transformed chosen words laid
    out in draw order with exactly the untransformed separator between
    neighbours, as long as the words plus `length - 1` separators.
   */
  lemma GenerateShape(wordlist: seq<string>, length: int, separator: string,
                      transform: Option<string -> string>, draws: seq<nat>)
    requires ValidDraws(draws, |wordlist|, length)
    requires |wordlist| > 0 && length >= 1
    ensures var r := Generate(wordlist, length, separator, transform, draws);
            var words := Emitted(wordlist, length, transform, draws);
            && r.Success?
            && |words| == length
            && (forall k :: 0 <= k < length ==> words[k] == ApplyTransform(transform, wordlist[draws[k]]))
            && Join.Laid(r.value, words, separator)
            && |r.value| == Join.TotalLength(words) + (length - 1) * |separator|
  {
    Join.JoinLaid(Emitted(wordlist, length, transform, draws), separator);
  }

  /** Every word of a passphrase is a transformed word of the list. */
  lemma WordsFromList(wordlist: seq<string>, length: int, separator: string,
                      transform: Option<string -> string>, draws: seq<nat>, k: nat)
    requires ValidDraws(draws, |wordlist|, length)
    requires |wordlist| > 0 && k < length
    ensures var words := Emitted(wordlist, length, transform, draws);
            var r := Generate(wordlist, length, separator, transform, draws);
            && r.Success?
            && Join.Start(words, separator, k) + |words[k]| <= |r.value|
            && exists i :: 0 <= i < |wordlist| &&
                 r.value[Join.Start(words, separator, k)..Join.Start(words, separator, k) + |words[k]|]
                   == ApplyTransform(transform, wordlist[i])
  {
    GenerateShape(wordlist, length, separator, transform, draws);
    var words := Emitted(wordlist, length, transform, draws);
    var p := Generate(wordlist, length, separator, transform, draws).value;
    assert Join.WordsAt(p, words, separator);
    var i := draws[k];
    assert 0 <= i < |wordlist|;
  }

  /**
    A passphrase consumes exactly its first `length` draws: draws beyond
    them, and every draw when `length` is not positive, do not matter.
   */
  lemma UsesFirstDraws(wordlist: seq<string>, length: int, separator: string,
                       transform: Option<string -> string>, d1: seq<nat>, d2: seq<nat>)
    requires ValidDraws(d1, |wordlist|, length) && ValidDraws(d2, |wordlist|, length)
    requires length >= 0 ==> d1[..length] == d2[..length]
    ensures Generate(wordlist, length, separator, transform, d1) == Generate(wordlist, length, separator, transform, d2)
  {
    if length > 0 && |wordlist| > 0 {
      forall k | 0 <= k < length
        ensures d1[k] == d2[k]
      {
        assert d1[..length][k] == d2[..length][k];
      }
      assert Emitted(wordlist, length, transform, d1) == Emitted(wordlist, length, transform, d2);
    }
  }

  /** No words means the empty passphrase, whatever the list and the draws. */
  lemma NonPositiveLengthIsEmpty(wordlist: seq<string>, length: int, separator: string,
                                 transform: Option<string -> string>, draws: seq<nat>)
    requires length <= 0 && ValidDraws(draws, |wordlist|, length)
    ensures Generate(wordlist, length, separator, transform, draws) == Success("")
  {
  }

  /** Three words from a four-word list joined by spaces. */
  lemma ThreeWordExample()
    ensures Generate(["apple", "banana", "cherry", "date"], 3, " ", None, [0, 3, 1]) == Success("apple date banana")
  {
    var words := Emitted(["apple", "banana", "cherry", "date"], 3, None, [0, 3, 1]);
    assert words == ["apple", "date", "banana"];
    assert words[1..] == ["date", "banana"];
    assert words[1..][1..] == ["banana"];
    assert Join.Join(["banana"], " ") == "banana";
    assert Join.Join(["date", "banana"], " ") == "date banana";
    assert Join.Join(words, " ") == "apple date banana";
  }
}
