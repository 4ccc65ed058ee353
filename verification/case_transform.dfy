/**
  The per-word case transforms selected by `--lower`, `--upper` and
  `--capitalize`, restricted to ASCII letters: every other character is left
  as it is.
 */
module CaseTransform {
  import opened Wrappers

  /** The three mutually exclusive case options. */
  datatype Case = Lower | Upper | Capitalize

  predicate IsUpperAscii(c: char) {
    'A' <= c <= 'Z'
  }

  predicate IsLowerAscii(c: char) {
    'a' <= c <= 'z'
  }

  function ToLower(c: char): char {
    if IsUpperAscii(c) then (c as int + 32) as char else c
  }

  function ToUpper(c: char): char {
    if IsLowerAscii(c) then (c as int - 32) as char else c
  }

  /** The case of the character at position `i` of a word under `c`. */
  function CaseAt(c: Case, i: nat, ch: char): char {
    match c
    case Lower => ToLower(ch)
    case Upper => ToUpper(ch)
    case Capitalize => if i == 0 then ToUpper(ch) else ToLower(ch)
  }

  /**
    `str.lower`, `str.upper` or `str.capitalize` on ASCII letters: the word
    keeps its length and its letters, and only their case changes.
   */
  function Apply(c: Case, w: string): (r: string)
    ensures |r| == |w|
    ensures forall i :: 0 <= i < |w| && !IsUpperAscii(w[i]) && !IsLowerAscii(w[i]) ==> r[i] == w[i]
    ensures forall i :: 0 <= i < |w| ==> ToLower(r[i]) == ToLower(w[i])
    ensures c == Lower ==> forall i :: 0 <= i < |r| ==> !IsUpperAscii(r[i])
    ensures c == Upper ==> forall i :: 0 <= i < |r| ==> !IsLowerAscii(r[i])
    ensures c == Capitalize ==> (|r| > 0 ==> !IsLowerAscii(r[0])) && forall i :: 1 <= i < |r| ==> !IsUpperAscii(r[i])
  {
    seq(|w|, i requires 0 <= i < |w| => CaseAt(c, i, w[i]))
  }

  /** Applying a case transform a second time changes nothing. */
  lemma ApplyIdempotent(c: Case, w: string)
    ensures Apply(c, Apply(c, w)) == Apply(c, w)
  {
    var once := Apply(c, w);
    var twice := Apply(c, once);
    forall i | 0 <= i < |w|
      ensures twice[i] == once[i]
    {
      assert once[i] == CaseAt(c, i, w[i]);
    }
  }

  /** Upper-casing forgets any earlier case transform. */
  lemma UpperAbsorbs(c: Case, w: string)
    ensures Apply(Upper, Apply(c, w)) == Apply(Upper, w)
  {
    var inner := Apply(c, w);
    forall i | 0 <= i < |w|
      ensures Apply(Upper, inner)[i] == Apply(Upper, w)[i]
    {
      assert inner[i] == CaseAt(c, i, w[i]);
    }
  }

  /** The transform a case option selects; without an option there is none. */
  function Selected(choice: Option<Case>): Option<string -> string>
  {
    match choice
    case None => None
    case Some(c) => Some(w => Apply(c, w))
  }
}
