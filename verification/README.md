# pwgen-passphrase, modelled in Dafny

`pwgen-passphrase` prints passphrases made of words drawn at random from a
wordlist. This project models the part of its `main` program that does the work:

1. **Wordlist building.** The text of the wordlist file is split into lines,
   one word per line (`str.splitlines`). Blank lines stay in the list as empty
   words. Then an optional `--min` filter runs, then an optional `--max`
   filter. Each filter is guarded by Python truthiness, so an absent option and
   `0` both mean "no filter" (module `Lines`, module `Wordlist`).
2. **Passphrase generation.** `generate_passphrase` draws `length` words. It
   applies the optional per-word transform to each word and joins the words
   with the separator (`Passphrase`, with `Join` for `str.join`). The secure
   random source is replaced by the indices it would have produced, so
   generation is a pure function of the wordlist, the options and those draws.
   `random.choice` on an empty list raises, and this is modelled as
   `Failure(EmptyWordlist)`.
3. **The count loop.** `main` calls the generator `count` times and keeps the
   passphrases in order (`Pipeline`).

The case options `--lower`, `--upper` and `--capitalize` select a transform.
The generator treats the transform as an arbitrary function. `CaseTransform`
gives the three choices a concrete meaning restricted to ASCII letters.

Files: `wrappers.dfy` (Option, Result), `lines.dfy`, `wordlist.dfy`, `join.dfy`,
`case_transform.dfy`, `passphrase.dfy`, `pipeline.dfy`.

Three behaviours of `pwgen_passphrase/__main__.py` shape the model:

- Without `--bits` or `--stats`, an empty wordlist fails only when a word has to be drawn from it (line 34).
- A length of zero or less gives the empty passphrase (lines 33 and 36).
- Duplicate lines stay in the list (lines 85-95).

## Model

| member | source | states |
|---|---|---|
| `Lines.SplitLines` | pwgen_passphrase/__main__.py:84-89 | no line contains a line boundary; there are at most as many lines as characters; and the text is empty exactly when there are no lines |
| `Lines.SplitUnlines` | pwgen_passphrase/__main__.py:84-89 | writing boundary-free words one per line and splitting the text gives back exactly those words, blank ones included |
| `Lines.UnlinesSplit` | pwgen_passphrase/__main__.py:84-89 | a text that uses only "\n" and ends with it is reproduced exactly by splitting it and writing the lines back |
| `Lines.LineThen` | pwgen_passphrase/__main__.py:84-89 | each of "\n", "\r\n" and a lone "\r" ends the line before it and is dropped from the words |
| `Lines.LastLine` | pwgen_passphrase/__main__.py:84-89 | a non-empty text with no boundary, such as a final line without a terminator, is one line; with `LineThen` this fixes the result of splitting every text |
| `Lines.BlankLineKept` | pwgen_passphrase/__main__.py:84-89 | an empty line between two words becomes an empty word in the list |
| `Lines.MixedBoundaries` | pwgen_passphrase/__main__.py:84-89 | "\r\n" counts as one boundary, not two, while a lone "\r" also ends a line |
| `Wordlist.Filter` | pwgen_passphrase/__main__.py:91-95 | a filtering comprehension returns an order-preserving subsequence of its input; every admitted word occurs in it as often as in the input, and no other word occurs in it |
| `Wordlist.FilterKeepsAdmitted` | pwgen_passphrase/__main__.py:91-95 | a list whose every word passes the bound is returned unchanged |
| `Wordlist.FilterIdempotent` | pwgen_passphrase/__main__.py:91-95 | filtering twice by the same bound equals filtering once |
| `Wordlist.FilterCommute` | pwgen_passphrase/__main__.py:91-95 | filters by two bounds give the same list in either order |
| `Wordlist.ApplyMin` | pwgen_passphrase/__main__.py:91-92 | the `--min` step keeps, in order and with multiplicity, exactly the words of at least `min` characters; when `min` is absent or 0 the list is unchanged |
| `Wordlist.ApplyMax` | pwgen_passphrase/__main__.py:94-95 | the `--max` step keeps, in order and with multiplicity, exactly the words of at most `max` characters; when `max` is absent or 0 (`--max 0`) the list is unchanged |
| `Wordlist.Build` | pwgen_passphrase/__main__.py:84-95 | the wordlist is an order-preserving subsequence of the lines of the text; it holds each line that passes both options as often as the text does, and nothing else |
| `Wordlist.ApplyMinIdempotent` | pwgen_passphrase/__main__.py:91-92 | applying the `--min` step twice equals applying it once |
| `Wordlist.ApplyMaxIdempotent` | pwgen_passphrase/__main__.py:94-95 | applying the `--max` step twice equals applying it once |
| `Wordlist.MinMaxCommute` | pwgen_passphrase/__main__.py:91-95 | running the `--max` step before the `--min` step gives the same wordlist |
| `Wordlist.BuildIdempotent` | pwgen_passphrase/__main__.py:84-95 | filtering the built wordlist again by the same options changes nothing |
| `Wordlist.BlankWordSurvives` | pwgen_passphrase/__main__.py:84-95 | a blank line stays in the wordlist as the empty word unless `--min` is positive or `--max` is negative |
| `Wordlist.BuildUnfiltered` | pwgen_passphrase/__main__.py:84-95 | without length options, or with both set to 0, the wordlist is exactly the lines of the text |
| `Wordlist.MinLengthExample` | pwgen_passphrase/__main__.py:91-92 | with `--min 6`, "ant", "apple", "banana" filters to "banana" alone |
| `Join.Join` | pwgen_passphrase/__main__.py:36 | joining no words gives the empty string; otherwise the length is the words' total length plus one separator per gap |
| `Join.JoinLaid` | pwgen_passphrase/__main__.py:36 | the joined string holds the words in order, each at its computed start, with exactly one separator between neighbours and nothing after the last word |
| `Join.LaidIsJoin` | pwgen_passphrase/__main__.py:36 | a string laid out that way is the joined string, so the layout characterises `str.join` completely |
| `CaseTransform.Apply` | pwgen_passphrase/__main__.py:67-73 | a case transform keeps the word's length and its letters up to case, and leaves other characters alone; lower leaves no upper-case letter, upper leaves no lower-case letter, and capitalize leaves an upper-case first letter and lower-case letters after it |
| `CaseTransform.ApplyIdempotent` | pwgen_passphrase/__main__.py:67-73 | applying a case transform again changes nothing |
| `CaseTransform.UpperAbsorbs` | pwgen_passphrase/__main__.py:67-73 | upper-casing after any case transform is the same as upper-casing the original word |
| `Passphrase.Generate` | pwgen_passphrase/__main__.py:30-36 | generation fails exactly when at least one word must be drawn from an empty wordlist |
| `Passphrase.GeneratePassphrase` | pwgen_passphrase/__main__.py:30-36 | the word-by-word loop that appends the transformed choices and joins them gives the passphrase `Generate` defines, or the same error |
| `Passphrase.GenerateShape` | pwgen_passphrase/__main__.py:32-36 | with a non-empty list and `length >= 1`, the passphrase holds `length` words in draw order, where word `k` is the transform of `wordlist[draws[k]]`; neighbouring words are separated by exactly one untransformed separator, and the length is the words' total length plus `(length - 1)` separators |
| `Passphrase.WordsFromList` | pwgen_passphrase/__main__.py:34-35 | each word in a passphrase is the transform of some word of the list at a valid index |
| `Passphrase.UsesFirstDraws` | pwgen_passphrase/__main__.py:33-34 | a passphrase depends only on its first `length` draws, and on no draw at all when `length` is not positive |
| `Passphrase.NonPositiveLengthIsEmpty` | pwgen_passphrase/__main__.py:32-36 | a length of zero or less gives the empty passphrase, even for an empty wordlist |
| `Passphrase.ThreeWordExample` | pwgen_passphrase/__main__.py:30-36 | drawing indices 0, 3, 1 from "apple", "banana", "cherry", "date" with a space separator gives "apple date banana" |
| `Pipeline.GenerateMany` | pwgen_passphrase/__main__.py:100-103 | the count loop yields `max(count, 0)` passphrases in order, where the `i`-th is what a separate generator call with the `i`-th draws returns; it fails exactly when `count` and `length` are positive and the wordlist is empty |
| `Pipeline.Run` | pwgen_passphrase/__main__.py:84-103 | from file text to passphrases: failure happens exactly when a word must be drawn and no line passes both length options; otherwise there are `max(count, 0)` passphrases generated from the filtered wordlist |
| `Pipeline.CaseOptionPerWord` | pwgen_passphrase/__main__.py:67-73 | with a case option given, each word laid out in the passphrase is that option's case mapping of the drawn word, while the separators between words stay untransformed; under `--upper` no word holds a lower-case ASCII letter, and under `--lower` no word holds an upper-case one |
| `Pipeline.WordsComeFromAdmittedLines` | pwgen_passphrase/__main__.py:84-102 | every word of a generated passphrase is the transform of a line of the wordlist text that passes both length options |

## Left out

- Option parsing with `argparse`, including its mutually exclusive groups (`__main__.py:40-82`). This is command-line plumbing; `Pipeline.Options` holds the parsed values.
- Opening and reading the built-in or external wordlist file (`__main__.py:84-89`). This is I/O, and the model starts from the file's text.
- Lines.SplitLines: recognises only "\n", "\r\n" and "\r" as line boundaries. Python's `str.splitlines` also splits on "\v", "\f", "\x1c" to "\x1e", "\x85", U+2028 and U+2029. The model leaves those out to keep to the boundaries a text file uses. Python's text-mode read also translates "\r\n" and "\r" to "\n" before the split; since splitting treats all three alike, that translation is not modelled separately.
- The secure random source `random.SystemRandom` (`__main__.py:7`). It is replaced by injected index sequences. Uniformity and unpredictability of the draws are properties of the operating system's entropy source and cannot be stated here.
- Sizing by `--bits` (`__main__.py:97-98`). It uses floating-point `log2`, division and `ceil`, and its result at exact boundaries depends on rounding. The model takes the word count as given. The `ValueError` that `log2` raises for an empty wordlist and the `ZeroDivisionError` at line 98 for a one-word list (`log2(1)` is 0) are not modelled either.
- Statistics (`__main__.py:106-125`). These are floating-point entropy figures and `round`, used only for printing. Their failures are not modelled: with `--stats`, line 107 raises `ValueError` for an empty wordlist even when nothing is drawn, and line 118 raises `ZeroDivisionError` when `count <= 0`. So under `--stats` the program fails where `Pipeline.Run` returns a result.
- Printing each passphrase (`__main__.py:104`) and copying to the clipboard through PyQt (`__main__.py:12-27`, `127-128`). These are user interface and I/O.
- CaseTransform.Apply: maps only ASCII letters, while `str.lower`, `str.upper` and `str.capitalize` use the full Unicode case tables. The generator itself does not depend on this, because it accepts any transform function.
- `setup.py`: packaging metadata, with no logic.
