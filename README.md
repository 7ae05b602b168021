# fakebidi pseudolocalization, modelled in Dafny

This project models the "fakebidi" pseudolocalization method and the
pipeline that runs it over a message.

- **Message.** A message is a sequence of fragments. Each fragment is either
  translatable text (`SimpleTextFragment`) or fixed, non-localizable text
  such as HTML markup (`SimpleNonlocalizableTextFragment`).
- **The pipeline built for `"fakebidi"`.** It rewrites every translatable
  fragment on its own and copies every fixed fragment unchanged. It then
  joins the fragment texts in order.
- **The fakebidi transform.** It wraps every maximal run of letters as
  `U+200F U+202E <letters> U+202C U+200F`. These are RIGHT-TO-LEFT MARK,
  RIGHT-TO-LEFT OVERRIDE, the letters, POP DIRECTIONAL FORMATTING, and
  RIGHT-TO-LEFT MARK again. Left-to-right text then renders as if it were
  right-to-left, while each word stays readable. Digits, spaces and
  punctuation are copied as they are.

The behaviour modelled is the one fixed by the exact-output assertions of
`FakeBidiTest.java`. The implementation classes themselves are not modelled
(see Left out).

Files:

- `message.dfy` (module `Message`): the fragment datatype and the joining of
  fragment texts.
- `fakebidi.dfy` (module `Methods`): the transform itself.
  - `FakeBidi` reads a text as tokens (`Tokenize`): maximal letter runs and
    single non-letters. It then renders each token (`Render`).
  - `Tokenize` is proved to give the only well-formed reading of a text.
  - `Scan` is the transform written as an OUTSIDE/INSIDE word scanner. It is
    proved equal to `FakeBidi`.
  - `Strip` deletes the three markers. It gives the round trip.
  - `FirstStrong` is a first-strong-character direction rule.
- `pipeline.dfy` (module `Pipeline`): the fakebidi stage over a message
  (`Localize`, `Stage`) and the pipeline output (`Run`, and `RunString` for a
  plain string).
- `vectors.dfy` (module `FakeBidiVectors`): every input/output pair that the
  test asserts, each as a lemma.

## Model

The defining functions have no rows of their own:
- `Methods.Wrap`, `Methods.FakeBidi` and `Methods.Scan`;
- `Pipeline.Stage`, `Pipeline.Run` and `Pipeline.RunString`.

Their behaviour is given by the lemma rows below:
- `FakeBidiWord` and `FakeBidiOfTokens` for the transform;
- `ScanIsFakeBidi` for the scanner;
- `StageAt`, `RunAppend` and `RunStringIsFakeBidi` for the pipeline.

| member | source | states |
|---|---|---|
| Message.FromString | javatests/com/google/i18n/pseudolocalization/methods/FakeBidiTest.java:45-46 | a plain string becomes one translatable fragment whose text is the string |
| Message.ConcatAppend | javatests/com/google/i18n/pseudolocalization/methods/FakeBidiTest.java:76-83 | the text of two fragment lists put one after the other is their two texts in that order |
| Message.ConcatAt | javatests/com/google/i18n/pseudolocalization/methods/FakeBidiTest.java:76-83 | each fragment's text sits in the message text right after the texts of the fragments before it |
| Methods.LetterRunLength | javatests/com/google/i18n/pseudolocalization/methods/FakeBidiTest.java:64-69 | the leading run it measures consists of letters only and is maximal: the character after it, if any, is not a letter |
| Methods.TokenizeSound | javatests/com/google/i18n/pseudolocalization/methods/FakeBidiTest.java:64-69 | the reading covers the whole text in order; every word is a non-empty letter run; no word follows a word, so words are maximal; the reading starts and ends with a word exactly when the text starts and ends with a letter |
| Methods.TokenizeUnique | javatests/com/google/i18n/pseudolocalization/methods/FakeBidiTest.java:64-69 | any well-formed reading of a text is the one `Tokenize` gives, so the word boundaries are determined by the text |
| Methods.FakeBidiOfTokens | javatests/com/google/i18n/pseudolocalization/methods/FakeBidiTest.java:64-69 | for a text written as well-formed tokens, the output wraps each word and copies each non-letter |
| Methods.FakeBidiWord | javatests/com/google/i18n/pseudolocalization/methods/FakeBidiTest.java:63 | a single letter run becomes RLM RLO, the letters unchanged and in order, PDF RLM |
| Methods.FakeBidiSeparator | javatests/com/google/i18n/pseudolocalization/methods/FakeBidiTest.java:64-69 | a non-letter is copied, and the text on each side of it is transformed independently |
| Methods.FakeBidiAppend | javatests/com/google/i18n/pseudolocalization/methods/FakeBidiTest.java:64-69 | a text cut outside a word transforms piece by piece |
| Methods.FakeBidiSplitWord | javatests/com/google/i18n/pseudolocalization/methods/FakeBidiTest.java:79-87 | a text cut inside a word does not: the pieces carry one more wrapped word, four characters longer |
| Methods.StripSound | javatests/com/google/i18n/pseudolocalization/methods/FakeBidiTest.java:62-69 | deleting the markers leaves no marker, never lengthens a text, and leaves a marker-free text as it is |
| Methods.FakeBidiRoundTrip | javatests/com/google/i18n/pseudolocalization/methods/FakeBidiTest.java:62-69 | deleting the markers from the output gives the input back, up to markers the input itself held; a marker-free input is restored exactly |
| Methods.FakeBidiLength | javatests/com/google/i18n/pseudolocalization/methods/FakeBidiTest.java:62-69 | the output is the input length plus four per word: never shorter than the input, and of equal length exactly when the input has no letter |
| Methods.FakeBidiFixpoint | javatests/com/google/i18n/pseudolocalization/methods/FakeBidiTest.java:62 | a text is returned unchanged exactly when it has no letter, for example the empty text or `123` |
| Methods.ScanIsFakeBidi | javatests/com/google/i18n/pseudolocalization/methods/FakeBidiTest.java:64-69 | the OUTSIDE/INSIDE word scanner and the token definition agree on every text |
| Methods.FakeBidiDirection | javatests/com/google/i18n/pseudolocalization/methods/FakeBidiTest.java:48-50 | under the first-strong rule, the output of a text with a letter reads right-to-left, and a marker-free text without letters stays neutral |
| Pipeline.Localize | javatests/com/google/i18n/pseudolocalization/methods/FakeBidiTest.java:54-56 | the stage keeps the kind of each fragment and returns a fixed fragment as it is |
| Pipeline.StageAt | javatests/com/google/i18n/pseudolocalization/methods/FakeBidiTest.java:76-83 | the stage keeps the number and the order of the fragments; fragment i of the result is fragment i rewritten on its own; fixed fragments are unchanged |
| Pipeline.RunStringIsFakeBidi | javatests/com/google/i18n/pseudolocalization/methods/FakeBidiTest.java:46 | a plain string gives the same output as a one-fragment translatable message, namely the transform of the whole string |
| Pipeline.RunAppend | javatests/com/google/i18n/pseudolocalization/methods/FakeBidiTest.java:76-83 | fragments are handled independently: the output for two messages put one after the other is their two outputs in that order |
| Pipeline.RunKeepsFixed | javatests/com/google/i18n/pseudolocalization/methods/FakeBidiTest.java:54-57 | a fixed fragment's text appears unchanged in the output, between the outputs of the fragments before and after it |
| Pipeline.RunBetweenFixed | javatests/com/google/i18n/pseudolocalization/methods/FakeBidiTest.java:53-57 | a text between fixed start and end markup gives the start markup, then the text's own output, then the end markup |
| Pipeline.RunRoundTrip | javatests/com/google/i18n/pseudolocalization/methods/FakeBidiTest.java:62-87 | deleting the markers from the pipeline output gives the joined input text back, exactly so when the input has no markers |
| Pipeline.RunLength | javatests/com/google/i18n/pseudolocalization/methods/FakeBidiTest.java:62-87 | the pipeline output is never shorter than the joined input text |
| Pipeline.RunSplitWord | javatests/com/google/i18n/pseudolocalization/methods/FakeBidiTest.java:79-87 | a word split over two translatable fragments is not wrapped as it would be in one fragment: the scan never crosses a fragment boundary |
| Pipeline.RunStringDirection | javatests/com/google/i18n/pseudolocalization/methods/FakeBidiTest.java:48-50 | for a marker-free plain string, the output reads right-to-left under the first-strong rule exactly when the string has a letter |
| FakeBidiVectors.EmptyText | javatests/com/google/i18n/pseudolocalization/methods/FakeBidiTest.java:62 | `""` gives `""`, with no strong direction |
| FakeBidiVectors.OneLetter | javatests/com/google/i18n/pseudolocalization/methods/FakeBidiTest.java:63 | `"a"` gives U+200F U+202E `a` U+202C U+200F, which reads right-to-left |
| FakeBidiVectors.ChuckNorrisText | javatests/com/google/i18n/pseudolocalization/methods/FakeBidiTest.java:64-67 | the Chuck Norris sentence gives the expected output: six wrapped words, with the spaces and the final stop not wrapped; it reads right-to-left |
| FakeBidiVectors.Zero | javatests/com/google/i18n/pseudolocalization/methods/FakeBidiTest.java:67 | `zéro.` gives `zéro` wrapped as one word, followed by `.`: the accented letter does not end the word |
| FakeBidiVectors.HelloGoodbye | javatests/com/google/i18n/pseudolocalization/methods/FakeBidiTest.java:68-69 | `Hello 123 Goodbye!` gives the expected output, with ` 123 ` and `!` not wrapped; it reads right-to-left |
| FakeBidiVectors.NumberText | javatests/com/google/i18n/pseudolocalization/methods/FakeBidiTest.java:68-69 | `123 Goodbye!` gives `123 ` copied, digits not wrapped, followed by the wrapped `Goodbye` and `!` |
| FakeBidiVectors.EmptyLink | javatests/com/google/i18n/pseudolocalization/methods/FakeBidiTest.java:73 | an empty link text leaves only the two markup fragments |
| FakeBidiVectors.GoogleLink | javatests/com/google/i18n/pseudolocalization/methods/FakeBidiTest.java:74 | `Google` between the link markup gives the markup around the wrapped word |
| FakeBidiVectors.FiveFragments | javatests/com/google/i18n/pseudolocalization/methods/FakeBidiTest.java:76-83 | fixed, text, fixed, text, fixed gives the three fixed texts in place, with the two texts' outputs between them |
| FakeBidiVectors.ChuckNorrisLink | javatests/com/google/i18n/pseudolocalization/methods/FakeBidiTest.java:76-87 | the five-fragment message gives the expected output; the space that starts the second text is not wrapped |

## Left out

- `PseudolocalizationPipeline`, `FakeBidi` (the implementation class), `SimpleTextFragment` and `SimpleNonlocalizableTextFragment` are not part of this model. The behaviour is taken from the assertions in `FakeBidiTest.java`.
- Pipeline construction by method name (`buildPipeline`, the method registry, failure for unknown names) is left out. The pipeline is the single fixed fakebidi stage.
- `java.text.Bidi` is a library call used only as a test oracle. It is replaced by `FirstStrong`, a first-strong-character rule: RLM is strong right-to-left, a letter is strong left-to-right, and anything else is neutral. The rest of the Unicode bidirectional algorithm is not modelled.
- `Pipeline.RunStringDirection`: states right-to-left exactly for strings that have a letter. The test helper at lines 48-50 asserts right-to-left for every non-empty input. A non-empty string without letters, such as `123`, is copied unchanged and stays left-to-right under a left-to-right default. No test input exercises that case.
- `Methods.FakeBidiRoundTrip`: restores the input exactly only when the input holds no RLM, RLO or PDF itself. Deleting markers cannot tell inserted markers from ones the input already had.
- `Methods.IsLetter`: covers only the letters below U+0100 (ASCII letters, the Latin-1 letters `ª µ º`, and U+00C0-U+00FF except `×` and `÷`). Java's letter test covers all of Unicode; letters beyond U+00FF are treated as non-letters here.
- Java strings are UTF-16. Dafny `char` is a Unicode scalar value, so surrogate pairs are not modelled.
- `PseudolocalizationException` is left out, together with the JUnit harness (`setUp`, `runPipeline`) and the building of the input `ArrayList`. No failing case is exercised.
- The other pseudolocalization methods are left out. Only fakebidi appears in this source.
