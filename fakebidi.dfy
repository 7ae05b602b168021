/** The "fakebidi" pseudolocalization method: every maximal run of letters in
    a translatable text is wrapped in right-to-left override markers, so that
    left-to-right text renders as if it were right-to-left while each word
    stays readable. Everything that is not a letter is copied unchanged. */
module Methods {
  import opened Message

  /** RIGHT-TO-LEFT MARK */
  const RLM: char := '\U{200F}'
  /** RIGHT-TO-LEFT OVERRIDE */
  const RLO: char := '\U{202E}'
  /** POP DIRECTIONAL FORMATTING */
  const PDF: char := '\U{202C}'

  /** Letter test: the Latin-1 part of the Unicode letter categories (the
      characters below U+0100 that are letters); every other character is
      treated as a non-letter. */
  predicate IsLetter(c: char) {
    || ('A' <= c <= 'Z')
    || ('a' <= c <= 'z')
    || c == '\U{AA}' || c == '\U{B5}' || c == '\U{BA}'
    || ('\U{C0}' <= c <= '\U{D6}')
    || ('\U{D8}' <= c <= '\U{F6}')
    || ('\U{F8}' <= c <= '\U{FF}')
  }

  /** The three directional controls this method inserts. */
  predicate IsMarker(c: char) {
    c == RLM || c == RLO || c == PDF
  }

  predicate AllLetters(s: string) {
    forall i :: 0 <= i < |s| ==> IsLetter(s[i])
  }

  predicate HasLetter(s: string) {
    exists i :: 0 <= i < |s| && IsLetter(s[i])
  }

  predicate NoMarkers(s: string) {
    forall i :: 0 <= i < |s| ==> !IsMarker(s[i])
  }

  /** A word rendered right-to-left: RLM RLO <word> PDF RLM. */
  function Wrap(w: string): string {
    [RLM, RLO] + w + [PDF, RLM]
  }

  // ---------------------------------------------------------------------
  // Tokens: a text is read as words (maximal letter runs) and single
  // non-letter characters.
  // ---------------------------------------------------------------------

  datatype Token = Word(letters: string) | Other(c: char)

  /** The characters a token was read from. */
  function Spell(t: Token): string {
    match t
    case Word(w) => w
    case Other(c) => [c]
  }

  /** The characters a token is written as. */
  function Emit(t: Token): string {
    match t
    case Word(w) => Wrap(w)
    case Other(c) => [c]
  }

  function Flatten(ts: seq<Token>): string {
    if ts == [] then [] else Spell(ts[0]) + Flatten(ts[1..])
  }

  function Render(ts: seq<Token>): string {
    if ts == [] then [] else Emit(ts[0]) + Render(ts[1..])
  }

  function WordCount(ts: seq<Token>): nat {
    if ts == [] then 0 else (if ts[0].Word? then 1 else 0) + WordCount(ts[1..])
  }

  predicate TokenOk(t: Token) {
    match t
    case Word(w) => w != [] && AllLetters(w)
    case Other(c) => !IsLetter(c)
  }

  /** Every token is proper and no word is directly followed by another word,
      so that every word is a MAXIMAL run of letters. */
  predicate WellFormed(ts: seq<Token>) {
    ts == [] ||
    (TokenOk(ts[0]) && (|ts| > 1 && ts[0].Word? ==> ts[1].Other?) && WellFormed(ts[1..]))
  }

  /** Length of the run of letters that starts the text. */
  function LetterRunLength(s: string): (n: nat)
    ensures n <= |s|
    ensures AllLetters(s[..n])
    ensures n < |s| ==> !IsLetter(s[n])
  {
    if s == [] || !IsLetter(s[0]) then 0 else 1 + LetterRunLength(s[1..])
  }

  /** The scan that splits a text into words and non-letters. */
  function Tokenize(s: string): seq<Token>
    decreases |s|
  {
    if s == [] then []
    else if IsLetter(s[0]) then
      var n := LetterRunLength(s);
      [Word(s[..n])] + Tokenize(s[n..])
    else
      [Other(s[0])] + Tokenize(s[1..])
  }

  /** Tokenize reads the whole text, as maximal letter runs and single
      non-letters, and its first and last tokens are words exactly when the
      text starts, respectively ends, with a letter. */
  lemma {:induction false} TokenizeSound(s: string)
    ensures var ts := Tokenize(s);
      && WellFormed(ts)
      && Flatten(ts) == s
      && (s != [] ==> ts != [] && (ts[0].Word? <==> IsLetter(s[0])))
      && (s != [] ==> (ts[|ts| - 1].Word? <==> IsLetter(s[|s| - 1])))
    decreases |s|
  {
    if s != [] {
      var k := if IsLetter(s[0]) then LetterRunLength(s) else 1;
      var t0 := if IsLetter(s[0]) then Word(s[..k]) else Other(s[0]);
      assert Tokenize(s) == [t0] + Tokenize(s[k..]);
      TokenizeSound(s[k..]);
      TokenizeCons(s, k, t0, Tokenize(s[k..]));
    }
  }

  /** The first token read, put in front of a sound reading of the rest,
      gives a sound reading of the whole text. */
  lemma TokenizeCons(s: string, k: nat, t0: Token, rest: seq<Token>)
    requires 0 < k <= |s| && Spell(t0) == s[..k] && TokenOk(t0)
    requires t0.Word? <==> IsLetter(s[0])
    requires t0.Word? && k < |s| ==> !IsLetter(s[k])
    requires WellFormed(rest) && Flatten(rest) == s[k..]
    requires s[k..] != [] ==> rest != [] && (rest[0].Word? <==> IsLetter(s[k..][0]))
    requires s[k..] != [] ==> (rest[|rest| - 1].Word? <==> IsLetter(s[k..][|s[k..]| - 1]))
    ensures var ts := [t0] + rest;
      && WellFormed(ts)
      && Flatten(ts) == s
      && ts != [] && (ts[0].Word? <==> IsLetter(s[0]))
      && (ts[|ts| - 1].Word? <==> IsLetter(s[|s| - 1]))
  {
    var ts := [t0] + rest;
    assert ts[1..] == rest;
    assert s == s[..k] + s[k..];
    if rest != [] {
      assert ts[|ts| - 1] == rest[|rest| - 1];
      assert s[k..][|s[k..]| - 1] == s[|s| - 1];
    } else {
      assert k == |s|;
    }
  }

  /** The fakebidi transform of one translatable text. */
  function FakeBidi(s: string): string {
    Render(Tokenize(s))
  }

  // ---------------------------------------------------------------------
  // Tokenize is the only well-formed reading of a text.
  // ---------------------------------------------------------------------

  lemma {:induction false} RunOfWord(w: string, t: string)
    requires AllLetters(w)
    requires t == [] || !IsLetter(t[0])
    ensures LetterRunLength(w + t) == |w|
  {
    if w == [] {
      assert w + t == t;
    } else {
      assert (w + t)[0] == w[0];
      assert (w + t)[1..] == w[1..] + t;
      RunOfWord(w[1..], t);
    }
  }

  /** A well-formed token sequence is exactly what Tokenize reads back from
      its characters: the word boundaries of a text are determined by it. */
  lemma {:induction false} TokenizeUnique(ts: seq<Token>)
    requires WellFormed(ts)
    ensures Tokenize(Flatten(ts)) == ts
  {
    if ts != [] {
      var rest := ts[1..];
      TokenizeUnique(rest);
      var s := Flatten(ts);
      var t := Flatten(rest);
      assert s == Spell(ts[0]) + t;
      if rest != [] {
        assert t == Spell(rest[0]) + Flatten(rest[1..]);
      }
      match ts[0]
      case Other(c) =>
        assert s == [c] + t;
        assert s[0] == c && s[1..] == t;
        assert Tokenize(s) == [Other(c)] + Tokenize(t);
        assert ts == [Other(c)] + rest;
      case Word(w) =>
        RunOfWord(w, t);
        assert s[0] == w[0];
        assert s[..|w|] == w;
        assert s[|w|..] == t;
        assert Tokenize(s) == [Word(w)] + Tokenize(t);
        assert ts == [Word(w)] + rest;
    }
  }

  /** The fakebidi output of any text written as well-formed tokens: each
      maximal letter run wrapped, every non-letter emitted as it is. */
  lemma FakeBidiOfTokens(ts: seq<Token>)
    requires WellFormed(ts)
    ensures FakeBidi(Flatten(ts)) == Render(ts)
  {
    TokenizeUnique(ts);
  }

  // ---------------------------------------------------------------------
  // Sequence-append facts about tokens.
  // ---------------------------------------------------------------------

  lemma {:induction false} FlattenAppend(x: seq<Token>, y: seq<Token>)
    ensures Flatten(x + y) == Flatten(x) + Flatten(y)
  {
    if x == [] {
      assert x + y == y;
    } else {
      assert (x + y)[1..] == x[1..] + y;
      FlattenAppend(x[1..], y);
    }
  }

  lemma {:induction false} RenderAppend(x: seq<Token>, y: seq<Token>)
    ensures Render(x + y) == Render(x) + Render(y)
  {
    if x == [] {
      assert x + y == y;
    } else {
      assert (x + y)[1..] == x[1..] + y;
      RenderAppend(x[1..], y);
    }
  }

  lemma {:induction false} WordCountAppend(x: seq<Token>, y: seq<Token>)
    ensures WordCount(x + y) == WordCount(x) + WordCount(y)
  {
    if x == [] {
      assert x + y == y;
    } else {
      assert (x + y)[1..] == x[1..] + y;
      WordCountAppend(x[1..], y);
    }
  }

  /** Two well-formed readings can be joined exactly when they do not put a
      word right after a word. */
  lemma {:induction false} WellFormedAppend(x: seq<Token>, y: seq<Token>)
    ensures WellFormed(x + y) <==>
      WellFormed(x) && WellFormed(y) && !(x != [] && y != [] && x[|x| - 1].Word? && y[0].Word?)
  {
    if x != [] {
      assert (x + y)[1..] == x[1..] + y;
      WellFormedAppend(x[1..], y);
      if |x| == 1 && y != [] {
        assert (x + y)[1] == y[0];
      } else if |x| > 1 {
        assert (x + y)[1] == x[1];
        assert x[1..][|x[1..]| - 1] == x[|x| - 1];
      }
    } else {
      assert x + y == y;
    }
  }

  // ---------------------------------------------------------------------
  // Round trip: deleting the markers gives the input back.
  // ---------------------------------------------------------------------

  /** Deletes every RLM, RLO and PDF. */
  function Strip(s: string): string {
    if s == [] then []
    else (if IsMarker(s[0]) then [] else [s[0]]) + Strip(s[1..])
  }

  /** Stripping leaves no marker, never lengthens a text, and leaves a
      marker-free text as it is. */
  lemma {:induction false} StripSound(s: string)
    ensures NoMarkers(Strip(s))
    ensures |Strip(s)| <= |s|
    ensures NoMarkers(s) ==> Strip(s) == s
  {
    if s != [] {
      StripSound(s[1..]);
      var r := Strip(s);
      var h := if IsMarker(s[0]) then [] else [s[0]];
      assert r == h + Strip(s[1..]);
      forall i | 0 <= i < |r| ensures !IsMarker(r[i]) {
        if i >= |h| {
          assert r[i] == Strip(s[1..])[i - |h|];
        }
      }
      if NoMarkers(s) {
        assert NoMarkers(s[1..]) by {
          forall i | 0 <= i < |s[1..]| ensures !IsMarker(s[1..][i]) {
            assert s[1..][i] == s[i + 1];
          }
        }
        assert s == [s[0]] + s[1..];
      }
    }
  }

  lemma {:induction false} StripAppend(a: string, b: string)
    ensures Strip(a + b) == Strip(a) + Strip(b)
  {
    if a == [] {
      assert a + b == b;
    } else {
      assert (a + b)[1..] == a[1..] + b;
      StripAppend(a[1..], b);
    }
  }

  /** Wrapping adds nothing but markers. */
  lemma StripWrap(w: string)
    ensures Strip(Wrap(w)) == Strip(w)
  {
    StripAppend([RLM, RLO] + w, [PDF, RLM]);
    StripAppend([RLM, RLO], w);
    MarkersStrip(RLM, RLO);
    MarkersStrip(PDF, RLM);
    assert Wrap(w) == [RLM, RLO] + w + [PDF, RLM];
    assert Strip(Wrap(w)) == [] + Strip(w) + [];
  }

  lemma MarkersStrip(c: char, d: char)
    requires IsMarker(c) && IsMarker(d)
    ensures Strip([c, d]) == []
  {
    assert [d][1..] == [];
    assert Strip([d]) == [];
    assert [c, d][1..] == [d];
  }

  lemma {:induction false} StripRender(ts: seq<Token>)
    ensures Strip(Render(ts)) == Strip(Flatten(ts))
  {
    if ts != [] {
      StripRender(ts[1..]);
      StripAppend(Emit(ts[0]), Render(ts[1..]));
      StripAppend(Spell(ts[0]), Flatten(ts[1..]));
      if ts[0].Word? {
        StripWrap(ts[0].letters);
      }
    }
  }

  /** Deleting the markers from the output gives back the input, apart from
      markers the input itself held; in particular a marker-free input is
      restored exactly. */
  lemma FakeBidiRoundTrip(s: string)
    ensures Strip(FakeBidi(s)) == Strip(s)
    ensures NoMarkers(s) ==> Strip(FakeBidi(s)) == s
  {
    StripRender(Tokenize(s));
    TokenizeSound(s);
    StripSound(s);
  }

  // ---------------------------------------------------------------------
  // Length, and which texts are left unchanged.
  // ---------------------------------------------------------------------

  lemma {:induction false} RenderLength(ts: seq<Token>)
    ensures |Render(ts)| == |Flatten(ts)| + 4 * WordCount(ts)
  {
    if ts != [] {
      RenderLength(ts[1..]);
    }
  }

  lemma {:induction false} RenderNoWords(ts: seq<Token>)
    requires WordCount(ts) == 0
    ensures Render(ts) == Flatten(ts)
  {
    if ts != [] {
      RenderNoWords(ts[1..]);
    }
  }

  lemma HasLetterAppend(a: string, b: string)
    ensures HasLetter(a + b) <==> HasLetter(a) || HasLetter(b)
  {
    if HasLetter(a + b) {
      var i :| 0 <= i < |a + b| && IsLetter((a + b)[i]);
      if i >= |a| {
        assert b[i - |a|] == (a + b)[i];
      }
    }
    if HasLetter(a) {
      var i :| 0 <= i < |a| && IsLetter(a[i]);
      assert (a + b)[i] == a[i];
    }
    if HasLetter(b) {
      var j :| 0 <= j < |b| && IsLetter(b[j]);
      assert (a + b)[|a| + j] == b[j];
    }
  }

  /** A well-formed reading has a word exactly when its text has a letter. */
  lemma {:induction false} WordsAreLetters(ts: seq<Token>)
    requires WellFormed(ts)
    ensures HasLetter(Flatten(ts)) <==> WordCount(ts) > 0
  {
    if ts != [] {
      WordsAreLetters(ts[1..]);
      HasLetterAppend(Spell(ts[0]), Flatten(ts[1..]));
      if ts[0].Word? {
        assert IsLetter(Spell(ts[0])[0]);
      } else {
        assert !HasLetter(Spell(ts[0]));
      }
    }
  }

  /** Every letter run adds exactly four markers, so the output is never
      shorter than the input, and is longer exactly when the input has a
      letter. */
  lemma FakeBidiLength(s: string)
    ensures |FakeBidi(s)| == |s| + 4 * WordCount(Tokenize(s))
    ensures |FakeBidi(s)| >= |s|
    ensures |FakeBidi(s)| == |s| <==> !HasLetter(s)
  {
    TokenizeSound(s);
    RenderLength(Tokenize(s));
    WordsAreLetters(Tokenize(s));
  }

  /** A text with no letter (digits, spaces, punctuation only, or empty) is
      returned unchanged, and no other text is. */
  lemma FakeBidiFixpoint(s: string)
    ensures FakeBidi(s) == s <==> !HasLetter(s)
  {
    FakeBidiLength(s);
    if !HasLetter(s) {
      TokenizeSound(s);
      RenderNoWords(Tokenize(s));
    }
  }

  /** A single run of letters is wrapped once, its letters unchanged and in
      their order. */
  lemma FakeBidiWord(w: string)
    requires w != [] && AllLetters(w)
    ensures FakeBidi(w) == Wrap(w)
  {
    var ts := [Word(w)];
    assert ts[1..] == [];
    assert Flatten(ts) == w;
    FakeBidiOfTokens(ts);
  }

  // ---------------------------------------------------------------------
  // How the transform composes with concatenation.
  // ---------------------------------------------------------------------

  /** The cut between `a` and `b` is not inside a letter run. */
  predicate CleanCut(a: string, b: string) {
    a == [] || b == [] || !IsLetter(a[|a| - 1]) || !IsLetter(b[0])
  }

  /** Cut outside a word, the text can be transformed piece by piece. */
  lemma FakeBidiAppend(a: string, b: string)
    requires CleanCut(a, b)
    ensures FakeBidi(a + b) == FakeBidi(a) + FakeBidi(b)
  {
    var x, y := Tokenize(a), Tokenize(b);
    TokenizeSound(a);
    TokenizeSound(b);
    WellFormedAppend(x, y);
    FlattenAppend(x, y);
    RenderAppend(x, y);
    FakeBidiOfTokens(x + y);
  }

  /** Non-letters separate words: the text around a non-letter is
      transformed on each side independently and the non-letter is kept. */
  lemma FakeBidiSeparator(a: string, c: char, b: string)
    requires !IsLetter(c)
    ensures FakeBidi(a + [c] + b) == FakeBidi(a) + [c] + FakeBidi(b)
  {
    FakeBidiAppend(a, [c]);
    FakeBidiAppend(a + [c], b);
    assert FakeBidi([c]) == [c] by {
      assert !HasLetter([c]);
      FakeBidiFixpoint([c]);
    }
  }

  /** Cut inside a word, transforming the pieces separately wraps the two
      halves of that word apart, which is not what transforming the whole
      text does: the pieces carry one wrapped word, four markers, more. */
  lemma FakeBidiSplitWord(a: string, b: string)
    requires !CleanCut(a, b)
    ensures FakeBidi(a) + FakeBidi(b) != FakeBidi(a + b)
    ensures |FakeBidi(a) + FakeBidi(b)| == |FakeBidi(a + b)| + 4
  {
    var ts := MergedReading(a, b);
    FakeBidiOfTokens(ts);
    RenderLength(ts);
    FakeBidiLength(a);
    FakeBidiLength(b);
  }

  /** The reading of `a + b` when `a` ends and `b` starts inside one word. */
  lemma MergedReading(a: string, b: string) returns (ts: seq<Token>)
    requires !CleanCut(a, b)
    ensures WellFormed(ts) && Flatten(ts) == a + b
    ensures WordCount(ts) + 1 == WordCount(Tokenize(a)) + WordCount(Tokenize(b))
  {
    var x, y := Tokenize(a), Tokenize(b);
    TokenizeSound(a);
    TokenizeSound(b);
    var xs, wa := x[..|x| - 1], x[|x| - 1].letters;
    var wb, ys := y[0].letters, y[1..];
    assert x == xs + [Word(wa)];
    assert y == [Word(wb)] + ys;
    MergeWords(xs, wa, wb, ys);
    ts := xs + ([Word(wa + wb)] + ys);
  }

  /** Joining the last word of one reading with the first word of the next
      gives a well-formed reading of the joined text with one word fewer. */
  lemma MergeWords(xs: seq<Token>, wa: string, wb: string, ys: seq<Token>)
    requires WellFormed(xs + [Word(wa)]) && WellFormed([Word(wb)] + ys)
    ensures var ts := xs + ([Word(wa + wb)] + ys);
      && WellFormed(ts)
      && Flatten(ts) == Flatten(xs + [Word(wa)]) + Flatten([Word(wb)] + ys)
      && WordCount(ts) + 1 == WordCount(xs + [Word(wa)]) + WordCount([Word(wb)] + ys)
  {
    MergeWellFormed(xs, wa, wb, ys);
    MergeFlatten(xs, wa, wb, ys);
    MergeWordCount(xs, wa, wb, ys);
  }

  lemma MergeWellFormed(xs: seq<Token>, wa: string, wb: string, ys: seq<Token>)
    requires WellFormed(xs + [Word(wa)]) && WellFormed([Word(wb)] + ys)
    ensures WellFormed(xs + ([Word(wa + wb)] + ys))
  {
    WellFormedAppend(xs, [Word(wa)]);
    WellFormedAppend([Word(wb)], ys);
    assert TokenOk(Word(wa)) && TokenOk(Word(wb));
    assert [Word(wa)][0] == Word(wa);
    assert ([Word(wb)] + ys)[0] == Word(wb);
    var joined := [Word(wa + wb)];
    assert TokenOk(Word(wa + wb));
    assert WellFormed(joined);
    WellFormedAppend(joined, ys);
    assert (joined + ys)[0] == Word(wa + wb);
    WellFormedAppend(xs, joined + ys);
  }

  lemma MergeFlatten(xs: seq<Token>, wa: string, wb: string, ys: seq<Token>)
    ensures Flatten(xs + ([Word(wa + wb)] + ys)) == Flatten(xs + [Word(wa)]) + Flatten([Word(wb)] + ys)
  {
    var p, q := Flatten(xs), Flatten(ys);
    FlattenAppend(xs, [Word(wa)]);
    FlattenAppend([Word(wb)], ys);
    FlattenAppend([Word(wa + wb)], ys);
    FlattenAppend(xs, [Word(wa + wb)] + ys);
    assert Flatten([Word(wa)]) == wa;
    assert Flatten([Word(wb)]) == wb;
    assert Flatten([Word(wa + wb)]) == wa + wb;
    calc {
      Flatten(xs + ([Word(wa + wb)] + ys));
      p + ((wa + wb) + q);
      { Associate(wa, wb, q); }
      p + (wa + (wb + q));
      { Associate(p, wa, wb + q); }
      (p + wa) + (wb + q);
      Flatten(xs + [Word(wa)]) + Flatten([Word(wb)] + ys);
    }
  }

  lemma MergeWordCount(xs: seq<Token>, wa: string, wb: string, ys: seq<Token>)
    ensures WordCount(xs + ([Word(wa + wb)] + ys)) + 1 == WordCount(xs + [Word(wa)]) + WordCount([Word(wb)] + ys)
  {
    WordCountAppend(xs, [Word(wa)]);
    WordCountAppend([Word(wb)], ys);
    WordCountAppend([Word(wa + wb)], ys);
    WordCountAppend(xs, [Word(wa + wb)] + ys);
    assert WordCount([Word(wa)]) == 1;
    assert WordCount([Word(wb)]) == 1;
    assert WordCount([Word(wa + wb)]) == 1;
  }

  // ---------------------------------------------------------------------
  // The same transform as a two-state scan (OUTSIDE / INSIDE a word).
  // ---------------------------------------------------------------------

  /** Ends the current word: nothing when OUTSIDE, the wrapped word when INSIDE. */
  function Close(run: string): string {
    if run == [] then [] else Wrap(run)
  }

  /** Reads `s` left to right. `run` holds the letters of the word being
      read; the scanner is INSIDE a word exactly when `run` is not empty. A
      letter extends the word, a non-letter closes it and is emitted as it
      is, and the end of the text closes any open word. */
  function Scan(s: string, run: string): string
    decreases |s|
  {
    if s == [] then Close(run)
    else if IsLetter(s[0]) then Scan(s[1..], run + [s[0]])
    else Close(run) + [s[0]] + Scan(s[1..], [])
  }

  /** The first step of the transform: the leading letter run, wrapped, and
      the transform of the rest. */
  lemma FakeBidiHead(s: string)
    ensures FakeBidi(s) ==
      var n := LetterRunLength(s); Close(s[..n]) + FakeBidi(s[n..])
    ensures s != [] && !IsLetter(s[0]) ==> FakeBidi(s) == [s[0]] + FakeBidi(s[1..])
  {
    var n := LetterRunLength(s);
    if s != [] {
      var ts := Tokenize(s);
      assert ts[1..] == Tokenize(s[if IsLetter(s[0]) then n else 1..]);
      assert Render(ts) == Emit(ts[0]) + Render(ts[1..]);
      if n == 0 {
        assert s[..n] == [] && s[n..] == s;
      }
    }
  }

  /** The scan started INSIDE a word whose letters so far are `run`: it
      closes that word together with the letters that continue it, then
      goes on as the transform of the rest. Proved by induction on `s`, one
      scanner transition per step. */
  lemma {:induction false} ScanGeneral(s: string, run: string)
    requires AllLetters(run)
    ensures Scan(s, run) ==
      var n := LetterRunLength(s); Close(run + s[..n]) + FakeBidi(s[n..])
    decreases |s|
  {
    if s == [] {
      assert run + s[..0] == run;
    } else if IsLetter(s[0]) {
      // INSIDE/OUTSIDE --letter--> INSIDE: the letter joins the open word.
      var t, m := s[1..], LetterRunLength(s[1..]);
      ScanGeneral(t, run + [s[0]]);
      LetterRunStep(s);
      Associate(run, [s[0]], t[..m]);
      assert Scan(s, run) == Scan(t, run + [s[0]]);
    } else {
      // INSIDE/OUTSIDE --non-letter--> OUTSIDE: the open word is closed and
      // the non-letter is emitted as it is.
      var t := s[1..];
      ScanGeneral(t, []);
      ScanIsFakeBidiStep(t);
      FakeBidiHead(s);
      assert LetterRunLength(s) == 0;
      calc {
        Scan(s, run);
        Close(run) + [s[0]] + Scan(t, []);
        Close(run) + [s[0]] + FakeBidi(t);
        { Associate(Close(run), [s[0]], FakeBidi(t)); }
        Close(run) + FakeBidi(s);
        { assert s[..0] == [] && s[0..] == s && run + s[..0] == run; }
        Close(run + s[..0]) + FakeBidi(s[0..]);
      }
    }
  }

  lemma LetterRunStep(s: string)
    requires s != [] && IsLetter(s[0])
    ensures var n, m := LetterRunLength(s), LetterRunLength(s[1..]);
      n == m + 1 && s[..n] == [s[0]] + s[1..][..m] && s[n..] == s[1..][m..]
  {
  }

  lemma ScanIsFakeBidiStep(t: string)
    ensures var m := LetterRunLength(t); Close([] + t[..m]) + FakeBidi(t[m..]) == FakeBidi(t)
  {
    FakeBidiHead(t);
    var m := LetterRunLength(t);
    assert [] + t[..m] == t[..m];
  }

  /** The two-state scan and the token-based definition agree on every text. */
  lemma ScanIsFakeBidi(s: string)
    ensures Scan(s, []) == FakeBidi(s)
  {
    ScanGeneral(s, []);
    ScanIsFakeBidiStep(s);
  }

  // ---------------------------------------------------------------------
  // Direction seen by a first-strong-character rule.
  // ---------------------------------------------------------------------

  datatype Direction = LeftToRight | RightToLeft | Neutral

  /** Direction of the first strong character: RLM is strong right-to-left,
      letters are strong left-to-right, all else is neutral. */
  function FirstStrong(s: string): Direction {
    if s == [] then Neutral
    else if s[0] == RLM then RightToLeft
    else if IsLetter(s[0]) then LeftToRight
    else FirstStrong(s[1..])
  }

  lemma {:induction false} FirstStrongNeutral(s: string)
    requires NoMarkers(s) && !HasLetter(s)
    ensures FirstStrong(s) == Neutral
  {
    if s != [] {
      assert !IsLetter(s[0]) && !IsMarker(s[0]);
      assert forall i :: 0 <= i < |s[1..]| ==> s[1..][i] == s[i + 1];
      FirstStrongNeutral(s[1..]);
    }
  }

  /** Any output made from a text with a letter starts, as far as the
      first-strong rule sees, right-to-left; a marker-free text with no
      letter stays neutral. */
  lemma {:induction false} FakeBidiDirection(s: string)
    ensures HasLetter(s) ==> FirstStrong(FakeBidi(s)) == RightToLeft
    ensures NoMarkers(s) && !HasLetter(s) ==> FirstStrong(FakeBidi(s)) == Neutral
  {
    if NoMarkers(s) && !HasLetter(s) {
      FakeBidiFixpoint(s);
      FirstStrongNeutral(s);
    }
    if s != [] && HasLetter(s) {
      FakeBidiHead(s);
      if IsLetter(s[0]) {
        var n := LetterRunLength(s);
        assert FakeBidi(s)[0] == Wrap(s[..n])[0];
      } else {
        var r := FakeBidi(s);
        assert r == [s[0]] + FakeBidi(s[1..]);
        if s[0] != RLM {
          assert r[1..] == FakeBidi(s[1..]);
          assert HasLetter(s[1..]) by {
            var i :| 0 <= i < |s| && IsLetter(s[i]);
            assert s[1..][i - 1] == s[i];
          }
          FakeBidiDirection(s[1..]);
        }
      }
    }
  }
}
