/** The input/output pairs that FakeBidiTest asserts for the pipeline built
    for "fakebidi", stated as lemmas about the model. Each text is taken
    apart one non-letter at a time (WordStep, OtherStep, LastWord). Each
    suffix of a text has a lemma of its own (PeutText, DiviserText, ...)
    over strings named by its parameters, and its output is named by a small
    function (PeutOut, DiviserOut, ...). The outputs are compared with the
    test's expected literals one literal line at a time. */
module FakeBidiVectors {
  import opened Message
  import opened Methods
  import opened Pipeline

  const HtmlStart: string := "<a href=\"http://google.com/\">"
  const HtmlEnd: string := "</a>"

  const ChuckAnchor: string := "<a href=\"http://chucknorrisfacts.fr/\">"
  const ChuckStart: string := ChuckAnchor + "<strong>"
  const ChuckMiddle: string := "</strong>"

  // ---------------------------------------------------------------------
  // Plain strings.
  // ---------------------------------------------------------------------

  /** The empty string is left empty, and has no strong character, so a
      left-to-right default reads it left-to-right. */
  lemma EmptyText()
    ensures RunString("") == ""
    ensures FirstStrong(RunString("")) == Neutral
  {
    RunStringIsFakeBidi("");
    FakeBidiFixpoint("");
    FirstStrongNeutral("");
  }

  /** A one-letter string is one wrapped word, read right-to-left. */
  lemma OneLetter()
    ensures RunString("a") == "\U{200F}\U{202E}a\U{202C}\U{200F}"
    ensures FirstStrong(RunString("a")) == RightToLeft
  {
    RunStringIsFakeBidi("a");
    FakeBidiWord("a");
    Strong("a");
  }

  /** Six words separated by spaces and closed by a full stop, one of them
      with an accented letter: six wrapped words, spaces and stop unwrapped;
      the output reads right-to-left. */
  lemma ChuckNorrisText()
    ensures RunString("Chuck Norris peut diviser par z\U{E9}ro.") ==
      "\U{200F}\U{202E}Chuck\U{202C}\U{200F} \U{200F}\U{202E}Norris\U{202C}\U{200F} "
      + "\U{200F}\U{202E}peut\U{202C}\U{200F} \U{200F}\U{202E}diviser\U{202C}\U{200F} "
      + "\U{200F}\U{202E}par\U{202C}\U{200F} \U{200F}\U{202E}z\U{E9}ro\U{202C}\U{200F}."
    ensures FirstStrong(RunString("Chuck Norris peut diviser par z\U{E9}ro.")) == RightToLeft
  {
    ChuckNorrisRun("Chuck Norris peut diviser par z\U{E9}ro.");
    TextLines();
    Strong("Chuck Norris peut diviser par z\U{E9}ro.");
  }

  lemma ChuckNorrisRun(s: string)
    requires s == "Chuck Norris peut diviser par z\U{E9}ro."
    ensures RunString(s) == NameOut() + SentenceOut()
  {
    RunStringIsFakeBidi(s);
    WholeSentence(s, "Chuck Norris", " peut diviser par z\U{E9}ro.");
  }

  /** Words around a number: the digits and the spaces around them stay
      outside every wrapped word; the output reads right-to-left. */
  lemma HelloGoodbye()
    ensures RunString("Hello 123 Goodbye!") ==
      "\U{200F}\U{202E}Hello\U{202C}\U{200F} 123 \U{200F}\U{202E}Goodbye\U{202C}\U{200F}!"
    ensures FirstStrong(RunString("Hello 123 Goodbye!")) == RightToLeft
  {
    HelloRun("Hello 123 Goodbye!");
    HelloLine();
    Strong("Hello 123 Goodbye!");
  }

  lemma HelloRun(s: string)
    requires s == "Hello 123 Goodbye!"
    ensures RunString(s) == HelloOut()
  {
    RunStringIsFakeBidi(s);
    HelloText(s, "123 Goodbye!", "Goodbye!");
  }

  // ---------------------------------------------------------------------
  // Translatable text between fixed markup.
  // ---------------------------------------------------------------------

  /** An empty link text: only the markup is left. */
  lemma EmptyLink()
    ensures Run([Fixed(HtmlStart), Translatable(""), Fixed(HtmlEnd)]) == HtmlStart + "" + HtmlEnd
  {
    RunBetweenFixed(HtmlStart, "", HtmlEnd);
    EmptyText();
  }

  /** A one-word link text is wrapped inside the untouched markup. */
  lemma GoogleLink()
    ensures Run([Fixed(HtmlStart), Translatable("Google"), Fixed(HtmlEnd)]) ==
      HtmlStart + "\U{200F}\U{202E}Google\U{202C}\U{200F}" + HtmlEnd
  {
    RunBetweenFixed(HtmlStart, "Google", HtmlEnd);
    GoogleText("Google");
  }

  lemma GoogleText(s: string)
    requires s == "Google"
    ensures RunString(s) == "\U{200F}\U{202E}Google\U{202C}\U{200F}"
  {
    RunStringIsFakeBidi(s);
    GoogleWord(s);
    GoogleLine();
  }

  lemma GoogleWord(s: string)
    requires s == "Google"
    ensures FakeBidi(s) == Wrap("Google")
  {
    FakeBidiWord(s);
  }

  /** Five fragments: fixed markup, a two-word name, a closing tag, a
      sentence that starts with a space, and a closing tag. Every fixed
      fragment is kept in place; the space after the closing tag is not
      wrapped, since the second text is scanned on its own. */
  lemma ChuckNorrisLink()
    ensures Run([Fixed(ChuckStart), Translatable("Chuck Norris"), Fixed(ChuckMiddle),
                 Translatable(" peut diviser par z\U{E9}ro."), Fixed(HtmlEnd)]) ==
      "<a href=\"http://chucknorrisfacts.fr/\">"
      + "<strong>\U{200F}\U{202E}Chuck\U{202C}\U{200F} \U{200F}\U{202E}Norris\U{202C}\U{200F}</strong> "
      + "\U{200F}\U{202E}peut\U{202C}\U{200F} \U{200F}\U{202E}diviser\U{202C}\U{200F} "
      + "\U{200F}\U{202E}par\U{202C}\U{200F} \U{200F}\U{202E}z\U{E9}ro\U{202C}\U{200F}.</a>"
  {
    ChuckNorrisLinkRun("Chuck Norris", " peut diviser par z\U{E9}ro.");
    LinkLines();
  }

  lemma ChuckNorrisLinkRun(name: string, sentence: string)
    requires name == "Chuck Norris" && sentence == " peut diviser par z\U{E9}ro."
    ensures Run([Fixed(ChuckStart), Translatable(name), Fixed(ChuckMiddle),
                 Translatable(sentence), Fixed(HtmlEnd)]) ==
      ChuckStart + NameOut() + ChuckMiddle + SentenceOut() + HtmlEnd
  {
    FiveFragments(ChuckStart, name, ChuckMiddle, sentence, HtmlEnd);
    NameText(name);
    SentenceText(sentence, "peut diviser par z\U{E9}ro.");
  }

  /** The pipeline over fixed, text, fixed, text, fixed. */
  lemma FiveFragments(a: string, b: string, c: string, d: string, e: string)
    ensures Run([Fixed(a), Translatable(b), Fixed(c), Translatable(d), Fixed(e)]) ==
      a + FakeBidi(b) + c + FakeBidi(d) + e
  {
    var m := [Fixed(a), Translatable(b), Fixed(c), Translatable(d), Fixed(e)];
    assert m == [Fixed(a), Translatable(b)] + [Fixed(c), Translatable(d), Fixed(e)];
    RunAppend([Fixed(a), Translatable(b)], [Fixed(c), Translatable(d), Fixed(e)]);
    RunBetweenFixed(a, b, "");
    assert [Fixed(a), Translatable(b), Fixed("")] == [Fixed(a), Translatable(b)] + [Fixed("")];
    RunAppend([Fixed(a), Translatable(b)], [Fixed("")]);
    assert Run([Fixed("")]) == "";
    RunBetweenFixed(c, d, e);
    RunStringIsFakeBidi(b);
    RunStringIsFakeBidi(d);
  }

  // ---------------------------------------------------------------------
  // The expected outputs, named piece by piece.
  // ---------------------------------------------------------------------

  function NameOut(): string { Wrap("Chuck") + " " + Wrap("Norris") }
  function ZeroOut(): string { Wrap("z\U{E9}ro") + "." }
  function ParOut(): string { Wrap("par") + " " + ZeroOut() }
  function DiviserOut(): string { Wrap("diviser") + " " + ParOut() }
  function PeutOut(): string { Wrap("peut") + " " + DiviserOut() }
  function SentenceOut(): string { " " + PeutOut() }
  function GoodbyeOut(): string { Wrap("Goodbye") + "!" }
  function NumberOut(): string { "123 " + GoodbyeOut() }
  function HelloOut(): string { Wrap("Hello") + " " + NumberOut() }

  // ---------------------------------------------------------------------
  // The translatable texts, one non-letter at a time.
  // ---------------------------------------------------------------------

  /** The whole sentence, cut before the space that follows the name. */
  lemma WholeSentence(s: string, a: string, b: string)
    requires s == "Chuck Norris peut diviser par z\U{E9}ro."
    requires a == "Chuck Norris" && b == " peut diviser par z\U{E9}ro."
    ensures FakeBidi(s) == NameOut() + SentenceOut()
  {
    Cut(s, a, b);
    NameText(a);
    SentenceText(b, "peut diviser par z\U{E9}ro.");
  }

  /** The two-word name. */
  lemma NameText(s: string)
    requires s == "Chuck Norris"
    ensures FakeBidi(s) == NameOut()
  {
    WordStep(s, "Chuck", ' ', "Norris");
    Norris("Norris");
  }

  lemma Norris(s: string)
    requires s == "Norris"
    ensures FakeBidi(s) == Wrap("Norris")
  {
    FakeBidiWord(s);
  }

  /** The sentence after the name: a leading space, then four words. */
  lemma SentenceText(s: string, t: string)
    requires s == " peut diviser par z\U{E9}ro." && t == "peut diviser par z\U{E9}ro."
    ensures FakeBidi(s) == SentenceOut()
  {
    LeadingSpace(s, t);
    PeutText(t, "diviser par z\U{E9}ro.", "par z\U{E9}ro.", "z\U{E9}ro.");
  }

  lemma LeadingSpace(s: string, t: string)
    requires s == " peut diviser par z\U{E9}ro." && t == "peut diviser par z\U{E9}ro."
    ensures FakeBidi(s) == " " + FakeBidi(t)
  {
    OtherStep(s, "", ' ', t);
  }

  lemma PeutText(s1: string, s2: string, s3: string, s4: string)
    requires s1 == "peut diviser par z\U{E9}ro." && s2 == "diviser par z\U{E9}ro."
    requires s3 == "par z\U{E9}ro." && s4 == "z\U{E9}ro."
    ensures FakeBidi(s1) == PeutOut()
  {
    WordStep(s1, "peut", ' ', s2);
    DiviserText(s2, s3, s4);
  }

  lemma DiviserText(s2: string, s3: string, s4: string)
    requires s2 == "diviser par z\U{E9}ro." && s3 == "par z\U{E9}ro." && s4 == "z\U{E9}ro."
    ensures FakeBidi(s2) == DiviserOut()
  {
    WordStep(s2, "diviser", ' ', s3);
    ParText(s3, s4);
  }

  lemma ParText(s3: string, s4: string)
    requires s3 == "par z\U{E9}ro." && s4 == "z\U{E9}ro."
    ensures FakeBidi(s3) == ParOut()
  {
    WordStep(s3, "par", ' ', s4);
    Zero(s4);
  }

  /** The accented letter does not end the word. */
  lemma Zero(s: string)
    requires s == "z\U{E9}ro."
    ensures FakeBidi(s) == ZeroOut()
  {
    LastWord(s, "z\U{E9}ro", '.');
  }

  lemma HelloText(s0: string, s1: string, s2: string)
    requires s0 == "Hello 123 Goodbye!" && s1 == "123 Goodbye!" && s2 == "Goodbye!"
    ensures FakeBidi(s0) == HelloOut()
  {
    WordStep(s0, "Hello", ' ', s1);
    NumberText(s1, s2);
  }

  /** Digits are not letters: the number is copied, not wrapped. */
  lemma NumberText(s: string, t: string)
    requires s == "123 Goodbye!" && t == "Goodbye!"
    ensures FakeBidi(s) == NumberOut()
  {
    Digits("123");
    OtherStep(s, "123", ' ', t);
    Goodbye(t);
  }

  lemma Digits(u: string)
    requires u == "123"
    ensures !HasLetter(u)
  {
  }

  lemma Goodbye(s: string)
    requires s == "Goodbye!"
    ensures FakeBidi(s) == GoodbyeOut()
  {
    LastWord(s, "Goodbye", '!');
  }

  // ---------------------------------------------------------------------
  // The test's expected literals, one line at a time.
  // ---------------------------------------------------------------------

  lemma TextLines()
    ensures NameOut() + SentenceOut() ==
      "\U{200F}\U{202E}Chuck\U{202C}\U{200F} \U{200F}\U{202E}Norris\U{202C}\U{200F} "
      + "\U{200F}\U{202E}peut\U{202C}\U{200F} \U{200F}\U{202E}diviser\U{202C}\U{200F} "
      + "\U{200F}\U{202E}par\U{202C}\U{200F} \U{200F}\U{202E}z\U{E9}ro\U{202C}\U{200F}."
  {
    NameLine();
    PeutLine();
    ParLine();
    Regroup(NameOut(), Wrap("peut"), Wrap("diviser"), ParOut());
  }

  lemma LinkLines()
    ensures ChuckStart + NameOut() + ChuckMiddle + SentenceOut() + HtmlEnd ==
      "<a href=\"http://chucknorrisfacts.fr/\">"
      + "<strong>\U{200F}\U{202E}Chuck\U{202C}\U{200F} \U{200F}\U{202E}Norris\U{202C}\U{200F}</strong> "
      + "\U{200F}\U{202E}peut\U{202C}\U{200F} \U{200F}\U{202E}diviser\U{202C}\U{200F} "
      + "\U{200F}\U{202E}par\U{202C}\U{200F} \U{200F}\U{202E}z\U{E9}ro\U{202C}\U{200F}.</a>"
  {
    StrongLine();
    PeutLine();
    ParLine();
    RegroupLink(ChuckAnchor, NameOut(), Wrap("peut"), Wrap("diviser"), ParOut());
  }

  lemma NameLine()
    ensures NameOut() + " " ==
      "\U{200F}\U{202E}Chuck\U{202C}\U{200F} \U{200F}\U{202E}Norris\U{202C}\U{200F} "
  {
  }

  lemma StrongLine()
    ensures "<strong>" + NameOut() + "</strong> " ==
      "<strong>\U{200F}\U{202E}Chuck\U{202C}\U{200F} \U{200F}\U{202E}Norris\U{202C}\U{200F}</strong> "
  {
  }

  lemma PeutLine()
    ensures Wrap("peut") + " " + Wrap("diviser") + " " ==
      "\U{200F}\U{202E}peut\U{202C}\U{200F} \U{200F}\U{202E}diviser\U{202C}\U{200F} "
  {
  }

  lemma ParLine()
    ensures ParOut() ==
      "\U{200F}\U{202E}par\U{202C}\U{200F} \U{200F}\U{202E}z\U{E9}ro\U{202C}\U{200F}."
  {
  }

  lemma GoogleLine()
    ensures Wrap("Google") == "\U{200F}\U{202E}Google\U{202C}\U{200F}"
  {
  }

  lemma HelloLine()
    ensures HelloOut() ==
      "\U{200F}\U{202E}Hello\U{202C}\U{200F} 123 \U{200F}\U{202E}Goodbye\U{202C}\U{200F}!"
  {
  }

  /** name + " " + peut + " " + diviser + " " + rest, grouped by lines. */
  lemma Regroup(n: string, p: string, d: string, r: string)
    ensures n + (" " + (p + " " + (d + " " + r))) == (n + " ") + (p + " " + d + " ") + r
  {
  }

  lemma RegroupLink(a: string, n: string, p: string, d: string, r: string)
    ensures a + "<strong>" + n + "</strong>" + (" " + (p + " " + (d + " " + r))) + "</a>"
      == a + ("<strong>" + n + "</strong> ") + (p + " " + d + " ") + (r + "</a>")
  {
  }

  // ---------------------------------------------------------------------
  // Taking a text apart.
  // ---------------------------------------------------------------------

  /** A word, then a non-letter: the word is wrapped, the non-letter copied. */
  lemma WordStep(s: string, w: string, c: char, t: string)
    requires s == w + [c] + t && w != [] && AllLetters(w) && !IsLetter(c)
    ensures FakeBidi(s) == Wrap(w) + [c] + FakeBidi(t)
  {
    FakeBidiSeparator(w, c, t);
    FakeBidiWord(w);
  }

  /** Text without letters, then a non-letter: both are copied. */
  lemma OtherStep(s: string, u: string, c: char, t: string)
    requires s == u + [c] + t && !HasLetter(u) && !IsLetter(c)
    ensures FakeBidi(s) == u + [c] + FakeBidi(t)
  {
    FakeBidiSeparator(u, c, t);
    FakeBidiFixpoint(u);
  }

  /** A word closed by a final non-letter. */
  lemma LastWord(s: string, w: string, c: char)
    requires s == w + [c] && w != [] && AllLetters(w) && !IsLetter(c)
    ensures FakeBidi(s) == Wrap(w) + [c]
  {
    assert s == w + [c] + [];
    WordStep(s, w, c, []);
    FakeBidiFixpoint([]);
  }

  /** Splits a text where the second part starts with a non-letter. */
  lemma Cut(s: string, a: string, b: string)
    requires s == a + b && b != [] && !IsLetter(b[0])
    ensures FakeBidi(s) == FakeBidi(a) + FakeBidi(b)
  {
    FakeBidiAppend(a, b);
  }

  /** A text that starts with a letter reads right-to-left once transformed. */
  lemma Strong(s: string)
    requires s != [] && IsLetter(s[0])
    ensures FirstStrong(RunString(s)) == RightToLeft
  {
    RunStringIsFakeBidi(s);
    FakeBidiDirection(s);
  }
}
