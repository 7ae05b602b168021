/** The pseudolocalization pipeline built for the method name "fakebidi": one
    stage that rewrites each translatable fragment with the fakebidi
    transform, followed by joining the fragment texts into the output. */
module Pipeline {
  import opened Message
  import opened Methods

  /** What the fakebidi stage does to one fragment: translatable text is
      transformed, fixed text is passed through without being scanned. */
  function Localize(f: Fragment): (g: Fragment)
    ensures g.Fixed? == f.Fixed?
    ensures f.Fixed? ==> g == f
  {
    match f
    case Fixed(_) => f
    case Translatable(t) => Translatable(FakeBidi(t))
  }

  /** The fakebidi stage over a whole message: each fragment rewritten on
      its own, in order. */
  function Stage(frags: seq<Fragment>): seq<Fragment> {
    if frags == [] then [] else [Localize(frags[0])] + Stage(frags[1..])
  }

  /** The stage keeps the number, the order and the kinds of the fragments,
      and every fixed fragment as it is. */
  lemma {:induction false} StageAt(frags: seq<Fragment>, i: nat)
    requires i < |frags|
    ensures |Stage(frags)| == |frags|
    ensures Stage(frags)[i] == Localize(frags[i])
    ensures frags[i].Fixed? ==> Stage(frags)[i] == frags[i]
  {
    StageLength(frags);
    if i > 0 {
      StageAt(frags[1..], i - 1);
    }
  }

  lemma {:induction false} StageLength(frags: seq<Fragment>)
    ensures |Stage(frags)| == |frags|
  {
    if frags != [] {
      StageLength(frags[1..]);
    }
  }

  /** Runs the pipeline on a message and returns the output text. */
  function Run(frags: seq<Fragment>): string {
    Concat(Stage(frags))
  }

  /** Runs the pipeline on a plain string. */
  function RunString(s: string): string {
    Run(FromString(s))
  }

  /** A plain string is transformed as one translatable fragment: the output
      is the fakebidi transform of the whole string. */
  lemma RunStringIsFakeBidi(s: string)
    ensures RunString(s) == FakeBidi(s)
    ensures RunString(s) == Run([Translatable(s)])
  {
    assert Stage([Translatable(s)]) == [Translatable(FakeBidi(s))];
    assert Concat([Translatable(FakeBidi(s))]) == FakeBidi(s) + Concat([]);
  }

  lemma {:induction false} StageAppend(a: seq<Fragment>, b: seq<Fragment>)
    ensures Stage(a + b) == Stage(a) + Stage(b)
  {
    if a == [] {
      assert a + b == b;
    } else {
      assert (a + b)[1..] == a[1..] + b;
      StageAppend(a[1..], b);
    }
  }

  /** Fragments are handled independently: the output for two messages put
      one after the other is the two outputs one after the other. */
  lemma RunAppend(a: seq<Fragment>, b: seq<Fragment>)
    ensures Run(a + b) == Run(a) + Run(b)
  {
    StageAppend(a, b);
    ConcatAppend(Stage(a), Stage(b));
  }

  /** A fixed fragment's text appears unchanged in the output, right after
      the output of the fragments before it and right before the output of
      the fragments after it. */
  lemma RunKeepsFixed(frags: seq<Fragment>, i: nat)
    requires i < |frags| && frags[i].Fixed?
    ensures Run(frags) == Run(frags[..i]) + frags[i].text + Run(frags[i + 1..])
  {
    assert frags == frags[..i] + [frags[i]] + frags[i + 1..];
    RunAppend(frags[..i] + [frags[i]], frags[i + 1..]);
    RunAppend(frags[..i], [frags[i]]);
    assert Run([frags[i]]) == frags[i].text by {
      assert Stage([frags[i]]) == [frags[i]];
      assert Concat([frags[i]]) == frags[i].text + Concat([]);
    }
  }

  /** The shape of a translatable fragment between two fixed ones, as in
      markup around a link text: the markup is kept and only the text inside
      is transformed. */
  lemma RunBetweenFixed(open: string, s: string, close: string)
    ensures Run([Fixed(open), Translatable(s), Fixed(close)]) == open + RunString(s) + close
  {
    var m := [Fixed(open), Translatable(s), Fixed(close)];
    RunKeepsFixed(m, 0);
    RunKeepsFixed(m, 2);
    assert m[..0] == [] && m[1..] == [Translatable(s), Fixed(close)];
    var inner := m[1..];
    assert inner[..1] == [Translatable(s)] && inner[2..] == [];
    RunKeepsFixed(inner, 1);
    RunStringIsFakeBidi(s);
    assert Run([]) == [];
  }

  /** Deleting the markers from the output restores the message text (minus
      any markers it held itself); a marker-free message is restored exactly. */
  lemma {:induction false} RunRoundTrip(frags: seq<Fragment>)
    ensures Strip(Run(frags)) == Strip(Concat(frags))
    ensures NoMarkers(Concat(frags)) ==> Strip(Run(frags)) == Concat(frags)
  {
    StripSound(Concat(frags));
    if frags != [] {
      var f, rest := frags[0], frags[1..];
      RunRoundTrip(rest);
      RunCons(f, rest);
      StripAppend(Localize(f).text, Run(rest));
      StripAppend(f.text, Concat(rest));
      if f.Translatable? {
        FakeBidiRoundTrip(f.text);
      }
    }
  }

  /** The output for a message is that of its first fragment followed by
      that of the rest. */
  lemma RunCons(f: Fragment, rest: seq<Fragment>)
    ensures Run([f] + rest) == Localize(f).text + Run(rest)
    ensures Concat([f] + rest) == f.text + Concat(rest)
  {
    assert ([f] + rest)[1..] == rest;
  }

  /** The output is never shorter than the message text. */
  lemma {:induction false} RunLength(frags: seq<Fragment>)
    ensures |Run(frags)| >= |Concat(frags)|
  {
    if frags != [] {
      var f, rest := frags[0], frags[1..];
      RunLength(rest);
      RunCons(f, rest);
      if f.Translatable? {
        FakeBidiLength(f.text);
      }
    }
  }

  /** A word split over two adjacent translatable fragments is wrapped as two
      words: the scan never looks across a fragment boundary. */
  lemma RunSplitWord(a: string, b: string)
    requires !CleanCut(a, b)
    ensures Run([Translatable(a), Translatable(b)]) != RunString(a + b)
  {
    RunAppend([Translatable(a)], [Translatable(b)]);
    assert [Translatable(a)] + [Translatable(b)] == [Translatable(a), Translatable(b)];
    RunStringIsFakeBidi(a);
    RunStringIsFakeBidi(b);
    RunStringIsFakeBidi(a + b);
    FakeBidiSplitWord(a, b);
  }

  /** Under the first-strong rule the output for a plain string with a letter
      reads right-to-left; a marker-free string without letters (the empty
      string among them) stays neutral, which a left-to-right default
      resolves to left-to-right. */
  lemma RunStringDirection(s: string)
    requires NoMarkers(s)
    ensures FirstStrong(RunString(s)) == RightToLeft <==> HasLetter(s)
  {
    RunStringIsFakeBidi(s);
    FakeBidiDirection(s);
  }
}
