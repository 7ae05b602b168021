/** The message model: a message is an ordered sequence of fragments, each
    either translatable text or fixed text (markup, placeholders) that every
    pseudolocalization method must leave alone. */
module Message {

  /** `Translatable` stands for a simple text fragment, `Fixed` for a
      non-localizable text fragment. Empty text is legal in both. */
  datatype Fragment = Translatable(text: string) | Fixed(text: string)

  /** The text of a message: the fragment texts joined in order. */
  function Concat(frags: seq<Fragment>): string {
    if frags == [] then [] else frags[0].text + Concat(frags[1..])
  }

  /** A message built from a plain string is one translatable fragment. */
  function FromString(s: string): (m: seq<Fragment>)
    ensures |m| == 1 && m[0].Translatable? && Concat(m) == s
  {
    [Translatable(s)]
  }

  /** Joining is order-preserving and compositional: the text of two
      messages put one after the other is the two texts one after the other. */
  lemma {:induction false} ConcatAppend(a: seq<Fragment>, b: seq<Fragment>)
    ensures Concat(a + b) == Concat(a) + Concat(b)
  {
    if a == [] {
      assert a + b == b;
    } else {
      assert (a + b)[1..] == a[1..] + b;
      ConcatAppend(a[1..], b);
    }
  }

  /** Each fragment's text sits in the message text at the position given by
      the fragments before it. */
  lemma ConcatAt(frags: seq<Fragment>, i: nat)
    requires i < |frags|
    ensures Concat(frags) == Concat(frags[..i]) + frags[i].text + Concat(frags[i + 1..])
  {
    var rest := frags[i..];
    assert frags == frags[..i] + rest;
    ConcatAppend(frags[..i], rest);
    assert Concat(rest) == frags[i].text + Concat(frags[i + 1..]) by {
      assert rest[0] == frags[i] && rest[1..] == frags[i + 1..];
    }
    Associate(Concat(frags[..i]), frags[i].text, Concat(frags[i + 1..]));
  }

  /** Joining strings is associative. */
  lemma Associate(a: string, b: string, c: string)
    ensures a + b + c == a + (b + c)
  {
  }
}
