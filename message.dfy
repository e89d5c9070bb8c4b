/** Rendering a word list for display (Model/Message.cs). */
module Messages {
  import opened Text

  /** How one word is shown: an unheard word as "*", any other verbatim. */
  function Token(w: string): (t: string)
    ensures w == "" ==> t == "*"
    ensures w != "" ==> t == w
  {
    if w == "" then "*" else w
  }

  /** The display text: every word's token followed by one space, in order. */
  function Rendered(ws: seq<string>): string
  {
    if ws == [] then "" else Rendered(ws[..|ws| - 1]) + Token(ws[|ws| - 1]) + " "
  }

  /** The tokens the display shows, word by word. */
  function Tokens(ws: seq<string>): (ts: seq<string>)
    ensures |ts| == |ws|
  {
    seq(|ws|, i requires 0 <= i < |ws| => Token(ws[i]))
  }

  /** The display length a word takes before its space: max(|w|, 1). */
  function Width(ws: seq<string>): nat
  {
    if ws == [] then 0
    else Width(ws[..|ws| - 1]) + (if ws[|ws| - 1] == "" then 1 else |ws[|ws| - 1]|)
  }

  /** A message holds its words; fields are never changed after construction. */
  datatype Message = Message(words: seq<string>)
  {
    /** The StringBuilder loop of ToString: append each token and a space. */
    method ToString() returns (s: string)
      ensures s == Rendered(words)
      ensures |s| == Width(words) + |words|
      ensures words != [] ==> s[|s| - 1] == ' '
    {
      s := "";
      for i := 0 to |words|
        invariant s == Rendered(words[..i])
      {
        assert words[..i + 1][..i] == words[..i];
        s := s + Token(words[i]);
        s := s + " ";
      }
      assert words[..|words|] == words;
      RenderedLength(words);
    }
  }

  /** Each word contributes max(|w|, 1) characters and one space. */
  lemma {:induction false} RenderedLength(ws: seq<string>)
    ensures |Rendered(ws)| == Width(ws) + |ws|
  {
    if ws != [] {
      RenderedLength(ws[..|ws| - 1]);
    }
  }

  /** Rendering is the in-order concatenation of the rendered parts. */
  lemma {:induction false} RenderedConcat(a: seq<string>, b: seq<string>)
    ensures Rendered(a + b) == Rendered(a) + Rendered(b)
    decreases |b|
  {
    if b == [] {
      assert a + b == a;
    } else {
      var init, w := b[..|b| - 1], b[|b| - 1];
      assert (a + b)[..|a + b| - 1] == a + init;
      assert (a + b)[|a + b| - 1] == w;
      RenderedConcat(a, init);
      assert Rendered(a + b) == Rendered(a + init) + Token(w) + " ";
    }
  }

  /** The empty list renders as "", a non-empty one ends with a space. */
  lemma RenderedEnds(ws: seq<string>)
    ensures ws == [] <==> Rendered(ws) == ""
    ensures ws != [] ==> Rendered(ws)[|Rendered(ws)| - 1] == ' '
  {
  }

  /** Reading one token back: "*" is the unheard word. */
  function Untoken(t: string): string
  {
    if t == "*" then "" else t
  }

  /** Reading the display back: split on spaces, drop the piece after the last
      space, and read every other piece back as a word. */
  function Unrendered(s: string): seq<string>
  {
    var p := Split(s);
    Untokens(p[..|p| - 1])
  }

  /** Every piece read back as a word. */
  function Untokens(ts: seq<string>): (ws: seq<string>)
    ensures |ws| == |ts|
  {
    seq(|ts|, i requires 0 <= i < |ts| => Untoken(ts[i]))
  }

  /** Reading the tokens back gives the words, when no word is "*". */
  lemma UntokensTokens(ws: seq<string>)
    requires forall i :: 0 <= i < |ws| ==> ws[i] != "*"
    ensures Untokens(Tokens(ws)) == ws
  {
    var u := Untokens(Tokens(ws));
    forall i | 0 <= i < |ws|
      ensures u[i] == ws[i]
    {
      assert Tokens(ws)[i] == Token(ws[i]);
    }
  }

  /** Splitting the display on spaces yields the tokens and a final empty piece. */
  lemma {:induction false} SplitRendered(ws: seq<string>)
    requires forall i :: 0 <= i < |ws| ==> NoSpace(ws[i])
    ensures Split(Rendered(ws)) == Tokens(ws) + [""]
  {
    if ws != [] {
      var init, w := ws[..|ws| - 1], ws[|ws| - 1];
      SplitRendered(init);
      assert NoSpace(Token(w)) by { assert NoSpace(ws[|ws| - 1]); }
      SplitWordSpace(Rendered(init), Tokens(init), Token(w));
      assert Tokens(init) + [Token(w)] == Tokens(ws);
    }
  }

  /** The display is lossless for words that hold no space and are not "*". */
  lemma RenderedRoundTrip(ws: seq<string>)
    requires forall i :: 0 <= i < |ws| ==> NoSpace(ws[i]) && ws[i] != "*"
    ensures Unrendered(Rendered(ws)) == ws
  {
    SplitRendered(ws);
    var p := Tokens(ws) + [""];
    assert p[..|p| - 1] == Tokens(ws);
    UntokensTokens(ws);
  }
}
