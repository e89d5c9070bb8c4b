/** Splitting text on single spaces, the inverse used to read rendered word lists back. */
module Text {

  /** The pieces of `s` between the spaces, in order: "a  b" gives ["a", "", "b"]
      and every string gives at least one piece. */
  function Split(s: string): (r: seq<string>)
    ensures |r| >= 1
  {
    if s == [] then [""]
    else if s[|s| - 1] == ' ' then Split(s[..|s| - 1]) + [""]
    else
      var p := Split(s[..|s| - 1]);
      p[..|p| - 1] + [p[|p| - 1] + [s[|s| - 1]]]
  }

  predicate NoSpace(w: string) { ' ' !in w }

  /** Appending text without a space extends the last piece and nothing else. */
  lemma {:induction false} SplitAppendWord(a: string, b: string)
    requires NoSpace(b)
    ensures Split(a + b) == Split(a)[..|Split(a)| - 1] + [Split(a)[|Split(a)| - 1] + b]
    decreases |b|
  {
    if b == [] {
      assert a + b == a;
      var s := Split(a);
      assert s[|s| - 1] + b == s[|s| - 1];
      assert s == s[..|s| - 1] + [s[|s| - 1]];
    } else {
      var b' := b[..|b| - 1];
      assert (a + b)[..|a + b| - 1] == a + b';
      assert (a + b)[|a + b| - 1] == b[|b| - 1];
      assert b[|b| - 1] in b;
      assert NoSpace(b') by { assert forall c :: c in b' ==> c in b; }
      SplitAppendWord(a, b');
      var s, p := Split(a), Split(a + b');
      assert p[..|p| - 1] == s[..|s| - 1];
      assert p[|p| - 1] + [b[|b| - 1]] == s[|s| - 1] + b;
    }
  }

  /** A space closes the current piece and opens an empty one. */
  lemma SplitAppendSpace(a: string)
    ensures Split(a + " ") == Split(a) + [""]
  {
    assert (a + " ")[..|a + " "| - 1] == a;
  }

  /** Text with no space is a single piece. */
  lemma SplitWord(w: string)
    requires NoSpace(w)
    ensures Split(w) == [w]
  {
    SplitAppendWord("", w);
    assert "" + w == w;
  }

  /** A space followed by a word adds exactly that word as a new piece. */
  lemma SplitSpaceWord(a: string, w: string)
    requires NoSpace(w)
    ensures Split(a + " " + w) == Split(a) + [w]
  {
    SplitAppendWord(a + " ", w);
    SplitAppendSpace(a);
    var p := Split(a) + [""];
    assert p[..|p| - 1] == Split(a);
    assert p[|p| - 1] + w == w;
  }

  /** Text whose pieces end in an empty one, followed by a word and a space,
      gains that word as a piece and again ends in an empty one. */
  lemma SplitWordSpace(r: string, ts: seq<string>, t: string)
    requires Split(r) == ts + [""] && NoSpace(t)
    ensures Split(r + t + " ") == ts + [t] + [""]
  {
    SplitAppendWord(r, t);
    var p := ts + [""];
    assert p[..|p| - 1] == ts;
    assert p[|p| - 1] + t == t;
    SplitAppendSpace(r + t);
  }
}
