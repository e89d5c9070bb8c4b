/** Message fusion over the station reports (Model/Requests/SecretTransmission.cs):
    find the shortest fragment, trim longer fragments to their trailing words,
    vote position by position, and accept the result only when the number of
    merged words equals MinimumWords. */
module Transmission {
  import opened Records
  import opened Text

  // ---------------------------------------------------------------------------
  // Fragment lengths
  // ---------------------------------------------------------------------------

  /** The value MinimumWords computes: start from int.MaxValue and lower it to
      each shorter fragment, in report order. */
  function MinWords(rs: seq<SatelliteMessage>): nat
  {
    if rs == [] then IntMax
    else
      var m := MinWords(rs[..|rs| - 1]);
      var c := |rs[|rs| - 1].message|;
      if m > c then c else m
  }

  /** The value TotalWords computes: start from 0 and raise it to each longer fragment. */
  function MaxWords(rs: seq<SatelliteMessage>): nat
  {
    if rs == [] then 0
    else
      var w := MaxWords(rs[..|rs| - 1]);
      var c := |rs[|rs| - 1].message|;
      if c > w then c else w
  }

  /** MinimumWords is a lower bound of every fragment length, attained by one
      of them; with no reports it stays int.MaxValue. */
  lemma {:induction false} MinWordsIsMinimum(rs: seq<SatelliteMessage>)
    ensures MinWords(rs) <= IntMax
    ensures forall i :: 0 <= i < |rs| ==> MinWords(rs) <= |rs[i].message|
    ensures rs == [] ==> MinWords(rs) == IntMax
    ensures rs != [] ==> exists i :: 0 <= i < |rs| && MinWords(rs) == |rs[i].message|
  {
    if rs != [] {
      var init := rs[..|rs| - 1];
      MinWordsIsMinimum(init);
      assert forall i :: 0 <= i < |init| ==> init[i] == rs[i];
      if init != [] {
        var i :| 0 <= i < |init| && MinWords(init) == |init[i].message|;
        assert rs[i] == init[i];
      }
    }
  }

  /** TotalWords is an upper bound of every fragment length, attained by one of
      them; with no reports it is 0. */
  lemma {:induction false} MaxWordsIsMaximum(rs: seq<SatelliteMessage>)
    ensures forall i :: 0 <= i < |rs| ==> |rs[i].message| <= MaxWords(rs)
    ensures rs == [] ==> MaxWords(rs) == 0
    ensures rs != [] ==> exists i :: 0 <= i < |rs| && MaxWords(rs) == |rs[i].message|
  {
    if rs != [] {
      var init := rs[..|rs| - 1];
      MaxWordsIsMaximum(init);
      assert forall i :: 0 <= i < |init| ==> init[i] == rs[i];
      if init != [] {
        var i :| 0 <= i < |init| && MaxWords(init) == |init[i].message|;
        assert rs[i] == init[i];
      }
    }
  }

  /** For a non-empty report list the longest fragment is at least the shortest. */
  lemma MinAtMostMax(rs: seq<SatelliteMessage>)
    requires rs != []
    ensures MinWords(rs) <= MaxWords(rs)
  {
    MinWordsIsMinimum(rs);
    MaxWordsIsMaximum(rs);
    assert MinWords(rs) <= |rs[0].message| <= MaxWords(rs);
  }

  /** TotalWords: the longest fragment length. */
  method TotalWords(rs: seq<SatelliteMessage>) returns (words: nat)
    ensures words == MaxWords(rs)
    ensures forall i :: 0 <= i < |rs| ==> |rs[i].message| <= words
    ensures rs == [] ==> words == 0
    ensures rs != [] ==> exists i :: 0 <= i < |rs| && words == |rs[i].message|
  {
    words := 0;
    for i := 0 to |rs|
      invariant words == MaxWords(rs[..i])
    {
      assert rs[..i + 1][..i] == rs[..i];
      var count := |rs[i].message|;
      words := if count > words then count else words;
    }
    assert rs[..|rs|] == rs;
    MaxWordsIsMaximum(rs);
  }

  /** MinimumWords: the shortest fragment length, int.MaxValue for no reports. */
  method MinimumWords(rs: seq<SatelliteMessage>) returns (min: nat)
    ensures min == MinWords(rs)
  {
    min := IntMax;
    for i := 0 to |rs|
      invariant min == MinWords(rs[..i])
    {
      assert rs[..i + 1][..i] == rs[..i];
      if min > |rs[i].message| {
        min := |rs[i].message|;
      }
    }
    assert rs[..|rs|] == rs;
  }

  // ---------------------------------------------------------------------------
  // Phase-shift correction
  // ---------------------------------------------------------------------------

  /** A report trimmed to its trailing `min` words when it is longer, else the
      report itself. */
  function Trimmed(r: SatelliteMessage, min: nat): SatelliteMessage
  {
    if |r.message| > min then SatelliteMessage(r.distance, r.message[|r.message| - min..], r.name)
    else r
  }

  /** `a` is the tail of `b`. */
  predicate IsSuffix(a: seq<string>, b: seq<string>)
  {
    |a| <= |b| && b[|b| - |a|..] == a
  }

  /** Every report trimmed to its trailing `n` words. */
  function TrimmedAll(rs: seq<SatelliteMessage>, n: nat): seq<SatelliteMessage>
  {
    seq(|rs|, i requires 0 <= i < |rs| => Trimmed(rs[i], n))
  }

  /** The reports after the phase-shift correction. */
  function Aligned(rs: seq<SatelliteMessage>): seq<SatelliteMessage>
  {
    TrimmedAll(rs, MinWords(rs))
  }

  /** Trimming a fragment of at least `n` words keeps its name and distance and
      leaves its trailing `n` words; a fragment of exactly `n` words is kept. */
  lemma TrimmedShape(r: SatelliteMessage, n: nat)
    requires n <= |r.message|
    ensures Trimmed(r, n).name == r.name && Trimmed(r, n).distance == r.distance
    ensures Trimmed(r, n).message == r.message[|r.message| - n..]
    ensures |Trimmed(r, n).message| == n
    ensures |r.message| == n ==> Trimmed(r, n) == r
  {
    if |r.message| == n {
      assert r.message[|r.message| - n..] == r.message;
    }
  }

  /** Trimming reports that all have at least `n` words, one by one. */
  lemma TrimmedAllShape(rs: seq<SatelliteMessage>, n: nat)
    requires forall i :: 0 <= i < |rs| ==> n <= |rs[i].message|
    ensures |TrimmedAll(rs, n)| == |rs|
    ensures forall i :: 0 <= i < |rs| ==>
      TrimmedAll(rs, n)[i].name == rs[i].name && TrimmedAll(rs, n)[i].distance == rs[i].distance
    ensures forall i :: 0 <= i < |rs| ==>
      |TrimmedAll(rs, n)[i].message| == n && IsSuffix(TrimmedAll(rs, n)[i].message, rs[i].message)
    ensures forall i :: 0 <= i < |rs| && |rs[i].message| == n ==> TrimmedAll(rs, n)[i] == rs[i]
  {
    forall i | 0 <= i < |rs|
      ensures TrimmedAll(rs, n)[i].name == rs[i].name && TrimmedAll(rs, n)[i].distance == rs[i].distance
      ensures |TrimmedAll(rs, n)[i].message| == n
      ensures IsSuffix(TrimmedAll(rs, n)[i].message, rs[i].message)
      ensures |rs[i].message| == n ==> TrimmedAll(rs, n)[i] == rs[i]
    {
      assert TrimmedAll(rs, n)[i] == Trimmed(rs[i], n);
      TrimmedShape(rs[i], n);
    }
  }

  /** The correction keeps the number and order of the reports and each name and
      distance, makes every fragment the trailing MinimumWords words of the
      original, and leaves a fragment of exactly that length untouched. */
  lemma AlignedShape(rs: seq<SatelliteMessage>)
    ensures |Aligned(rs)| == |rs|
    ensures forall i :: 0 <= i < |rs| ==>
      Aligned(rs)[i].name == rs[i].name && Aligned(rs)[i].distance == rs[i].distance
    ensures forall i :: 0 <= i < |rs| ==> |Aligned(rs)[i].message| == MinWords(rs)
    ensures forall i :: 0 <= i < |rs| ==> IsSuffix(Aligned(rs)[i].message, rs[i].message)
    ensures forall i :: 0 <= i < |rs| && |rs[i].message| == MinWords(rs) ==> Aligned(rs)[i] == rs[i]
  {
    var n := MinWords(rs);
    MinWordsIsMinimum(rs);
    TrimmedAllShape(rs, n);
    assert Aligned(rs) == TrimmedAll(rs, n);
  }

  /** Reports whose fragments all have `n` words have MinimumWords `n` and are
      left as they are by the correction. */
  lemma UniformAligned(rs: seq<SatelliteMessage>, n: nat)
    requires rs != [] && forall j :: 0 <= j < |rs| ==> |rs[j].message| == n
    ensures MinWords(rs) == n
    ensures Aligned(rs) == rs
  {
    MinWordsIsMinimum(rs);
    assert MinWords(rs) <= |rs[0].message|;
    AlignedShape(rs);
  }

  /** CheckLengths: the phase-shift correction, one report at a time. */
  method CheckLengths(rs: seq<SatelliteMessage>) returns (shifted: seq<SatelliteMessage>)
    ensures shifted == Aligned(rs)
    ensures AllAtLeast(shifted, MinWords(rs))
  {
    shifted := [];
    var min := MinimumWords(rs);
    for i := 0 to |rs|
      invariant shifted == TrimmedAll(rs[..i], min)
    {
      TrimmedAllSnoc(rs, i, min);
      var item := rs[i];
      var count := |item.message|;
      if count > min {
        var aux := item.message[count - min..];
        shifted := shifted + [SatelliteMessage(item.distance, aux, item.name)];
      } else {
        shifted := shifted + [item];
      }
    }
    assert rs[..|rs|] == rs;
    AlignedShape(rs);
  }

  /** Trimming one more report appends its trimmed form. */
  lemma TrimmedAllSnoc(rs: seq<SatelliteMessage>, i: nat, n: nat)
    requires i < |rs|
    ensures TrimmedAll(rs[..i + 1], n) == TrimmedAll(rs[..i], n) + [Trimmed(rs[i], n)]
  {
    assert rs[..i + 1][..i] == rs[..i];
  }

  // ---------------------------------------------------------------------------
  // Voting merge
  // ---------------------------------------------------------------------------

  /** Every fragment of `fs` has at least `k` words. */
  predicate AllAtLeast(fs: seq<SatelliteMessage>, k: nat)
  {
    forall j :: 0 <= j < |fs| ==> k <= |fs[j].message|
  }

  /** The words at position `i`, in report order. */
  function Column(fs: seq<SatelliteMessage>, i: nat): (c: seq<string>)
    requires AllAtLeast(fs, i + 1)
    ensures |c| == |fs|
  {
    seq(|fs|, j requires 0 <= j < |fs| => fs[j].message[i])
  }

  /** The order in which the merge visits words: positions 0 to k - 1, and at
      each position the reports in order. */
  function Stream(fs: seq<SatelliteMessage>, k: nat): seq<string>
    requires AllAtLeast(fs, k)
  {
    if k == 0 then [] else Stream(fs, k - 1) + Column(fs, k - 1)
  }

  /** One word is visited per report and position. */
  lemma {:induction false} StreamLength(fs: seq<SatelliteMessage>, k: nat)
    requires AllAtLeast(fs, k)
    ensures |Stream(fs, k)| == |fs| * k
  {
    if k > 0 {
      StreamLength(fs, k - 1);
    }
  }

  /** One step of the merge: keep a heard word unless it repeats the last one kept. */
  function Vote(acc: seq<string>, w: string): seq<string>
  {
    if w != "" && (acc == [] || acc[|acc| - 1] != w) then acc + [w] else acc
  }

  /** The merge steps applied to the words of `s` in order, starting from `acc`. */
  function Votes(acc: seq<string>, s: seq<string>): seq<string>
  {
    if s == [] then acc else Vote(Votes(acc, s[..|s| - 1]), s[|s| - 1])
  }

  /** The merged word list of MergeBrokenMessages. */
  function Merged(rs: seq<SatelliteMessage>): seq<string>
  {
    AlignedShape(rs);
    Votes([], Stream(Aligned(rs), MinWords(rs)))
  }

  /** No blank word and no word equal to the one before it. */
  predicate Clean(ws: seq<string>)
  {
    NoBlank(ws) && forall k :: 0 < k < |ws| ==> ws[k - 1] != ws[k]
  }

  /** MergeBrokenMessages: scan positions, then reports, appending every heard
      word that differs from the last word appended. */
  method MergeBrokenMessages(rs: seq<SatelliteMessage>) returns (message: seq<string>)
    ensures message == Merged(rs)
    ensures Clean(message)
    ensures |message| <= |rs| * MinWords(rs)
  {
    message := [];
    var shifted := CheckLengths(rs);
    var length := MinimumWords(rs);
    for i := 0 to length
      invariant message == Votes([], Stream(shifted, i))
    {
      VotesAppend([], Stream(shifted, i), Column(shifted, i));
      message := MergePosition(message, shifted, i);
    }
    MergedProperties(rs);
  }

  /** The inner loop of MergeBrokenMessages: the reports' words at position `i`,
      in report order, each appended when heard and different from the last. */
  method MergePosition(acc: seq<string>, shifted: seq<SatelliteMessage>, i: nat)
    returns (message: seq<string>)
    requires AllAtLeast(shifted, i + 1)
    ensures message == Votes(acc, Column(shifted, i))
  {
    message := acc;
    ghost var column := Column(shifted, i);
    for j := 0 to |shifted|
      invariant message == Votes(acc, column[..j])
    {
      var aux := shifted[j].message[i];
      assert column[..j + 1][..j] == column[..j];
      if aux != "" && (|message| == 0 || message[|message| - 1] != aux) {
        message := message + [aux];
      }
    }
    assert column[..|shifted|] == column;
  }

  /** The merge keeps a clean list clean. */
  lemma {:induction false} VotesClean(acc: seq<string>, s: seq<string>)
    requires Clean(acc)
    ensures Clean(Votes(acc, s))
  {
    if s != [] {
      VotesClean(acc, s[..|s| - 1]);
    }
  }

  /** Each word the merge keeps was kept before or is one of the words visited;
      it keeps at most one word per visit. */
  lemma {:induction false} VotesFrom(acc: seq<string>, s: seq<string>)
    ensures forall k :: 0 <= k < |Votes(acc, s)| ==> Votes(acc, s)[k] in acc || Votes(acc, s)[k] in s
    ensures |Votes(acc, s)| <= |acc| + |s|
  {
    if s != [] {
      var init := s[..|s| - 1];
      VotesFrom(acc, init);
      assert forall w :: w in init ==> w in s;
    }
  }

  /** Feeding two pieces in turn is feeding their concatenation. */
  lemma {:induction false} VotesAppend(acc: seq<string>, p: seq<string>, q: seq<string>)
    ensures Votes(acc, p + q) == Votes(Votes(acc, p), q)
    decreases |q|
  {
    if q == [] {
      assert p + q == p;
    } else {
      assert (p + q)[..|p + q| - 1] == p + q[..|q| - 1];
      VotesAppend(acc, p, q[..|q| - 1]);
    }
  }

  /** The visiting order is position-major: the word of report j at position i
      is visited at step i * |fs| + j. */
  lemma {:induction false} StreamAt(fs: seq<SatelliteMessage>, k: nat, i: nat, j: nat)
    requires AllAtLeast(fs, k) && i < k && j < |fs|
    ensures i * |fs| + j < |Stream(fs, k)|
    ensures Stream(fs, k)[i * |fs| + j] == fs[j].message[i]
  {
    var n := |fs|;
    var prefix, column := Stream(fs, k - 1), Column(fs, k - 1);
    assert Stream(fs, k) == prefix + column;
    StreamLength(fs, k - 1);
    var at := i * n + j;
    if i == k - 1 {
      assert at == |prefix| + j by { assert i * n == n * (k - 1); }
      assert (prefix + column)[at] == column[j];
    } else {
      StreamAt(fs, k - 1, i, j);
      assert (prefix + column)[at] == prefix[at];
    }
  }

  /** Every visited word is the word of some report at some position. */
  lemma {:induction false} StreamMember(fs: seq<SatelliteMessage>, k: nat, w: string)
    requires AllAtLeast(fs, k) && w in Stream(fs, k)
    ensures exists i, j :: 0 <= i < k && 0 <= j < |fs| && fs[j].message[i] == w
  {
    if w in Stream(fs, k - 1) {
      StreamMember(fs, k - 1, w);
    } else {
      var c := Column(fs, k - 1);
      assert w in c;
      var j :| 0 <= j < |c| && c[j] == w;
      assert fs[j].message[k - 1] == w;
    }
  }

  /** The merged words are clean, each is a word of some aligned fragment, and
      there are at most (number of reports) times MinimumWords of them. */
  lemma MergedProperties(rs: seq<SatelliteMessage>)
    ensures AllAtLeast(Aligned(rs), MinWords(rs))
    ensures Clean(Merged(rs))
    ensures |Merged(rs)| <= |rs| * MinWords(rs)
    ensures forall k :: 0 <= k < |Merged(rs)| ==>
      exists i, j :: 0 <= i < MinWords(rs) && 0 <= j < |rs| && Aligned(rs)[j].message[i] == Merged(rs)[k]
  {
    AlignedShape(rs);
    var fs, n := Aligned(rs), MinWords(rs);
    var s := Stream(fs, n);
    var m := Votes([], s);
    assert m == Merged(rs);
    StreamLength(fs, n);
    assert |fs| == |rs|;
    VotesClean([], s);
    VotesFrom([], s);
    forall k | 0 <= k < |m|
      ensures exists i, j :: 0 <= i < n && 0 <= j < |rs| && fs[j].message[i] == m[k]
    {
      StreamMember(fs, n, m[k]);
    }
  }

  // ---------------------------------------------------------------------------
  // An independent description of the merge
  // ---------------------------------------------------------------------------

  /** The heard words of `s`, in order. */
  function Heard(s: seq<string>): seq<string>
  {
    if s == [] then [] else Heard(s[..|s| - 1]) + (if s[|s| - 1] != "" then [s[|s| - 1]] else [])
  }

  /** `t` with every word that equals its predecessor dropped. */
  function Collapsed(t: seq<string>): (c: seq<string>)
    ensures c == [] <==> t == []
    ensures t != [] ==> c[|c| - 1] == t[|t| - 1]
  {
    if t == [] then []
    else if |t| > 1 && t[|t| - 2] == t[|t| - 1] then Collapsed(t[..|t| - 1])
    else Collapsed(t[..|t| - 1]) + [t[|t| - 1]]
  }

  /** The merge is "drop the blanks, then collapse runs of equal words". */
  lemma {:induction false} VotesIsCollapsedHeard(s: seq<string>)
    ensures Votes([], s) == Collapsed(Heard(s))
  {
    if s != [] {
      var init, w := s[..|s| - 1], s[|s| - 1];
      VotesIsCollapsedHeard(init);
      var h := Heard(init);
      if w == "" {
        assert Heard(s) == h + [];
        assert h + [] == h;
      } else {
        assert Heard(s) == h + [w];
        assert (h + [w])[..|h + [w]| - 1] == h;
        if h != [] {
          assert (h + [w])[|h + [w]| - 2] == h[|h| - 1];
        }
      }
    }
  }

  /** Merged is the collapsed list of heard words in position-major order. */
  lemma MergedIsCollapsedHeard(rs: seq<SatelliteMessage>)
    ensures AllAtLeast(Aligned(rs), MinWords(rs))
    ensures Merged(rs) == Collapsed(Heard(Stream(Aligned(rs), MinWords(rs))))
  {
    AlignedShape(rs);
    VotesIsCollapsedHeard(Stream(Aligned(rs), MinWords(rs)));
  }

  // ---------------------------------------------------------------------------
  // The finished message
  // ---------------------------------------------------------------------------

  /** Words separated by single spaces. */
  function Spaced(ws: seq<string>): string
  {
    if ws == [] then ""
    else if |ws| == 1 then ws[0]
    else Spaced(ws[..|ws| - 1]) + " " + ws[|ws| - 1]
  }

  /** Words separated by single spaces with a period after the last one; no
      words give the empty string. */
  function Sentence(ws: seq<string>): string
  {
    if ws == [] then "" else Spaced(ws) + "."
  }

  /** The total number of letters of the words. */
  function Letters(ws: seq<string>): nat
  {
    if ws == [] then 0 else Letters(ws[..|ws| - 1]) + |ws[|ws| - 1]|
  }

  /** The message GetMessage returns: the sentence of the merged words when
      their number equals MinimumWords, and "" otherwise. */
  function Fused(rs: seq<SatelliteMessage>): string
  {
    if |Merged(rs)| == MinWords(rs) then Sentence(Merged(rs)) else ""
  }

  /** The StringBuilder loop of GetMessage: each word, then '.' after the last
      word and ' ' after every other. */
  method BuildSentence(ws: seq<string>) returns (s: string)
    ensures s == Sentence(ws)
  {
    s := "";
    for i := 0 to |ws|
      invariant i == 0 ==> s == ""
      invariant 0 < i ==> s == Spaced(ws[..i]) + (if i == |ws| then "." else " ")
    {
      if 0 < i {
        assert ws[..i + 1][..i] == ws[..i];
      }
      s := s + ws[i];
      s := s + (if i == |ws| - 1 then "." else " ");
    }
    assert ws[..|ws|] == ws;
  }

  /** GetMessage: merge, build the sentence, accept it only when the merged
      word count equals MinimumWords. */
  method GetMessage(rs: seq<SatelliteMessage>) returns (s: string)
    ensures s == Fused(rs)
    ensures s != "" <==> |Merged(rs)| == MinWords(rs) > 0
    ensures s != "" ==> s == Sentence(Merged(rs)) && s[|s| - 1] == '.'
  {
    var mergedMessages := MergeBrokenMessages(rs);
    var finalMessage := BuildSentence(mergedMessages);
    var length := MinimumWords(rs);
    s := if |mergedMessages| == length then finalMessage else "";
    FusedAccepts(rs);
  }

  /** A sentence is empty exactly for no words, and otherwise ends with '.'. */
  lemma SentenceEnds(ws: seq<string>)
    ensures Sentence(ws) == "" <==> ws == []
    ensures ws != [] ==> Sentence(ws)[|Sentence(ws)| - 1] == '.'
  {
  }

  /** Fusion succeeds exactly when the number of merged words equals
      MinimumWords and is positive; on success the message is the sentence of
      the merged words. */
  lemma FusedAccepts(rs: seq<SatelliteMessage>)
    ensures Fused(rs) != "" <==> |Merged(rs)| == MinWords(rs) > 0
    ensures Fused(rs) != "" ==> Fused(rs) == Sentence(Merged(rs)) && Fused(rs)[|Fused(rs)| - 1] == '.'
    ensures MinWords(rs) == 0 ==> Fused(rs) == ""
  {
  }

  /** A sentence is as long as its letters plus one separator or period per word. */
  lemma {:induction false} SentenceLength(ws: seq<string>)
    ensures |Sentence(ws)| == Letters(ws) + |ws|
  {
    if |ws| > 1 {
      var init := ws[..|ws| - 1];
      SentenceLength(init);
      assert Sentence(init) == Spaced(init) + ".";
    }
  }

  /** Words that are all heard have at least one letter each. */
  lemma {:induction false} LettersOfHeard(ws: seq<string>)
    requires NoBlank(ws)
    ensures Letters(ws) >= |ws|
  {
    if ws != [] {
      LettersOfHeard(ws[..|ws| - 1]);
      assert ws[|ws| - 1] != "";
    }
  }

  /** Splitting the spaced words on spaces gives the words back. */
  lemma {:induction false} SplitSpaced(ws: seq<string>)
    requires ws != []
    requires forall i :: 0 <= i < |ws| ==> NoSpace(ws[i])
    ensures Split(Spaced(ws)) == ws
  {
    if |ws| == 1 {
      SplitWord(ws[0]);
    } else {
      var init, w := ws[..|ws| - 1], ws[|ws| - 1];
      assert init + [w] == ws;
      SplitSpaced(init);
      SpacedSnoc(init, w);
      SplitSpaceWord(Spaced(init), w);
    }
  }

  /** The sentence is lossless: drop the period and split on spaces. */
  lemma SentenceRoundTrip(ws: seq<string>)
    requires ws != []
    requires forall i :: 0 <= i < |ws| ==> NoSpace(ws[i])
    ensures |Sentence(ws)| > 0 && Split(Sentence(ws)[..|Sentence(ws)| - 1]) == ws
  {
    assert Sentence(ws)[..|Sentence(ws)| - 1] == Spaced(ws);
    SplitSpaced(ws);
  }

  // ---------------------------------------------------------------------------
  // Consequences for particular inputs
  // ---------------------------------------------------------------------------

  /** Fragment `m` agrees with message `w`: at each of its first |w| positions
      it holds either nothing or the word of `w`. */
  predicate AgreesWith(m: seq<string>, w: seq<string>)
  {
    |w| <= |m| && forall i :: 0 <= i < |w| ==> m[i] == "" || m[i] == w[i]
  }

  /** Every fragment agrees with `w`, and every position of `w` was heard by
      some station. */
  predicate Consistent(fs: seq<SatelliteMessage>, w: seq<string>)
  {
    (forall j :: 0 <= j < |fs| ==> AgreesWith(fs[j].message, w)) &&
    forall i :: 0 <= i < |w| ==> exists j :: 0 <= j < |fs| && |w| <= |fs[j].message| && fs[j].message[i] == w[i]
  }

  /** Votes for nothing heard change nothing. */
  lemma {:induction false} VotesBlanks(acc: seq<string>, c: seq<string>)
    requires forall j :: 0 <= j < |c| ==> c[j] == ""
    ensures Votes(acc, c) == acc
  {
    if c != [] {
      VotesBlanks(acc, c[..|c| - 1]);
    }
  }

  /** Votes that are blank or all for one word `x`, with at least one for `x`,
      keep `x` once when it differs from the last word kept. */
  lemma {:induction false} VotesColumn(acc: seq<string>, c: seq<string>, x: string)
    requires forall j :: 0 <= j < |c| ==> c[j] == "" || c[j] == x
    requires x in c && x != "" && (acc == [] || acc[|acc| - 1] != x)
    ensures Votes(acc, c) == acc + [x]
  {
    var init := c[..|c| - 1];
    if x in init {
      VotesColumn(acc, init, x);
    } else {
      forall j | 0 <= j < |init|
        ensures init[j] == ""
      {
        assert init[j] == c[j];
        assert init[j] in init;
      }
      VotesBlanks(acc, init);
    }
  }

  /** Position k - 1 of consistent reports: every fragment reaches it, and its
      votes are blank or for word k - 1 of the message, with at least one for it. */
  lemma ConsistentColumn(fs: seq<SatelliteMessage>, w: seq<string>, k: nat)
    requires Consistent(fs, w) && 0 < k <= |w|
    ensures AllAtLeast(fs, k)
    ensures forall j :: 0 <= j < |fs| ==> fs[j].message[k - 1] == "" || fs[j].message[k - 1] == w[k - 1]
    ensures w[k - 1] in Column(fs, k - 1)
  {
    forall j | 0 <= j < |fs|
      ensures k <= |fs[j].message|
      ensures fs[j].message[k - 1] == "" || fs[j].message[k - 1] == w[k - 1]
    {
      assert AgreesWith(fs[j].message, w);
    }
    var column := Column(fs, k - 1);
    var j :| 0 <= j < |fs| && |w| <= |fs[j].message| && fs[j].message[k - 1] == w[k - 1];
    assert column[j] == w[k - 1];
  }

  /** The first k words are the first k - 1 followed by word k - 1. */
  lemma PrefixStep(w: seq<string>, k: nat)
    requires 0 < k <= |w|
    ensures w[..k - 1] + [w[k - 1]] == w[..k]
  {
  }

  /** For consistent reports the merge holds the first k words of the message
      after k positions. */
  lemma {:induction false} VotesConsistent(fs: seq<SatelliteMessage>, w: seq<string>, k: nat)
    requires Consistent(fs, w) && Clean(w) && k <= |w|
    ensures AllAtLeast(fs, k)
    ensures Votes([], Stream(fs, k)) == w[..k]
  {
    if k > 0 {
      VotesConsistent(fs, w, k - 1);
      ConsistentColumn(fs, w, k);
      var column, x, before := Column(fs, k - 1), w[k - 1], w[..k - 1];
      VotesAppend([], Stream(fs, k - 1), column);
      forall j | 0 <= j < |column|
        ensures column[j] == "" || column[j] == x
      {
        assert column[j] == fs[j].message[k - 1];
      }
      assert x != "";
      assert k > 1 ==> before[k - 2] == w[k - 2] != x;
      VotesColumn(before, column, x);
      assert Stream(fs, k) == Stream(fs, k - 1) + column;
      assert Votes([], Stream(fs, k)) == before + [x];
      PrefixStep(w, k);
    }
  }

  /** When the aligned reports are consistent with a message that has one word
      per position and no word twice in a row, fusion recovers exactly that
      message. */
  lemma ConsistentFusion(rs: seq<SatelliteMessage>, w: seq<string>)
    requires Consistent(Aligned(rs), w) && Clean(w) && |w| == MinWords(rs)
    ensures Merged(rs) == w
    ensures Fused(rs) == Sentence(w)
  {
    VotesConsistent(Aligned(rs), w, |w|);
    assert w[..|w|] == w;
  }

  /** Stations that all heard the whole message, with no word repeated twice in
      a row, fuse to exactly that message. */
  lemma IdenticalFragments(rs: seq<SatelliteMessage>, w: seq<string>)
    requires rs != [] && forall j :: 0 <= j < |rs| ==> rs[j].message == w
    requires Clean(w)
    ensures Merged(rs) == w
    ensures Fused(rs) == Sentence(w)
  {
    UniformAligned(rs, |w|);
    assert Consistent(rs, w) by {
      forall i | 0 <= i < |w|
        ensures exists j :: 0 <= j < |rs| && |w| <= |rs[j].message| && rs[j].message[i] == w[i]
      {
        assert rs[0].message[i] == w[i];
      }
    }
    ConsistentFusion(rs, w);
  }

  /** A station that heard nothing at all makes fusion fail. */
  lemma EmptyFragmentFails(rs: seq<SatelliteMessage>, j: nat)
    requires j < |rs| && rs[j].message == []
    ensures MinWords(rs) == 0 && Fused(rs) == ""
  {
    MinWordsIsMinimum(rs);
  }

  /** The three reports of the service's documented sample request. */
  function SampleReports(): seq<SatelliteMessage>
  {
    [ SatelliteMessage(100.0, ["este", "", "", "mensaje", ""], "kenobi"),
      SatelliteMessage(115.5, ["", "es", "", "", "secreto"], "skywalker"),
      SatelliteMessage(142.7, ["este", "", "un", "", ""], "sato") ]
  }

  /** The words of the sample message. */
  function SampleWords(): seq<string>
  {
    ["este", "es", "un", "mensaje", "secreto"]
  }

  /** The sample's fragments all have five words, so none is trimmed. */
  lemma SampleAligned()
    ensures MinWords(SampleReports()) == 5
    ensures Aligned(SampleReports()) == SampleReports()
  {
    var rs := SampleReports();
    forall j | 0 <= j < |rs|
      ensures |rs[j].message| == 5
    {
      if j == 0 {} else if j == 1 {} else {}
    }
    UniformAligned(rs, 5);
  }

  /** Each sample fragment agrees with the sample message. */
  lemma SampleAgrees(j: nat)
    requires j < 3
    ensures AgreesWith(SampleReports()[j].message, SampleWords())
  {
    var m, w := SampleReports()[j].message, SampleWords();
    forall i | 0 <= i < 5
      ensures m[i] == "" || m[i] == w[i]
    {
      if i == 0 {} else if i == 1 {} else if i == 2 {} else if i == 3 {} else {}
    }
  }

  /** The sample reports are consistent with the sample message. */
  lemma SampleConsistent()
    ensures Consistent(SampleReports(), SampleWords())
  {
    var rs, w := SampleReports(), SampleWords();
    forall j | 0 <= j < |rs|
      ensures AgreesWith(rs[j].message, w)
    {
      SampleAgrees(j);
    }
    forall i | 0 <= i < |w|
      ensures exists j :: 0 <= j < |rs| && |w| <= |rs[j].message| && rs[j].message[i] == w[i]
    {
      if i == 0 || i == 3 {
        assert rs[0].message[i] == w[i];
      } else if i == 1 || i == 4 {
        assert rs[1].message[i] == w[i];
      } else {
        assert rs[2].message[i] == w[i];
      }
    }
  }

  /** No word of the sample message is blank or repeats the one before. */
  lemma SampleClean()
    ensures Clean(SampleWords())
  {
    var w := SampleWords();
    forall k | 0 < k < 5
      ensures w[k - 1] != w[k]
    {
      if k == 1 {} else if k == 2 {} else if k == 3 {} else {}
    }
  }

  /** The sample merges to its five words, one per position. */
  lemma SampleMerges()
    ensures MinWords(SampleReports()) == 5
    ensures Merged(SampleReports()) == SampleWords()
  {
    SampleAligned();
    SampleConsistent();
    SampleClean();
    ConsistentFusion(SampleReports(), SampleWords());
  }

  /** The sample fuses to the message the service documents. */
  lemma SampleFuses()
    ensures Fused(SampleReports()) == "este es un mensaje secreto."
  {
    SampleMerges();
    FusedComplete(SampleReports(), SampleWords());
    SampleSentence();
  }

  /** A merge with as many words as MinimumWords fuses to the sentence of it. */
  lemma FusedComplete(rs: seq<SatelliteMessage>, w: seq<string>)
    requires Merged(rs) == w && MinWords(rs) == |w|
    ensures Fused(rs) == Sentence(w)
  {
  }

  /** Two reports that each heard one different word at position 0 only. */
  function UnheardReports(): seq<SatelliteMessage>
  {
    [SatelliteMessage(1.0, ["a", ""], "kenobi"), SatelliteMessage(1.0, ["b", ""], "skywalker")]
  }

  /** The scan of those reports: "a" and "b" at position 0, then two blanks. */
  lemma UnheardStream()
    ensures MinWords(UnheardReports()) == 2
    ensures Aligned(UnheardReports()) == UnheardReports()
    ensures Stream(UnheardReports(), 2) == ["a", "b", "", ""]
  {
    var rs := UnheardReports();
    UniformAligned(rs, 2);
    assert Column(rs, 0) == ["a", "b"];
    assert Column(rs, 1) == ["", ""];
  }

  /** Both words of position 0 are kept, and the blanks change nothing. */
  lemma UnheardVotes()
    ensures Votes([], ["a", "b", "", ""]) == ["a", "b"]
  {
    assert ["a", "b", "", ""][..3] == ["a", "b", ""];
    assert ["a", "b", ""][..2] == ["a", "b"];
    assert ["a", "b"][..1] == ["a"];
    assert ["a"][..0] == [];
  }

  /** The acceptance test counts words, not positions: kenobi heard ["a", ""]
      and skywalker ["b", ""], so position 1 was heard by nobody, yet position 0
      appends both words and the count 2 equals MinimumWords 2. */
  lemma UnheardPositionAccepted()
    ensures Fused(UnheardReports()) == "a b."
  {
    UnheardStream();
    UnheardVotes();
    FusedComplete(UnheardReports(), ["a", "b"]);
    assert Spaced(["a", "b"]) == "a b" by {
      assert ["a", "b"][..1] == ["a"];
    }
  }

  /** One more word joins the spaced text after a single space. */
  lemma SpacedSnoc(ws: seq<string>, w: string)
    requires ws != []
    ensures Spaced(ws + [w]) == Spaced(ws) + " " + w
  {
    assert (ws + [w])[..|ws|] == ws;
  }

  /** The sentence of the sample words. */
  lemma SampleSentence()
    ensures Sentence(SampleWords()) == "este es un mensaje secreto."
  {
    var w1 := ["este"];
    var w2 := w1 + ["es"];
    var w3 := w2 + ["un"];
    var w4 := w3 + ["mensaje"];
    var w5 := w4 + ["secreto"];
    assert Spaced(w1) == "este";
    SpacedSnoc(w1, "es");
    assert Spaced(w2) == "este es";
    SpacedSnoc(w2, "un");
    assert Spaced(w3) == "este es un";
    SpacedSnoc(w3, "mensaje");
    assert Spaced(w4) == "este es un mensaje";
    SpacedSnoc(w4, "secreto");
    assert Spaced(w5) == "este es un mensaje secreto";
    assert w5 == SampleWords();
    assert Sentence(w5) == Spaced(w5) + ".";
  }
}
