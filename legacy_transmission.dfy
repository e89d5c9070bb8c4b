/** The older message fusion (Model/SecretTransmission.cs). Its TotalWords,
    MinimumWords, CheckLengths and MergeBrokenMessages do what the members of
    the same names in Transmission do; its GetMessage differs in the acceptance
    test, which compares the finished string's length in UTF-16 code units
    (StringBuilder.Length) with MinimumWords instead of the merged word count. */
module LegacyTransmission {
  import opened Records
  import Transmission

  /** The UTF-16 length of a string of Unicode scalar values, the unit
      StringBuilder.Length counts: one code unit below U+10000, a surrogate
      pair above. */
  function Utf16Length(s: string): (n: nat)
    ensures |s| <= n <= 2 * |s|
    ensures n == |s| <==> forall i :: 0 <= i < |s| ==> s[i] as int < 0x1_0000
  {
    if s == [] then 0 else (if s[0] as int < 0x1_0000 then 1 else 2) + Utf16Length(s[1..])
  }

  /** Code units add up over concatenation. */
  lemma {:induction false} Utf16LengthConcat(a: string, b: string)
    ensures Utf16Length(a + b) == Utf16Length(a) + Utf16Length(b)
  {
    if a != [] {
      assert (a + b)[0] == a[0] && (a + b)[1..] == a[1..] + b;
      Utf16LengthConcat(a[1..], b);
    } else {
      assert a + b == b;
    }
  }

  /** The message the older GetMessage returns: the sentence of the merged
      words when its UTF-16 length equals MinimumWords, and "" otherwise. */
  function LegacyFused(rs: seq<SatelliteMessage>): string
  {
    var sentence := Transmission.Sentence(Transmission.Merged(rs));
    if Utf16Length(sentence) == Transmission.MinWords(rs) then sentence else ""
  }

  /** GetMessage of the older file: merge, build the sentence with the same
      StringBuilder loop, and compare its UTF-16 length with MinimumWords. */
  method GetMessage(rs: seq<SatelliteMessage>) returns (s: string)
    ensures s == LegacyFused(rs)
    ensures s != "" ==> Utf16Length(s) == Transmission.MinWords(rs) && s[|s| - 1] == '.'
    ensures s != "" ==> s == Transmission.Sentence(Transmission.Merged(rs))
  {
    var mergedMessages := Transmission.MergeBrokenMessages(rs);
    var finalMessage := Transmission.BuildSentence(mergedMessages);
    var length := Transmission.MinimumWords(rs);
    s := if Utf16Length(finalMessage) == length then finalMessage else "";
  }

  /** As written, the older test accepts a merge only when it has at most half
      as many words as there are positions, so it refuses every merge the
      current test accepts, whose word count equals MinimumWords. */
  lemma LegacyNeverComplete(rs: seq<SatelliteMessage>)
    ensures LegacyFused(rs) != "" ==>
      0 < |Transmission.Merged(rs)| && 2 * |Transmission.Merged(rs)| <= Transmission.MinWords(rs)
    ensures Transmission.Fused(rs) != "" ==> LegacyFused(rs) == ""
  {
    var ws := Transmission.Merged(rs);
    Transmission.MergedProperties(rs);
    Transmission.SentenceLength(ws);
    Transmission.LettersOfHeard(ws);
  }

  /** On the documented sample the older test returns "" where the current one
      recovers the message: 27 code units are compared with 5 positions. */
  lemma LegacySampleRefused()
    ensures Utf16Length(Transmission.Fused(Transmission.SampleReports())) == 27
    ensures Transmission.MinWords(Transmission.SampleReports()) == 5
    ensures LegacyFused(Transmission.SampleReports()) == ""
    ensures Transmission.Fused(Transmission.SampleReports()) == "este es un mensaje secreto."
  {
    Transmission.SampleFuses();
    Transmission.SampleMerges();
    SampleUnits();
    LegacyNeverComplete(Transmission.SampleReports());
  }

  /** The sample sentence is plain ASCII: one code unit per character. */
  lemma SampleUnits()
    ensures Utf16Length("este es un mensaje secreto.") == 27
  {
    var s := "este es un mensaje secreto.";
    assert forall i :: 0 <= i < |s| ==> s[i] as int < 0x1_0000;
  }

  /** One station that heard an astral-plane word and a blank: MinimumWords
      is 2 and the sentence has two scalar values but three code units, so the
      older test refuses it. */
  lemma LegacyAstralRefused()
    ensures Transmission.Sentence(Transmission.Merged([SatelliteMessage(1.0, ["\U{1F600}", ""], "kenobi")])) == "\U{1F600}."
    ensures Utf16Length("\U{1F600}.") == 3
    ensures LegacyFused([SatelliteMessage(1.0, ["\U{1F600}", ""], "kenobi")]) == ""
  {
    var rs := [SatelliteMessage(1.0, ["\U{1F600}", ""], "kenobi")];
    Transmission.UniformAligned(rs, 2);
    assert Transmission.Column(rs, 0) == ["\U{1F600}"];
    assert Transmission.Column(rs, 1) == [""];
    assert Transmission.Stream(rs, 2) == ["\U{1F600}", ""];
    assert Transmission.Votes([], ["\U{1F600}", ""]) == ["\U{1F600}"] by {
      assert ["\U{1F600}", ""][..1] == ["\U{1F600}"];
      assert ["\U{1F600}"][..0] == [];
    }
    assert Transmission.Merged(rs) == ["\U{1F600}"];
    assert Transmission.Spaced(["\U{1F600}"]) == "\U{1F600}";
  }

  /** With one more blank, MinimumWords is 3 and matches the three code units,
      so the older test accepts a merge that recovered one word of three, which
      the current test refuses. */
  lemma LegacyAstralAccepted()
    ensures LegacyFused([SatelliteMessage(1.0, ["\U{1F600}", "", ""], "kenobi")]) == "\U{1F600}."
    ensures Transmission.Fused([SatelliteMessage(1.0, ["\U{1F600}", "", ""], "kenobi")]) == ""
  {
    var rs := [SatelliteMessage(1.0, ["\U{1F600}", "", ""], "kenobi")];
    Transmission.UniformAligned(rs, 3);
    assert Transmission.Column(rs, 0) == ["\U{1F600}"];
    assert Transmission.Column(rs, 1) == [""];
    assert Transmission.Column(rs, 2) == [""];
    assert Transmission.Stream(rs, 3) == ["\U{1F600}", "", ""];
    assert Transmission.Votes([], ["\U{1F600}", "", ""]) == ["\U{1F600}"] by {
      assert ["\U{1F600}", "", ""][..2] == ["\U{1F600}", ""];
      assert ["\U{1F600}", ""][..1] == ["\U{1F600}"];
      assert ["\U{1F600}"][..0] == [];
    }
    assert Transmission.Merged(rs) == ["\U{1F600}"];
    assert Transmission.Spaced(["\U{1F600}"]) == "\U{1F600}";
    assert Utf16Length("\U{1F600}.") == 3;
  }
}
