/** The station report records and their word counts
    (Model/SatelliteMessage.cs, Model/Requests/SecretTransmissionSplit.cs,
    Model/SatelliteMessageSplit.cs). */
module Records {

  /** int.MaxValue. Enumerable.Count() returns an int, so no fragment is longer. */
  const IntMax: nat := 0x7fff_ffff

  /** A fragment: the words of the broadcast in order, "" where a word was not heard. */
  type Words = s: seq<string> | |s| <= IntMax

  predicate NoBlank(ws: seq<string>)
  {
    forall i :: 0 <= i < |ws| ==> ws[i] != ""
  }

  /** The number of words that were actually heard (LINQ `Count(e => e.Length != 0)`). */
  function CountHeard(ws: seq<string>): (n: nat)
    ensures n <= |ws|
    ensures n == |ws| <==> NoBlank(ws)
  {
    if ws == [] then 0
    else CountHeard(ws[..|ws| - 1]) + (if ws[|ws| - 1] != "" then 1 else 0)
  }

  /** Counting heard words distributes over concatenation. */
  lemma {:induction false} CountHeardAppend(a: seq<string>, b: seq<string>)
    ensures CountHeard(a + b) == CountHeard(a) + CountHeard(b)
    decreases |b|
  {
    if b == [] {
      assert a + b == a;
    } else {
      assert (a + b)[..|a + b| - 1] == a + b[..|b| - 1];
      CountHeardAppend(a, b[..|b| - 1]);
    }
  }

  /** A fragment in which nothing was heard counts zero words. */
  lemma {:induction false} CountHeardAllBlank(ws: seq<string>)
    requires forall i :: 0 <= i < |ws| ==> ws[i] == ""
    ensures CountHeard(ws) == 0
  {
    if ws != [] {
      CountHeardAllBlank(ws[..|ws| - 1]);
    }
  }

  /** Inserting a blank anywhere never changes the count. */
  lemma CountHeardInsertBlank(a: seq<string>, b: seq<string>)
    ensures CountHeard(a + [""] + b) == CountHeard(a + b)
  {
    CountHeardAppend(a, [""]);
    CountHeardAppend(a + [""], b);
    CountHeardAppend(a, b);
    assert [""][..0] == [];
  }

  /** One station's report: measured distance, heard fragment and station name. */
  datatype SatelliteMessage = SatelliteMessage(distance: real, message: Words, name: string)
  {
    /** The number of heard (non-blank) words of the fragment. */
    function TotalWords(): (n: nat)
      ensures n <= |message|
      ensures n == |message| <==> NoBlank(message)
    {
      CountHeard(message)
    }
  }

  /** The body of a split-mode submission: the station name travels in the route. */
  datatype SecretTransmissionSplit = SecretTransmissionSplit(distance: real, message: Words)
  {
    /** The number of heard (non-blank) words of the fragment. */
    function TotalWords(): (n: nat)
      ensures n <= |message|
      ensures n == |message| <==> NoBlank(message)
    {
      CountHeard(message)
    }
  }

  /** The split-mode record without a name. */
  datatype SatelliteMessageSplit = SatelliteMessageSplit(distance: real, message: Words)
  {
    /** The number of heard (non-blank) words of the fragment. */
    function TotalWords(): (n: nat)
      ensures n <= |message|
      ensures n == |message| <==> NoBlank(message)
    {
      CountHeard(message)
    }
  }

  /** The word count looks at the fragment only. */
  lemma TotalWordsIgnoresDistanceAndName(r: SatelliteMessage, d: real, name: string)
    ensures r.(distance := d, name := name).TotalWords() == r.TotalWords()
  {
  }

  /** The split submission's word count looks at the fragment only. */
  lemma TransmissionSplitIgnoresDistance(r: SecretTransmissionSplit, d: real)
    ensures r.(distance := d).TotalWords() == r.TotalWords()
  {
  }

  /** The nameless split record's word count looks at the fragment only. */
  lemma MessageSplitIgnoresDistance(r: SatelliteMessageSplit, d: real)
    ensures r.(distance := d).TotalWords() == r.TotalWords()
  {
  }
}
