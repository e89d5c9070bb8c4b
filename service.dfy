/** The resolution service (Services/TopSecretService.cs): the configured
    stations, the session list of split submissions, and the guard order that
    decides between a thrown fault, a null reply and a final response. */
module Service {
  import opened Wrappers
  import opened Records
  import opened Geometry
  import Transmission

  /** Invariant-culture case folding: ToLowerInvariant followed by a
      case-insensitive comparison holds of `a` and `b` exactly when
      fold(a) == fold(b). */
  type Fold = string -> string

  /** Why a call ended in an exception. */
  datatype Fault =
    | ConfigurationMissing  // SecretMessageException: a station is not configured
    | NullReference         // Distance read from a report that Find did not return

  /** What a service call gives back: a final response, null, or an exception. */
  datatype Reply =
    | Final(position: Point, message: string)
    | Null
    | Throws(fault: Fault)

  /** The three configured stations the service found. */
  datatype Stations = Stations(kenobi: Satellite, skywalker: Satellite, sato: Satellite)

  /** The first configured station whose name folds like `key`. */
  function Lookup(fold: Fold, options: seq<Satellite>, key: string): (r: Option<Satellite>)
    ensures r.Some? ==> r.value in options && fold(r.value.name) == fold(key)
    ensures r.Some? ==>
      exists i :: 0 <= i < |options| && options[i] == r.value &&
        forall k :: 0 <= k < i ==> fold(options[k].name) != fold(key)
    ensures r.None? <==> forall i :: 0 <= i < |options| ==> fold(options[i].name) != fold(key)
  {
    match Find(options, (s: Satellite) => fold(s.name) == fold(key))
    case None => None
    case Some(i) => Some(options[i])
  }

  /** The three stations, or nothing when any of them is missing from the
      configuration. */
  function Configured(fold: Fold, options: seq<Satellite>): (c: Option<Stations>)
    ensures c.None? <==>
      Lookup(fold, options, "kenobi").None? || Lookup(fold, options, "skywalker").None? ||
      Lookup(fold, options, "sato").None?
    ensures c.Some? ==>
      c.value.kenobi in options && fold(c.value.kenobi.name) == fold("kenobi") &&
      c.value.skywalker in options && fold(c.value.skywalker.name) == fold("skywalker") &&
      c.value.sato in options && fold(c.value.sato.name) == fold("sato")
  {
    match (Lookup(fold, options, "kenobi"), Lookup(fold, options, "skywalker"), Lookup(fold, options, "sato"))
    case (Some(k), Some(w), Some(t)) => Some(Stations(k, w, t))
    case _ => None
  }

  /** The configured names a new session entry may carry. */
  function Names(st: Stations): set<string>
  {
    {st.kenobi.name, st.skywalker.name, st.sato.name}
  }

  /** The first report named exactly `name`, as Find(e => e.Name == name). */
  function Named(reports: seq<SatelliteMessage>, name: string): (r: Option<nat>)
    ensures r.Some? ==> r.value < |reports| && reports[r.value].name == name
    ensures r.None? <==> forall i :: 0 <= i < |reports| ==> reports[i].name != name
  {
    Find(reports, (e: SatelliteMessage) => e.name == name)
  }

  /** The first session entry whose name folds like `name`. */
  function Matching(fold: Fold, entries: seq<SatelliteMessage>, name: string): (r: Option<nat>)
    ensures r.Some? ==> r.value < |entries| && fold(entries[r.value].name) == fold(name)
    ensures r.Some? ==> forall i :: 0 <= i < r.value ==> fold(entries[i].name) != fold(name)
    ensures r.None? <==> forall i :: 0 <= i < |entries| ==> fold(entries[i].name) != fold(name)
  {
    Find(entries, (e: SatelliteMessage) => fold(e.name) == fold(name))
  }

  /** The shared tail of both modes once three reports are at hand: position
      from the distances of the reports named exactly kenobi, skywalker and
      sato (a missing one is a null dereference), then the fused message. */
  function Resolve(solve: Solver, st: Stations, reports: seq<SatelliteMessage>): Reply
  {
    var k, w, t := Named(reports, "kenobi"), Named(reports, "skywalker"), Named(reports, "sato");
    if k.None? || w.None? || t.None? then Throws(NullReference)
    else
      match Triangulation(solve, st.kenobi, reports[k.value].distance, st.skywalker, reports[w.value].distance,
                          st.sato, reports[t.value].distance)
      case None => Null
      case Some(p) =>
        var message := Transmission.Fused(reports);
        if message == "" then Null else Final(p, message)
  }

  /** GetFinalResponse: configuration, then at least three reports, then the
      shared resolution. */
  function Atomic(fold: Fold, solve: Solver, options: seq<Satellite>, reports: seq<SatelliteMessage>): Reply
  {
    match Configured(fold, options)
    case None => Throws(ConfigurationMissing)
    case Some(st) => if |reports| < 3 then Null else Resolve(solve, st, reports)
  }

  /** The session after a split submission for station `satellite`, or nothing
      when the station is unknown: an entry whose name folds like it gets the
      submitted message and distance; otherwise a name that is exactly one of
      the configured names is appended. */
  function Submitted(fold: Fold, st: Stations, entries: seq<SatelliteMessage>, satellite: string,
                     secret: SecretTransmissionSplit): Option<seq<SatelliteMessage>>
  {
    match Matching(fold, entries, satellite)
    case Some(k) => Some(entries[k := entries[k].(message := secret.message, distance := secret.distance)])
    case None =>
      if satellite !in Names(st) then None
      else Some(entries + [SatelliteMessage(secret.distance, secret.message, satellite)])
  }

  /** The session and the reply after one split call. */
  datatype Step = Step(entries: seq<SatelliteMessage>, reply: Reply)

  /** GetFinalResponseFromSplit: configuration, the session write, then at
      least three entries, then the shared resolution over the session. */
  function SplitStep(fold: Fold, solve: Solver, options: seq<Satellite>, entries: seq<SatelliteMessage>,
                     satellite: string, secret: SecretTransmissionSplit): Step
  {
    match Configured(fold, options)
    case None => Step(entries, Throws(ConfigurationMissing))
    case Some(st) =>
      match Submitted(fold, st, entries, satellite, secret)
      case None => Step(entries, Null)
      case Some(next) => Step(next, if |next| < 3 then Null else Resolve(solve, st, next))
  }

  /** A session of configured names that differ pairwise up to case folding. */
  predicate Registered(fold: Fold, st: Stations, entries: seq<SatelliteMessage>)
  {
    (forall i :: 0 <= i < |entries| ==> entries[i].name in Names(st)) &&
    forall i, j :: 0 <= i < j < |entries| ==> fold(entries[i].name) != fold(entries[j].name)
  }

  /** The service object; `satellites` is the static session list shared by
      the split calls. */
  class TopSecretService {
    const fold: Fold
    const solve: Solver
    const options: seq<Satellite>
    var satellites: seq<SatelliteMessage>

    /** The session holds configured names only, pairwise distinct up to case
        folding, and nothing while the configuration is incomplete. */
    ghost predicate Valid()
      reads this
    {
      match Configured(fold, options)
      case None => satellites == []
      case Some(st) => Registered(fold, st, satellites)
    }

    constructor(fold: Fold, solve: Solver, options: seq<Satellite>)
      ensures this.fold == fold && this.solve == solve && this.options == options
      ensures satellites == [] && Valid()
    {
      this.fold := fold;
      this.solve := solve;
      this.options := options;
      satellites := [];
    }

    /** GetFinalResponse, guard by guard; the session is not touched. */
    method GetFinalResponse(secret: seq<SatelliteMessage>) returns (r: Reply)
      ensures r == Atomic(fold, solve, options, secret)
    {
      var stations := Configured(fold, options);
      if stations.None? {
        return Throws(ConfigurationMissing);
      }
      if |secret| < 3 {
        return Null;
      }
      r := Respond(stations.value, secret);
    }

    /** GetFinalResponseFromSplit, guard by guard: the session write persists
        whatever the reply. */
    method GetFinalResponseFromSplit(satellite: string, secret: SecretTransmissionSplit) returns (r: Reply)
      requires Valid()
      modifies this
      ensures Valid()
      ensures Step(satellites, r) == SplitStep(fold, solve, options, old(satellites), satellite, secret)
    {
      var stations := Configured(fold, options);
      if stations.None? {
        return Throws(ConfigurationMissing);
      }
      var st := stations.value;
      var known := Store(st, satellite, secret);
      if !known {
        return Null;
      }
      if |satellites| < 3 {
        return Null;
      }
      r := Respond(st, satellites);
    }

    /** The session write of a split call: overwrite the entry whose name
        folds like `satellite`, or append one under a configured name, or
        refuse the station and change nothing. */
    method Store(st: Stations, satellite: string, secret: SecretTransmissionSplit) returns (known: bool)
      requires Configured(fold, options) == Some(st) && Valid()
      modifies this
      ensures Valid()
      ensures known == Submitted(fold, st, old(satellites), satellite, secret).Some?
      ensures satellites == if known then Submitted(fold, st, old(satellites), satellite, secret).value
                            else old(satellites)
    {
      var msg := Matching(fold, satellites, satellite);
      if msg.None? {
        if satellite != st.kenobi.name && satellite != st.skywalker.name && satellite != st.sato.name {
          return false;
        }
        SubmittedAppendKeeps(fold, st, satellites, satellite, secret);
        satellites := satellites + [SatelliteMessage(secret.distance, secret.message, satellite)];
      } else {
        var k := msg.value;
        SubmittedOverwriteKeeps(fold, st, satellites, satellite, secret);
        satellites := satellites[k := satellites[k].(message := secret.message, distance := secret.distance)];
      }
      known := true;
    }

    /** The resolution both calls end with: position, then message. */
    method Respond(st: Stations, reports: seq<SatelliteMessage>) returns (r: Reply)
      ensures r == Resolve(solve, st, reports)
    {
      var k, w, t := Named(reports, "kenobi"), Named(reports, "skywalker"), Named(reports, "sato");
      if k.None? || w.None? || t.None? {
        return Throws(NullReference);
      }
      var position := Triangulation(solve, st.kenobi, reports[k.value].distance, st.skywalker,
                                    reports[w.value].distance, st.sato, reports[t.value].distance);
      if position.None? {
        return Null;
      }
      var message := Transmission.GetMessage(reports);
      if |message| == 0 {
        return Null;
      }
      r := Final(position.value, message);
    }
  }

  // ---------------------------------------------------------------------------
  // The session write
  // ---------------------------------------------------------------------------

  /** A station that is neither in the session up to case folding nor exactly a
      configured name is refused. */
  lemma SubmittedUnknown(fold: Fold, st: Stations, entries: seq<SatelliteMessage>, satellite: string,
                         secret: SecretTransmissionSplit)
    ensures Submitted(fold, st, entries, satellite, secret).None? <==>
      (forall i :: 0 <= i < |entries| ==> fold(entries[i].name) != fold(satellite)) &&
      satellite != st.kenobi.name && satellite != st.skywalker.name && satellite != st.sato.name
  {
  }

  /** A station already in the session up to case folding overwrites the first
      such entry's message and distance, keeps its name, and changes nothing else. */
  lemma SubmittedOverwrite(fold: Fold, st: Stations, entries: seq<SatelliteMessage>, satellite: string,
                           secret: SecretTransmissionSplit, k: nat)
    requires k < |entries| && fold(entries[k].name) == fold(satellite)
    requires forall i :: 0 <= i < k ==> fold(entries[i].name) != fold(satellite)
    ensures Submitted(fold, st, entries, satellite, secret).Some?
    ensures var next := Submitted(fold, st, entries, satellite, secret).value;
      |next| == |entries| &&
      next[k] == SatelliteMessage(secret.distance, secret.message, entries[k].name) &&
      forall i :: 0 <= i < |entries| && i != k ==> next[i] == entries[i]
  {
    var m := Matching(fold, entries, satellite);
    assert m.Some? && m.value == k;
  }

  /** A new station with a configured name adds exactly one entry at the end,
      carrying the submitted distance and message under the submitted name. */
  lemma SubmittedAppend(fold: Fold, st: Stations, entries: seq<SatelliteMessage>, satellite: string,
                        secret: SecretTransmissionSplit)
    requires forall i :: 0 <= i < |entries| ==> fold(entries[i].name) != fold(satellite)
    requires satellite in Names(st)
    ensures Submitted(fold, st, entries, satellite, secret) ==
      Some(entries + [SatelliteMessage(secret.distance, secret.message, satellite)])
    ensures |Submitted(fold, st, entries, satellite, secret).value| == |entries| + 1
  {
  }

  /** Overwriting keeps the session's names, so a registered session stays so. */
  lemma SubmittedOverwriteKeeps(fold: Fold, st: Stations, entries: seq<SatelliteMessage>, satellite: string,
                                secret: SecretTransmissionSplit)
    requires Registered(fold, st, entries) && Matching(fold, entries, satellite).Some?
    ensures Registered(fold, st, Submitted(fold, st, entries, satellite, secret).value)
  {
    var k := Matching(fold, entries, satellite).value;
    var next := Submitted(fold, st, entries, satellite, secret).value;
    assert forall i :: 0 <= i < |entries| ==> next[i].name == entries[i].name;
  }

  /** Appending a configured name that folds unlike every stored one keeps a
      registered session registered. */
  lemma SubmittedAppendKeeps(fold: Fold, st: Stations, entries: seq<SatelliteMessage>, satellite: string,
                             secret: SecretTransmissionSplit)
    requires Registered(fold, st, entries) && Matching(fold, entries, satellite).None?
    requires satellite in Names(st)
    ensures Registered(fold, st, Submitted(fold, st, entries, satellite, secret).value)
  {
    var next := Submitted(fold, st, entries, satellite, secret).value;
    assert next == entries + [SatelliteMessage(secret.distance, secret.message, satellite)];
    forall i, j | 0 <= i < j < |next|
      ensures fold(next[i].name) != fold(next[j].name)
    {
      if j == |entries| {
        assert next[i] == entries[i];
      }
    }
  }

  /** Every write keeps a registered session registered. */
  lemma SubmittedKeepsRegistered(fold: Fold, st: Stations, entries: seq<SatelliteMessage>, satellite: string,
                                 secret: SecretTransmissionSplit)
    requires Registered(fold, st, entries)
    ensures Submitted(fold, st, entries, satellite, secret).Some? ==>
      Registered(fold, st, Submitted(fold, st, entries, satellite, secret).value)
  {
    if Matching(fold, entries, satellite).Some? {
      SubmittedOverwriteKeeps(fold, st, entries, satellite, secret);
    } else if satellite in Names(st) {
      SubmittedAppendKeeps(fold, st, entries, satellite, secret);
    }
  }

  /** The names of the entries. */
  function EntryNames(entries: seq<SatelliteMessage>): set<string>
  {
    if entries == [] then {} else EntryNames(entries[..|entries| - 1]) + {entries[|entries| - 1].name}
  }

  /** Entries whose names differ pairwise have as many names as entries, all of
      them drawn from the entries. */
  lemma {:induction false} EntryNamesCount(entries: seq<SatelliteMessage>)
    requires forall i, j :: 0 <= i < j < |entries| ==> entries[i].name != entries[j].name
    ensures |EntryNames(entries)| == |entries|
    ensures forall x :: x in EntryNames(entries) ==> exists i :: 0 <= i < |entries| && entries[i].name == x
  {
    if entries != [] {
      var init := entries[..|entries| - 1];
      EntryNamesCount(init);
      var last := entries[|entries| - 1].name;
      assert last !in EntryNames(init);
      forall x | x in EntryNames(entries)
        ensures exists i :: 0 <= i < |entries| && entries[i].name == x
      {
        if x != last {
          var i :| 0 <= i < |init| && init[i].name == x;
          assert entries[i].name == x;
        }
      }
    }
  }

  /** A registered session holds at most one entry per station: three at most. */
  lemma RegisteredAtMostThree(fold: Fold, st: Stations, entries: seq<SatelliteMessage>)
    requires Registered(fold, st, entries)
    ensures |entries| <= 3
  {
    forall i, j | 0 <= i < j < |entries|
      ensures entries[i].name != entries[j].name
    {
      assert fold(entries[i].name) != fold(entries[j].name);
    }
    EntryNamesCount(entries);
    assert EntryNames(entries) <= Names(st);
    SubsetSize(EntryNames(entries), Names(st));
  }

  /** A subset is no larger than its superset. */
  lemma SubsetSize(a: set<string>, b: set<string>)
    requires a <= b
    ensures |a| <= |b|
  {
    assert b == a + (b - a);
  }

  // ---------------------------------------------------------------------------
  // Guard order
  // ---------------------------------------------------------------------------

  /** The atomic call throws when a station is not configured, answers null with
      fewer than three reports, and otherwise answers with a position and the
      fused message only when all three named reports exist, the position is
      found and the message is not empty. */
  lemma AtomicOrder(fold: Fold, solve: Solver, options: seq<Satellite>, reports: seq<SatelliteMessage>)
    ensures Configured(fold, options).None? <==> Atomic(fold, solve, options, reports) == Throws(ConfigurationMissing)
    ensures Configured(fold, options).Some? && |reports| < 3 ==> Atomic(fold, solve, options, reports) == Null
    ensures Atomic(fold, solve, options, reports).Final? ==>
      3 <= |reports| && Atomic(fold, solve, options, reports).message == Transmission.Fused(reports) &&
      Transmission.Fused(reports) != ""
  {
  }

  /** Resolution throws exactly when a station's report is missing by exact
      name, answers null when the position or the message cannot be recovered,
      and otherwise answers with the triangulated position and the fused message. */
  lemma ResolveOutcome(solve: Solver, st: Stations, reports: seq<SatelliteMessage>)
    ensures Resolve(solve, st, reports).Throws? <==>
      Named(reports, "kenobi").None? || Named(reports, "skywalker").None? || Named(reports, "sato").None?
    ensures Resolve(solve, st, reports).Final? ==>
      var k, w, t := Named(reports, "kenobi").value, Named(reports, "skywalker").value, Named(reports, "sato").value;
      reports[k].distance != 0.0 && reports[w].distance != 0.0 && reports[t].distance != 0.0 &&
      Resolve(solve, st, reports).position ==
        solve(st.kenobi.coordinates, reports[k].distance, st.skywalker.coordinates, reports[w].distance,
              st.sato.coordinates, reports[t].distance) &&
      Resolve(solve, st, reports).message == Transmission.Fused(reports) != ""
    ensures Resolve(solve, st, reports).Null? ==>
      Transmission.Fused(reports) == "" ||
      reports[Named(reports, "kenobi").value].distance == 0.0 ||
      reports[Named(reports, "skywalker").value].distance == 0.0 ||
      reports[Named(reports, "sato").value].distance == 0.0
  {
  }

  /** A split call with a missing configuration throws and leaves the session
      alone; a refused station answers null and leaves it alone; otherwise the
      write persists, the reply is null below three entries, and the session has
      at most three entries. */
  lemma SplitOrder(fold: Fold, solve: Solver, options: seq<Satellite>, entries: seq<SatelliteMessage>,
                   satellite: string, secret: SecretTransmissionSplit)
    ensures Configured(fold, options).None? ==>
      SplitStep(fold, solve, options, entries, satellite, secret) == Step(entries, Throws(ConfigurationMissing))
    ensures Configured(fold, options).Some? && Submitted(fold, Configured(fold, options).value, entries, satellite, secret).None? ==>
      SplitStep(fold, solve, options, entries, satellite, secret) == Step(entries, Null)
    ensures Configured(fold, options).Some? && Submitted(fold, Configured(fold, options).value, entries, satellite, secret).Some? ==>
      var next := Submitted(fold, Configured(fold, options).value, entries, satellite, secret).value;
      SplitStep(fold, solve, options, entries, satellite, secret).entries == next &&
      (|next| < 3 ==> SplitStep(fold, solve, options, entries, satellite, secret).reply == Null) &&
      (3 <= |next| ==> SplitStep(fold, solve, options, entries, satellite, secret).reply ==
                       Resolve(solve, Configured(fold, options).value, next))
  {
  }

  /** A split call on a registered session yields a registered session, which
      holds at most three entries. */
  lemma SplitKeepsRegistered(fold: Fold, solve: Solver, options: seq<Satellite>, entries: seq<SatelliteMessage>,
                             satellite: string, secret: SecretTransmissionSplit)
    requires Configured(fold, options).Some? && Registered(fold, Configured(fold, options).value, entries)
    ensures Registered(fold, Configured(fold, options).value,
                       SplitStep(fold, solve, options, entries, satellite, secret).entries)
    ensures |SplitStep(fold, solve, options, entries, satellite, secret).entries| <= 3
  {
    var st := Configured(fold, options).value;
    SubmittedKeepsRegistered(fold, st, entries, satellite, secret);
    RegisteredAtMostThree(fold, st, SplitStep(fold, solve, options, entries, satellite, secret).entries);
  }

  // ---------------------------------------------------------------------------
  // The documented sample, submitted one station at a time
  // ---------------------------------------------------------------------------

  /** Stations named kenobi, skywalker and sato, at any coordinates. */
  function SampleOptions(a: Point, b: Point, c: Point): seq<Satellite>
  {
    [Satellite("kenobi", a), Satellite("skywalker", b), Satellite("sato", c)]
  }

  /** The stations of the sample configuration, when the three keys fold apart. */
  function SampleStations(a: Point, b: Point, c: Point): Stations
  {
    Stations(Satellite("kenobi", a), Satellite("skywalker", b), Satellite("sato", c))
  }

  /** The sample fragments as split payloads, kenobi, skywalker and sato in turn. */
  function SamplePayload(i: nat): SecretTransmissionSplit
    requires i < 3
  {
    var r := Transmission.SampleReports()[i];
    SecretTransmissionSplit(r.distance, r.message)
  }

  lemma SampleConfigured(fold: Fold, a: Point, b: Point, c: Point)
    requires fold("kenobi") != fold("skywalker") && fold("kenobi") != fold("sato") &&
             fold("skywalker") != fold("sato")
    ensures Configured(fold, SampleOptions(a, b, c)) == Some(SampleStations(a, b, c))
  {
    var options := SampleOptions(a, b, c);
    assert Lookup(fold, options, "kenobi") == Some(options[0]);
    assert Lookup(fold, options, "skywalker") == Some(options[1]);
    assert Lookup(fold, options, "sato") == Some(options[2]);
  }

  /** Submitting the i-th sample fragment to the session of the first i extends
      it to the first i + 1 sample reports. */
  lemma SampleSubmitted(fold: Fold, a: Point, b: Point, c: Point, i: nat)
    requires fold("kenobi") != fold("skywalker") && fold("kenobi") != fold("sato") &&
             fold("skywalker") != fold("sato")
    requires i < 3
    ensures Submitted(fold, SampleStations(a, b, c), Transmission.SampleReports()[..i],
                      Transmission.SampleReports()[i].name, SamplePayload(i)) ==
            Some(Transmission.SampleReports()[..i + 1])
  {
    var rs, st := Transmission.SampleReports(), SampleStations(a, b, c);
    var before, name := rs[..i], rs[i].name;
    assert name in Names(st) by {
      if i == 0 {} else if i == 1 {} else {}
    }
    forall j | 0 <= j < |before|
      ensures fold(before[j].name) != fold(name)
    {
      if i == 1 {} else {
        if j == 0 {} else {}
      }
    }
    SubmittedAppend(fold, st, before, name, SamplePayload(i));
    assert before + [SatelliteMessage(rs[i].distance, rs[i].message, name)] == rs[..i + 1];
  }

  /** The i-th split call of the sample session. */
  lemma SampleStep(fold: Fold, solve: Solver, a: Point, b: Point, c: Point, i: nat)
    requires fold("kenobi") != fold("skywalker") && fold("kenobi") != fold("sato") &&
             fold("skywalker") != fold("sato")
    requires i < 3
    ensures
      var rs := Transmission.SampleReports();
      SplitStep(fold, solve, SampleOptions(a, b, c), rs[..i], rs[i].name, SamplePayload(i)) ==
      Step(rs[..i + 1], if i < 2 then Null else Resolve(solve, SampleStations(a, b, c), rs[..i + 1]))
  {
    SampleConfigured(fold, a, b, c);
    SampleSubmitted(fold, a, b, c, i);
  }

  /** Resolution over the sample reports. */
  lemma SampleResolves(solve: Solver, a: Point, b: Point, c: Point)
    ensures Resolve(solve, SampleStations(a, b, c), Transmission.SampleReports()) ==
            Final(solve(a, 100.0, b, 115.5, c, 142.7), "este es un mensaje secreto.")
  {
    var rs, st := Transmission.SampleReports(), SampleStations(a, b, c);
    SampleNamed();
    assert Triangulation(solve, st.kenobi, 100.0, st.skywalker, 115.5, st.sato, 142.7) ==
           Some(solve(a, 100.0, b, 115.5, c, 142.7));
    Transmission.SampleFuses();
  }

  /** The sample reports, found by exact name, are the first, second and third. */
  lemma SampleNamed()
    ensures Named(Transmission.SampleReports(), "kenobi") == Some(0)
    ensures Named(Transmission.SampleReports(), "skywalker") == Some(1)
    ensures Named(Transmission.SampleReports(), "sato") == Some(2)
  {
    var rs := Transmission.SampleReports();
    assert rs[0].name == "kenobi" && rs[1].name == "skywalker" && rs[2].name == "sato";
    assert "kenobi" != "skywalker" && "kenobi" != "sato" && "skywalker" != "sato";
  }

  /** Three split submissions of the sample fragments, kenobi first and sato
      last, answer null twice and then with the solver's position and the
      documented message; the session then holds the sample reports. */
  lemma SampleSession(fold: Fold, solve: Solver, a: Point, b: Point, c: Point)
    requires fold("kenobi") != fold("skywalker") && fold("kenobi") != fold("sato") &&
             fold("skywalker") != fold("sato")
    ensures
      var options := SampleOptions(a, b, c);
      var one := SplitStep(fold, solve, options, [], "kenobi", SamplePayload(0));
      var two := SplitStep(fold, solve, options, one.entries, "skywalker", SamplePayload(1));
      var three := SplitStep(fold, solve, options, two.entries, "sato", SamplePayload(2));
      one.reply == Null && two.reply == Null &&
      three.entries == Transmission.SampleReports() &&
      three.reply == Final(solve(a, 100.0, b, 115.5, c, 142.7), "este es un mensaje secreto.")
  {
    var rs := Transmission.SampleReports();
    assert rs[..0] == [] && rs[..3] == rs;
    assert rs[0].name == "kenobi" && rs[1].name == "skywalker" && rs[2].name == "sato";
    var options, st := SampleOptions(a, b, c), SampleStations(a, b, c);
    SampleStep(fold, solve, a, b, c, 0);
    var one := SplitStep(fold, solve, options, [], "kenobi", SamplePayload(0));
    assert one == Step(rs[..1], Null);
    SampleStep(fold, solve, a, b, c, 1);
    var two := SplitStep(fold, solve, options, one.entries, "skywalker", SamplePayload(1));
    assert two == Step(rs[..2], Null);
    SampleStep(fold, solve, a, b, c, 2);
    var three := SplitStep(fold, solve, options, two.entries, "sato", SamplePayload(2));
    assert three == Step(rs, Resolve(solve, st, rs));
    SampleResolves(solve, a, b, c);
  }
}
