# Quasar fire: message fusion and resolution, modelled in Dafny

This project models the core of a small ASP.NET service. Three stations,
kenobi, skywalker and sato, each hear part of a secret message and their
distance to the emitter. The service rebuilds the message and locates the
emitter.

Message fusion works in four steps:

- find the shortest fragment (MinimumWords);
- trim every longer fragment to its trailing words (CheckLengths, the phase-shift correction);
- scan position by position and report by report, appending each heard word that differs from the last one appended (MergeBrokenMessages);
- accept the result only when the number of merged words equals MinimumWords; it is then joined by spaces and ended with a period (GetMessage). A position nobody heard is not checked for.

The service checks the station configuration and collects split submissions
in a session list that the calls share. When three reports are at hand, it
triangulates the emitter and fuses the message.

Modules, one per source file or concern:

| file | module | models |
|---|---|---|
| wrappers.dfy | Wrappers | `Option` (a C# null) and `Find`, the first-match search of `List.Find` / `FirstOrDefault` |
| records.dfy | Records | the report records `SatelliteMessage`, `SecretTransmissionSplit`, `SatelliteMessageSplit` and their `TotalWords` |
| message.dfy | Messages | `Message.ToString` (Model/Message.cs) and reading its output back |
| text.dfy | Text | splitting a string on spaces, the inverse used in the round-trip lemmas |
| transmission.dfy | Transmission | Model/Requests/SecretTransmission.cs |
| legacy_transmission.dfy | LegacyTransmission | the `GetMessage` of Model/SecretTransmission.cs |
| geometry.dfy | Geometry | points, configured stations and `Point2D.Triangulation` with the floating-point solver abstract |
| service.dfy | Service | Services/TopSecretService.cs as a class holding the session list |

Imperative code stays imperative:

- The counting loops, the phase-shift loop, the nested merge loop and the StringBuilder loops are `method`s with loop invariants.
- Each method is proved equal to a specification function: `MinWords`, `MaxWords`, `Aligned`, `Merged`, `Sentence`, `Fused`, `Rendered`.
- The properties are lemmas about those functions.

The service is a class:

- the session list is a `seq` field that the split call reassigns;
- the split call has a `modifies` clause, and the atomic call has none;
- they are proved against the step functions `Atomic` and `SplitStep`, whose guard order and session properties are lemmas.

Modelling decisions:

- Integers: fragment lengths are C# `int` counts, so `Words` is a sequence of at most `int.MaxValue` words. This makes `MinimumWords` of a non-empty list one of the lengths.
- Case folding: the invariant-culture comparison `string.Equals(a.ToLowerInvariant(), b, InvariantCultureIgnoreCase)` is modelled as `fold(a) == fold(b)` for an abstract `fold: string -> string`. The configuration lookups and the session lookup use it.
- Exact comparisons stay exact: the check that a new station's name is one of the configured names, and the `Find(e => e.Name == "kenobi")` lookups before triangulation.
- Triangulation: `Point2D.Triangulation` returns null exactly when some distance is zero. Otherwise it returns what an abstract `solve` function computes from the three anchors and distances.
- Exceptions become `Reply.Throws`: `SecretMessageException` for a missing configuration, and the null dereference when a report named exactly kenobi, skywalker or sato is missing. A `null` return becomes `Reply.Null`.
- Unknown station: a split call for a station that matches no entry and is not a configured name returns null and leaves the session unchanged (Services/TopSecretService.cs:109-116); no distinct error is raised.
- String lengths: a Dafny `string` is a sequence of Unicode scalar values. The one place where the counting unit of a string length matters, the older GetMessage, uses `StringBuilder.Length`, which counts UTF-16 code units; `LegacyTransmission.Utf16Length` counts those.
- Extracted loops and blocks: `Transmission.MergePosition` is the inner `foreach` of MergeBrokenMessages. `Service.TopSecretService.Store` is the session-write block of GetFinalResponseFromSplit, and `Service.TopSecretService.Respond` is the triangulate-then-fuse tail that both service calls share. Each runs the source's statements in the source's order.
- Duplicated overloads: Model/Requests/SecretTransmission.cs has instance and static copies of `MinimumWords`, `CheckLengths`, `MergeBrokenMessages` and `GetMessage` with the same logic. Model/SecretTransmission.cs repeats `TotalWords`, `MinimumWords`, `CheckLengths` and `MergeBrokenMessages`. Each is modelled once, as a method over the report list. Only the older `GetMessage` differs, and it has its own member in LegacyTransmission.

## Model

| member | source | states |
|---|---|---|
| Wrappers.Find | Services/TopSecretService.cs:106-107 | the index of the first element satisfying the test and no earlier one, or None exactly when no element satisfies it |
| Records.CountHeard | Model/SatelliteMessage.cs:24-27 | the number of non-empty words is at most the fragment length, and equals it exactly when no word is empty |
| Records.CountHeardAppend | Model/SatelliteMessage.cs:24-27 | counting heard words is additive over concatenation |
| Records.CountHeardAllBlank | Model/SatelliteMessage.cs:24-27 | an all-blank or empty fragment has no heard words |
| Records.CountHeardInsertBlank | Model/SatelliteMessage.cs:24-27 | inserting a blank word anywhere never changes the count |
| Records.SatelliteMessage.TotalWords | Model/SatelliteMessage.cs:24-27 | between 0 and the fragment length, equal to it exactly when no word is blank |
| Records.SecretTransmissionSplit.TotalWords | Model/Requests/SecretTransmissionSplit.cs:23-26 | between 0 and the fragment length, equal to it exactly when no word is blank |
| Records.SatelliteMessageSplit.TotalWords | Model/SatelliteMessageSplit.cs:21-24 | between 0 and the fragment length, equal to it exactly when no word is blank |
| Records.TotalWordsIgnoresDistanceAndName | Model/SatelliteMessage.cs:10-27 | TotalWords depends only on the fragment, not on distance or name |
| Records.TransmissionSplitIgnoresDistance | Model/Requests/SecretTransmissionSplit.cs:10-26 | the split submission's TotalWords does not depend on the distance |
| Records.MessageSplitIgnoresDistance | Model/SatelliteMessageSplit.cs:10-24 | the nameless split record's TotalWords does not depend on the distance |
| Messages.Token | Model/Message.cs:21 | an empty word shows as "*", any other word verbatim |
| Messages.Tokens | Model/Message.cs:19-24 | one token per word |
| Messages.Message.ToString | Model/Message.cs:15-27 | the output is the in-order rendering of every word followed by a space; its length is the sum of max(length, 1) plus the word count; a non-empty list ends in a space |
| Messages.RenderedLength | Model/Message.cs:19-24 | the rendered length is the sum of max(length, 1) over the words plus the number of words |
| Messages.RenderedConcat | Model/Message.cs:19-24 | rendering a concatenation is the concatenation of the renderings, so word order is kept |
| Messages.RenderedEnds | Model/Message.cs:17-26 | the empty list renders as "", a non-empty one ends with a space |
| Messages.Untokens | Model/Message.cs:21 | reading tokens back gives one word per token |
| Messages.UntokensTokens | Model/Message.cs:21 | reading the tokens back gives the words when no word is "*" |
| Messages.SplitRendered | Model/Message.cs:19-24 | splitting the rendering on spaces gives the tokens and one trailing empty piece |
| Messages.RenderedRoundTrip | Model/Message.cs:15-27 | the rendering is lossless for words without spaces that are not "*" |
| Geometry.Triangulation | Model/Point2D.cs:121-127 | no position exactly when some distance is zero, otherwise the solver's point for the three anchors and distances |
| Transmission.MinWordsIsMinimum | Model/Requests/SecretTransmission.cs:50-62 | MinimumWords is at most every fragment length and equals one of them for a non-empty list, and is int.MaxValue for no reports (same loop at Model/SecretTransmission.cs:33-45) |
| Transmission.MaxWordsIsMaximum | Model/Requests/SecretTransmission.cs:17-26 | TotalWords is at least every fragment length and equals one of them, or 0 for no reports |
| Transmission.MinAtMostMax | Model/Requests/SecretTransmission.cs:17-44 | for a non-empty list, TotalWords is at least MinimumWords |
| Transmission.TotalWords | Model/Requests/SecretTransmission.cs:17-26 | the loop returns the maximum fragment length, attained by some report, or 0 for no reports (same loop at Model/SecretTransmission.cs:18-27) |
| Transmission.MinimumWords | Model/Requests/SecretTransmission.cs:32-62 | the loop returns MinWords, the shortest length from int.MaxValue down |
| Transmission.TrimmedShape | Model/Requests/SecretTransmission.cs:109-124 | a trimmed fragment keeps name and distance and is the trailing `min` words; a fragment of exactly `min` words is passed through unchanged |
| Transmission.TrimmedAllShape | Model/Requests/SecretTransmission.cs:105-125 | trimming a list keeps its length and order, each name and distance, and makes each fragment a `min`-word suffix of the original |
| Transmission.AlignedShape | Model/Requests/SecretTransmission.cs:100-128 | the correction keeps number and order of reports, names and distances; every fragment has exactly MinimumWords words and is a suffix of the original; fragments of that length are unchanged (same at Model/SecretTransmission.cs:50-78) |
| Transmission.UniformAligned | Model/Requests/SecretTransmission.cs:100-128 | reports all of length n have MinimumWords n and are left untouched |
| Transmission.CheckLengths | Model/Requests/SecretTransmission.cs:100-128 | the loop returns the aligned reports, each with at least MinimumWords words |
| Transmission.TrimmedAllSnoc | Model/Requests/SecretTransmission.cs:105-125 | each loop step appends the trimmed form of the next report |
| Transmission.Column | Model/Requests/SecretTransmission.cs:200-202 | one word per report at a position |
| Transmission.StreamLength | Model/Requests/SecretTransmission.cs:198-209 | the nested scan visits (number of reports) times (positions) words |
| Transmission.MergeBrokenMessages | Model/Requests/SecretTransmission.cs:191-212 | the nested loop computes the merge; the result has no blank word, no two equal adjacent words, and at most (number of reports) times MinimumWords words (same at Model/SecretTransmission.cs:99-120) |
| Transmission.Merged | Model/Requests/SecretTransmission.cs:191-212 | the merge as a function: the append rule run over the aligned fragments, position by position and report by report; its properties are MergedProperties and MergedIsCollapsedHeard |
| Transmission.MergePosition | Model/Requests/SecretTransmission.cs:200-208 | the inner loop appends, in report order, each heard word at one position that differs from the last appended |
| Transmission.VotesClean | Model/Requests/SecretTransmission.cs:204-207 | the append rule keeps a list free of blanks and adjacent repeats |
| Transmission.VotesFrom | Model/Requests/SecretTransmission.cs:204-207 | every appended word comes from the scanned words, and at most one per scanned word is appended |
| Transmission.VotesAppend | Model/Requests/SecretTransmission.cs:198-209 | scanning two stretches in turn is scanning their concatenation |
| Transmission.StreamAt | Model/Requests/SecretTransmission.cs:198-202 | words are scanned position-major, then in report order: position i of report j is visited at step i times |reports| plus j |
| Transmission.StreamMember | Model/Requests/SecretTransmission.cs:198-202 | every scanned word is some aligned fragment's word at some position |
| Transmission.MergedProperties | Model/Requests/SecretTransmission.cs:191-212 | the merge is clean, at most (reports) times MinimumWords long, and each merged word occurs in some aligned fragment |
| Transmission.Collapsed | Model/Requests/SecretTransmission.cs:204 | dropping adjacent repeats is empty only for the empty list and keeps the last word |
| Transmission.VotesIsCollapsedHeard | Model/Requests/SecretTransmission.cs:198-209 | the merge equals an independent description: drop the blanks, then collapse runs of equal words |
| Transmission.MergedIsCollapsedHeard | Model/Requests/SecretTransmission.cs:191-212 | the merged message is the collapsed heard words of the position-major scan |
| Transmission.BuildSentence | Model/Requests/SecretTransmission.cs:159-163 | the StringBuilder loop yields the words joined by single spaces with '.' after the last, and "" for no words |
| Transmission.GetMessage | Model/Requests/SecretTransmission.cs:153-166 | the result is non-empty exactly when the merged count equals MinimumWords and is positive; a non-empty result is the sentence of the merged words and ends with '.' |
| Transmission.Fused | Model/Requests/SecretTransmission.cs:153-166 | the fusion as a function: the sentence of the merge when it has MinimumWords words, otherwise ""; its properties are FusedAccepts and ConsistentFusion |
| Transmission.SentenceEnds | Model/Requests/SecretTransmission.cs:159-163 | the sentence is "" exactly for no words and otherwise ends with '.' |
| Transmission.FusedAccepts | Model/Requests/SecretTransmission.cs:153-166 | fusion succeeds exactly when the number of merged words equals MinimumWords and is positive; a success is the sentence of the merged words ending in '.'; MinimumWords 0 gives "" |
| Transmission.UnheardPositionAccepted | Model/Requests/SecretTransmission.cs:165 | the test counts merged words, not heard positions: kenobi ["a", ""] and skywalker ["b", ""] fuse to "a b." although position 1 was heard by nobody |
| Transmission.UnheardStream | Model/Requests/SecretTransmission.cs:198-209 | for kenobi ["a", ""] and skywalker ["b", ""], MinimumWords is 2, nothing is trimmed and the scan visits "a", "b", "", "" |
| Transmission.UnheardVotes | Model/Requests/SecretTransmission.cs:204-207 | the append rule keeps "a" and "b" from that scan and skips the blanks |
| Transmission.SentenceLength | Model/Requests/SecretTransmission.cs:159-163 | the sentence has one character per letter plus one separator or period per word |
| Transmission.LettersOfHeard | Model/Requests/SecretTransmission.cs:204 | merged words are non-empty, so they have at least one letter each |
| Transmission.SplitSpaced | Model/Requests/SecretTransmission.cs:159-163 | single spaces separate the words: splitting gives them back |
| Transmission.SentenceRoundTrip | Model/Requests/SecretTransmission.cs:159-163 | dropping the period and splitting on spaces recovers the words |
| Transmission.VotesBlanks | Model/Requests/SecretTransmission.cs:204 | blank words are never appended |
| Transmission.VotesColumn | Model/Requests/SecretTransmission.cs:200-208 | a position whose words are blank or one word x, with x heard at least once, appends x once when the last word differs |
| Transmission.ConsistentColumn | Model/Requests/SecretTransmission.cs:200-202 | for fragments consistent with a message, each position holds only blanks or that position's word, and some report heard it |
| Transmission.VotesConsistent | Model/Requests/SecretTransmission.cs:198-209 | for consistent fragments, the first k positions merge to the first k words of the message |
| Transmission.ConsistentFusion | Model/Requests/SecretTransmission.cs:153-212 | for any report list whose aligned fragments are consistent with a message with no blanks and no adjacent repeats, and whose MinimumWords is the message length, the fusion is exactly that message |
| Transmission.IdenticalFragments | Model/Requests/SecretTransmission.cs:153-212 | stations that all heard the whole message fuse to it |
| Transmission.EmptyFragmentFails | Model/Requests/SecretTransmission.cs:153-166 | a station that heard nothing makes MinimumWords 0 and the result "" |
| Transmission.SampleAligned | Controllers/TopSecretController.cs:42-58 | the documented sample has MinimumWords 5 and nothing to trim |
| Transmission.SampleAgrees | Controllers/TopSecretController.cs:42-58 | each sample fragment agrees with "este es un mensaje secreto" |
| Transmission.SampleConsistent | Controllers/TopSecretController.cs:42-58 | the sample fragments are consistent with the five words |
| Transmission.SampleClean | Controllers/TopSecretController.cs:42-58 | the five sample words have no blank and no adjacent repeat |
| Transmission.SampleMerges | Controllers/TopSecretController.cs:42-58 | the sample merges to ["este", "es", "un", "mensaje", "secreto"] |
| Transmission.SampleFuses | Controllers/TopSecretController.cs:42-58 | the sample fuses to "este es un mensaje secreto." |
| Transmission.SampleSentence | Model/Requests/SecretTransmission.cs:159-163 | the five sample words build "este es un mensaje secreto." |
| LegacyTransmission.Utf16Length | Model/SecretTransmission.cs:96 | the UTF-16 length lies between the number of scalar values and twice it, and equals it exactly when every character is below U+10000 |
| LegacyTransmission.Utf16LengthConcat | Model/SecretTransmission.cs:96 | code units add up over concatenation |
| LegacyTransmission.LegacyFused | Model/SecretTransmission.cs:84-97 | the older fusion: the sentence of the merged words when its UTF-16 length equals MinimumWords, otherwise "" |
| LegacyTransmission.GetMessage | Model/SecretTransmission.cs:84-97 | the older test accepts only a sentence whose UTF-16 length equals MinimumWords; an accepted result ends with '.' and is the sentence of the merged words |
| LegacyTransmission.LegacyNeverComplete | Model/SecretTransmission.cs:96 | the older test accepts a merge only if it has at most half as many words as positions, so every complete fusion is refused |
| LegacyTransmission.LegacySampleRefused | Model/SecretTransmission.cs:96 | on the documented sample, 27 code units are compared with 5 positions, so the older GetMessage returns "" |
| LegacyTransmission.SampleUnits | Model/SecretTransmission.cs:96 | the sample sentence is 27 code units long |
| LegacyTransmission.LegacyAstralRefused | Model/SecretTransmission.cs:96 | one report ["\U{1F600}", ""]: MinimumWords 2, sentence of two scalar values but three code units, so the older GetMessage returns "" |
| LegacyTransmission.LegacyAstralAccepted | Model/SecretTransmission.cs:96 | one report ["\U{1F600}", "", ""]: three code units match MinimumWords 3, so the older GetMessage accepts a one-word merge that the current GetMessage refuses |
| Service.Lookup | Services/TopSecretService.cs:33-41 | the first configured station whose name folds like the key, no earlier one folding like it, or None exactly when there is none |
| Service.Configured | Services/TopSecretService.cs:33-47 | the three stations are found exactly when each key has a case-insensitive match, each one configured and folding like its key |
| Service.Named | Services/TopSecretService.cs:140-142 | a report named exactly as asked, or None exactly when there is none |
| Service.Matching | Services/TopSecretService.cs:106-107 | the first session entry whose name folds like the station's, or None exactly when there is none |
| Service.Resolve | Services/TopSecretService.cs:57-82 | the shared tail as a function: exact-name lookups, then triangulation, then fusion; its outcomes are stated by ResolveOutcome |
| Service.Atomic | Services/TopSecretService.cs:28-83 | GetFinalResponse as a function: configuration, then three reports, then Resolve; its guard order is stated by AtomicOrder |
| Service.Submitted | Services/TopSecretService.cs:106-131 | the session write as a function: overwrite the first fold match, else append a configured name, else refuse; stated by SubmittedUnknown, SubmittedOverwrite and SubmittedAppend |
| Service.SplitStep | Services/TopSecretService.cs:85-166 | GetFinalResponseFromSplit as a function of the old session; its guard order is stated by SplitOrder |
| Service.TopSecretService.constructor | Services/TopSecretService.cs:17-26 | a new service has an empty session, which satisfies the session invariant |
| Service.TopSecretService.GetFinalResponse | Services/TopSecretService.cs:28-83 | the atomic call follows the atomic step function and leaves the session alone |
| Service.TopSecretService.GetFinalResponseFromSplit | Services/TopSecretService.cs:85-166 | the new session and the reply are those of the split step function, and the session invariant is kept |
| Service.TopSecretService.Store | Services/TopSecretService.cs:106-131 | the station is known exactly when the write is defined; a known station's write is performed, an unknown one changes nothing; the invariant is kept |
| Service.TopSecretService.Respond | Services/TopSecretService.cs:140-165 | the shared tail returns the resolution of the reports |
| Service.SubmittedUnknown | Services/TopSecretService.cs:106-116 | a station is refused exactly when no entry folds like it and it is not exactly a configured name |
| Service.SubmittedOverwrite | Services/TopSecretService.cs:127-131 | a station matching an entry up to case overwrites the first such entry's message and distance, keeps its name and the length, and leaves every other entry unchanged |
| Service.SubmittedAppend | Services/TopSecretService.cs:117-125 | a new station with a configured name appends exactly one entry with the submitted distance, message and name |
| Service.SubmittedOverwriteKeeps | Services/TopSecretService.cs:127-131 | overwriting keeps the session invariant, since names are kept |
| Service.SubmittedAppendKeeps | Services/TopSecretService.cs:117-125 | appending keeps the session invariant |
| Service.SubmittedKeepsRegistered | Services/TopSecretService.cs:106-131 | every session write keeps the session invariant |
| Service.EntryNamesCount | Services/TopSecretService.cs:106-125 | pairwise distinct names are as many as the entries |
| Service.RegisteredAtMostThree | Services/TopSecretService.cs:106-125 | a session of configured names, distinct up to case folding, has at most three entries |
| Service.AtomicOrder | Services/TopSecretService.cs:43-82 | atomic mode throws the configuration fault exactly when the configuration is missing (a missing exact-name report throws the null dereference that ResolveOutcome covers), answers null with fewer than three reports, and answers only with the fused message of three or more reports |
| Service.ResolveOutcome | Services/TopSecretService.cs:57-82 | resolution throws exactly when a report by exact name is missing; a response carries the solver's position for non-zero distances and the non-empty fused message; null means a zero distance or an empty message |
| Service.SplitOrder | Services/TopSecretService.cs:100-165 | a missing configuration throws with the session unchanged; a refused station answers null with the session unchanged; otherwise the write persists, below three entries the reply is null, and from three on it is the resolution over the session |
| Service.SplitKeepsRegistered | Services/TopSecretService.cs:106-137 | a split call keeps the session invariant and the session stays at three entries or fewer |
| Service.SampleConfigured | Services/TopSecretService.cs:90-98 | stations named kenobi, skywalker and sato are configured when the three keys fold apart |
| Service.SampleSubmitted | Services/TopSecretService.cs:117-125 | submitting the sample fragments one at a time appends them in order |
| Service.SampleStep | Services/TopSecretService.cs:85-166 | the first two split calls of the sample answer null, the third resolves |
| Service.SampleNamed | Services/TopSecretService.cs:140-142 | the sample reports are found by exact name in order |
| Service.SampleResolves | Services/TopSecretService.cs:140-165 | the sample reports resolve to the solver's position and "este es un mensaje secreto." |
| Service.SampleSession | Services/TopSecretService.cs:85-166 | three split calls with the sample answer null, null, then the position and "este es un mensaje secreto.", and the session holds the three reports |

## Left out

- Floating-point trilateration is not modelled: Heron's formula, the sine and cosine, and the choice among candidate points in Point2D.cs. `solve` is an abstract parameter, and the only fact used is that Triangulation returns null exactly for a zero distance.
- Culture-specific case mapping is not modelled. `fold` is abstract, and the model takes `ToLowerInvariant` followed by an invariant-culture case-insensitive comparison to be `fold(a) == fold(b)`.
- The session list is shared by every service instance and every request, without locking. The model has one object and sequential calls only.
- Session entries are values. The source overwrites the stored `SatelliteMessage` object in place, and the model replaces the entry in the sequence. Aliasing between a stored object and the request that supplied it is not modelled.
- Null inputs are not modelled: null lists, a null word (which `Message.ToString` would append as nothing) and a null configuration.
- Logging, `Console.WriteLine`, the HTTP controllers, model validation, dependency injection and JSON serialisation are not modelled.
- The controller variant with its own static session list (TopSecret_SplitController.cs) is not part of this model. Service covers the same accumulator logic.
- Service.Resolve is evaluated for the first missing report by name; the source reads the three distances left to right. Every missing report throws the same null dereference, so the outcome does not depend on which one is missing.

## Findings

| source | as written | input that shows it | evidently intended | confidence | as-written member | corrected member |
|---|---|---|---|---|---|---|
| Model/SecretTransmission.cs:96 | accepts the finished message only when its length in UTF-16 code units equals MinimumWords | the documented sample: the sentence "este es un mensaje secreto." has 27 code units, MinimumWords is 5, so "" is returned | accept when the number of merged words equals MinimumWords, as Model/Requests/SecretTransmission.cs:165 does | not executed | LegacyTransmission.LegacySampleRefused | Transmission.SampleFuses |
