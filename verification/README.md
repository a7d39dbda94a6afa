# Verification of the pohunek client, daemon and tooling cores

pohunek runs agent sessions on hosts that its clients reach over overlay
networks. This project models seven of its cores in Dafny and proves what they
promise on every input and in every run.

1. **The SDK control connection** (`Versions`, `Compat`, `CompatRoundTrip`,
   `CompatLegacy`, `Transport`, `TransportRuns`, `TransportIds`, `TransportAnswers`,
   `TransportVersions`, `TransportCreation`, `TransportClasses`). A client keeps one
   connection, remembers the protocol version that connection is fixed on, and
   retires it after a deadline or after a reply to another request. The classes
   follow the source method by method and refine value-level functions;
   `TransportRuns` proves safety of the trace of every run of calls, whatever the
   daemon answers, delays, misaddresses or restarts on, and `TransportAnswers`
   tells what a call returns from the lines on the wire alone. The version-3 adapter
   is modelled concretely over JSON values.
2. **The checkout trust predicate** (`GitHubUrl`, `TrustTree`, `TrustWalk`,
   `TrustFiles`, `TrustPlaces`, `TrustListing`, `TrustContents`, `TrustEvaluate`,
   `TrustDeserved`). The disk is a tree together with its own path lookup, which may
   answer under another spelling; what git says of the fetched commit is a parameter.
   `TrustDeserved` says of the disk and of git's answers alone when a checkout is
   trusted, as an iff.
3. **The bounded process runner** (`Pipes`, `Supervisor`). A pipe is the sequence
   of outcomes of its reads; the supervising loop meets a sequence of polls.
4. **Keyed session creation** (`Budgets`, `Launch`, `LaunchLines`, `LaunchProtocol`).
   The launch methods split one time budget, and each attempt is a call of the
   modelled connection; the protocol is a state machine over a lossy network and
   daemons that honour keys, with one key store, or drop them.
5. **Discovery** (`Discovery`, `Aggregation`). The snapshot cache of the daemon and
   the merge of concurrent overlay answers.
6. **The bundle hash pre-image** (`Bundle`, `BundlePreimage`).
7. **Parsers, printers and the acceptance verdict** (`Routes`, `Targets`,
   `Evidence`). `Strings` and `Wrappers` hold shared definitions.

Imperative code is modelled by classes and methods with loops, each tied by its
`ensures` to a specification function or to the property itself; expression code
is modelled by functions and lemmas.

Where the code and its documentation disagree the model follows the code:

- `Subscription::next_line` is documented to hand out always a current-shape event.
  On the current version it hands out the line as it came, whatever it is.
  `LinesAreCurrentIffOlder` states exactly when the promise holds.
- The trust documentation compares scheme, host and owner without regard to letter
  case and strips a `.git` suffix. The code also lower-cases the name, but compares
  the suffix and the `git@` user literally, so `.GIT` stays part of the name.
  `LetterCaseMattersOnlyInSuffixAndUser` states exactly when two spellings of a URL
  agree.
- A route port is read by the standard `u16` parser, which also accepts a leading
  `+` and leading zeros. `ReprintIsTheRouteIffCanonical` states exactly when
  printing gives back the text: when the port text starts with a digit from 1 to 9.
- `DrainedPipe::finish` is documented to give nothing when the output could not be
  read. The non-blocking way hands out the bytes before a failed read.
  `FinishesAgreeIff` states exactly when the two ways agree.
- The verdict's comment says a failed exposure-window check is never hidden. A code
  for the check's own sub-step hides it, as `ExposureWithASubstepCanBeHidden` shows
  and `ExposureIsHiddenIff` states. The checks the script records carry no sub-step,
  so for them the comment holds (`RecordedExposureIsNeverHidden`).

## Model

| member | source | states |
|---|---|---|
| Versions.NewRange | crates/protocol/src/version.rs:141-150 | a range is built exactly when it contains a version |
| Versions.Narrow | crates/client/src/transport.rs:1688-1698 | exact intersection: a version is contained iff both ranges contain it, `None` iff they are disjoint |
| Versions.Negotiate | crates/protocol/src/version.rs:209-220 | the highest common version, `None` iff there is none |
| Versions.NarrowIdempotent | crates/daemon/src/discovery.rs:132-138 | narrowing twice changes nothing more, and a range inside the window is kept |
| Versions.NarrowCommutes | crates/daemon/src/discovery.rs:132-138 | narrowing a to b is narrowing b to a |
| Versions.NegotiateNarrowed | crates/client/src/transport.rs:1688-1698 | offering the narrowed range selects what offering the whole range would |
| Versions.PinnedNegotiation | crates/client/src/transport.rs:1682-1685 | a request pinned to v is executed under v or refused, whatever the daemon serves |
| Compat.RenameKey | crates/protocol/src/compat/v3.rs:408-421 | the value moves from one key to the other, every other key is kept, and a clash is the only error |
| CompatRoundTrip.RenameBack | crates/protocol/src/compat/v3.rs:395-405 | renaming an identity to the previous version and back is the identity |
| CompatRoundTrip.SessionBack | crates/protocol/src/compat/v3.rs:346-378 | a session translated down and up loses exactly the fields and warnings the previous version lacks |
| CompatRoundTrip.AllBack | crates/protocol/src/compat/v3.rs:346-378 | the same for every element of a list of sessions or identities |
| CompatRoundTrip.RequestRoundTrip | crates/protocol/src/compat/v3.rs:157-201 | parameters that go down come back up to what is forgotten; refused iff the previous version has no shape for it or its identity already has the old key; which lose nothing, as an iff |
| CompatRoundTrip.ResultRoundTrip | crates/protocol/src/compat/v3.rs:229-272 | every result translated down and up is the result up to what is forgotten |
| CompatRoundTrip.EventRoundTrip | crates/protocol/src/compat/v3.rs:274-307 | an event is withheld iff the previous version lacks it, otherwise it round trips up to what is forgotten |
| CompatRoundTrip.CallPreservesMeaning | crates/protocol/src/compat/mod.rs:249-280 | in one whole call the handler sees the caller's parameters and the caller the handler's result, exactly on the current version |
| CompatRoundTrip.ProbesAreVersionIndependent | crates/protocol/src/compat/mod.rs:348-355 | health, inspection and discovery may be sent before a version is selected |
| CompatRoundTrip.KeyedCreateNeedsVersion | crates/protocol/src/compat/v3.rs:203-213 | a keyed or secret-carrying creation is never version-independent |
| CompatRoundTrip.ForgetSessionIdempotent | crates/protocol/src/compat/v3.rs:346-378 | forgetting is a projection: a second passage loses nothing more |
| CompatLegacy.DowngradedResultIsLegacy | crates/protocol/src/compat/v3.rs:229-272 | no identity in a result sent to the previous version keeps the new key, and no session keeps a member or warning that version lacks, each listed by name |
| CompatLegacy.DowngradedRequestIsLegacy | crates/protocol/src/compat/v3.rs:157-201 | the same of request parameters |
| CompatLegacy.DowngradedEventIsLegacy | crates/protocol/src/compat/v3.rs:274-307 | the same of event payloads |
| CompatLegacy.OnlyTheListedIsForgotten | crates/protocol/src/compat/v3.rs:346-378 | what a passage forgets of a session is exactly the listed members; every other member is kept as it was |
| CompatLegacy.OnlyNewWarningsAreForgotten | crates/protocol/src/compat/v3.rs:346-378 | of a warning list exactly the new kinds are forgotten |
| CompatLegacy.ResultIsRefusedIff | crates/protocol/src/compat/v3.rs:229-272 | a result has no translation iff one of its identities already holds the other version's key, in either direction |
| CompatLegacy.EventIsRefusedIff | crates/protocol/src/compat/v3.rs:274-307 | the same of events |
| CompatLegacy.OtherPayloadsAreUntouched | crates/protocol/src/compat/v3.rs:229-307 | payloads without an identity or a session pass unchanged in both directions |
| Transport.RequestIdsDistinct | crates/client/src/transport.rs:1442-1456 | requests with different numbers never share an id |
| TransportIds.AskLines | crates/client/src/transport.rs:614-732 | a call writes at most one probe, under the next number, and one line under the request's own id |
| TransportIds.RunNumbered | crates/client/src/transport.rs:1442-1456 | the lines of a run carry ids the callers chose or numbers of the run, each number once |
| TransportIds.MadeUpIdsAreWrittenOnce | crates/client/src/transport.rs:1442-1456 | in every run, two lines share an id only when a caller chose it, so no id the SDK makes up is written twice |
| TransportClasses.Conn.Exchange | crates/client/src/transport.rs:1557-1610 | one line written, one reply read; the version, the poison mark and the result are those of `Exchange`, which `TransportAnswers.ExchangeEnds` and `ExchangeRetires` pin by what was read |
| TransportClasses.Conn.Request | crates/client/src/transport.rs:1498-1527 | the same within the deadline; a poisoned connection writes nothing |
| TransportClasses.Client.ReplacePoisonedConnection | crates/client/src/transport.rs:637-645 | a retired connection is replaced by a new incarnation with no version, or the dial error is returned |
| TransportClasses.Client.NegotiatedRequest | crates/client/src/transport.rs:671-709 | the request to write: pinned, forwarded, version-independent, or refused out of range |
| TransportClasses.Client.ProbeVersion | crates/client/src/transport.rs:712-732 | the health probe and what it selects |
| TransportClasses.Client.Send | crates/client/src/transport.rs:648-653 | one exchange on the current connection |
| TransportClasses.Client.Request | crates/client/src/transport.rs:614-622 | a whole call refines `Ask` on state, trace and result; `TransportAnswers.ResultIsExact` and `RetiredIff` say without `Ask` what that is |
| TransportClasses.Client.CallDirect | crates/client/src/transport.rs:878-889 | a typed call with the next request id |
| TransportClasses.Client.ConnectDedicated | crates/client/src/transport.rs:1252-1292 | a dedicated connection inherits the version only of a connection that is not retired |
| TransportClasses.Client.CallDedicated | crates/client/src/transport.rs:1188-1248 | a call on its own connection leaves the caller's client as it was |
| TransportClasses.Client.SessionNew | crates/client/src/transport.rs:840-876 | creation: an inspection first when a key or secret needs it, then the request |
| TransportClasses.Client.Subscribe | crates/client/src/transport.rs:1298-1325 | the stream is fixed on the version of the subscribe reply |
| TransportRuns.ExchangeKeeps | crates/client/src/transport.rs:1498-1610 | one exchange keeps the safety of the trace and the truth of the client's memory |
| TransportRuns.TransactKeeps | crates/client/src/transport.rs:648-732 | negotiation and exchange together keep them |
| TransportRuns.AskKeeps | crates/client/src/transport.rs:614-653 | a call, with its possible redial, keeps the run invariant |
| TransportRuns.StepKeeps | crates/client/src/transport.rs:614-653 | every kind of call keeps the run invariant |
| TransportRuns.EveryRunIsSafe | crates/client/src/transport.rs:614-653 | the trace of every run from a fresh client is safe |
| TransportRuns.RetiredConnectionIsNeverUsedAgain | crates/client/src/transport.rs:626-645 | after a deadline or a misaddressed reply nothing happens on that connection again, in every run |
| TransportRuns.NoReplyIsOutstandingAtAWrite | crates/client/src/transport.rs:1498-1610 | at every write, each earlier request on that connection has had its reply line read, unless the stream was reported failed or over, so no late answer on a live stream can be taken for it |
| TransportRuns.EveryWrittenLineIsWellWritten | crates/client/src/transport.rs:671-732 | before selection only version-independent requests and the probe are written; afterwards each line is pinned to the selected version or forwards a range containing it |
| TransportRuns.VersionIsFixedPerConnection | crates/client/src/transport.rs:1667-1680 | once a connection shows a version, every later line and accepted reply on it has that version |
| TransportRuns.PinnedRequestRunsUnderItsReplyVersion | crates/client/src/transport.rs:671-709 | a daemon that negotiates within the request's range never executes a pinned request under another version than its reply is decoded with |
| TransportRuns.OkIsTheOwnReply | crates/client/src/transport.rs:1557-1610 | an Ok payload comes from an accepted response with the request's own id, to the line written just before; which payload is said by `TransportAnswers.ResultIsExact` |
| TransportRuns.OwnLineIsWrittenAtMostOnce | crates/client/src/transport.rs:614-653 | a call writes its own line at most once, with its own id and parameters, after at most one probe |
| TransportRuns.OutOfRangeNeedsAFrozenConnection | crates/client/src/transport.rs:1705-1727 | a version learned by a probe always lies in the request's range, so the refusal arises only on a connection fixed before the call, and then nothing is written |
| TransportRuns.KeyIsInTheOwnLine | crates/client/src/transport.rs:840-876 | a creation call carries a key at most in its own line |
| TransportRuns.InspectionIsItsAnswer | crates/client/src/transport.rs:840-876 | a successful inspection is the answer read last, on the same usable connection, and carries no key |
| TransportRuns.KeyIsSentOnlyAfterAnAdvertisement | crates/client/src/transport.rs:840-876 | a key leaves in one line only, after that very connection advertised key support |
| TransportRuns.SubscribingKeeps | crates/client/src/transport.rs:1298-1325 | subscribing keeps safety, and nothing on the stream's connection showed another version |
| TransportRuns.DecodedEventHasTheStreamVersion | crates/client/src/transport.rs:1646-1664 | an event is handed out iff it is stamped with the stream's version and has a current shape, which it then has; another version is a version mismatch |
| TransportRuns.EventMeansTheSame | crates/client/src/transport.rs:1630-1664 | an event sent to a stream of the previous version arrives, typed or as a line, as it was but for what that version lacks |
| TransportRuns.LinesAreCurrentIffOlder | crates/client/src/transport.rs:1630-1642 | every line handed out is a current-shape event translated from the stream's version, exactly on a stream of an older version |
| TransportRuns.UncheckedLine | crates/client/src/transport.rs:1630-1642 | on the current version an event of another version, or any text, is handed out as it came |
| TransportAnswers.ExchangeEnds | crates/client/src/transport.rs:1557-1610 | how one exchange ends, by what was read last: the selected version, the result of an accepted answer, and which failures are a decision of the daemon |
| TransportAnswers.ResultIsExact | crates/client/src/transport.rs:1557-1610 | a call returns Ok(x) iff its own line got an accepted success whose payload upgrades to x; an accepted failure is that protocol error; everything else is an error |
| TransportAnswers.RetiredIff | crates/client/src/transport.rs:626-645 | a call retires its connection iff its last event is a deadline or a reply under another id |
| TransportAnswers.OwnLineIsInTheAnswersVersion | crates/client/src/transport.rs:671-709 | an answered line carried the parameters in the shape of the answer's version |
| TransportAnswers.CallMeansTheSame | crates/client/src/transport.rs:614-653 | end to end: when the daemon answers with the downgraded result, it read the caller's parameters and the caller gets that result, exactly on the current version and up to what is forgotten on the previous one |
| TransportAnswers.FixedCallIsServed | crates/client/src/transport.rs:671-709 | on a connection fixed on v, a request that allows v and has a shape there is written, pinned to v, and its answer accepted |
| TransportAnswers.FixedCallIsRefused | crates/client/src/transport.rs:1705-1727 | a version the request excludes, or has no shape in, refuses it with nothing written |
| TransportAnswers.IndependentCallIsServed | crates/client/src/transport.rs:671-709 | without a version, a version-independent request is written as it is |
| TransportAnswers.ProbedCallIsServed | crates/client/src/transport.rs:712-732 | without a version, any other request first probes over exactly what it and the window allow, then is written pinned to what the probe showed |
| TransportAnswers.RedialStartsOver | crates/client/src/transport.rs:637-645 | after a retired connection a call is the same call on a fresh one with no version, or the dial error |
| TransportAnswers.SubscribedIff | crates/client/src/transport.rs:1298-1325 | a subscription stands iff its own line was answered with a readable success, on that answer's version and connection |
| TransportVersions.FirstLineIsOpenOrInherited | crates/client/src/transport.rs:637-645 | in every run the first line on a connection has no version, or one that an unretired connection of the client had shown |
| TransportCreation.CreationFollowsItsCapabilities | crates/client/src/transport.rs:852-873 | a creation with a secret, or with a key, is written only after an accepted capability answer with that flag set was read on its connection |
| TransportCreation.UnsupportedCreationIsRefused | crates/client/src/transport.rs:855-873 | without the flag it is refused by name, the secret first, with nothing written but the inspection |
| TransportCreation.SupportedCreationIsServed | crates/client/src/transport.rs:855-876 | with the flags it is written on the same connection with the whole parameters, and its answer returned |
| TransportCreation.PlainCreationNeverInspects | crates/client/src/transport.rs:855-876 | a creation with neither secret nor key writes no inspection |
| GitHubUrl.AcceptsExactlyTheTwoForms | crates/daemon/src/checkout_trust.rs:668-693 | a URL is accepted iff it is one of the two forms, and the answer is the lower-cased owner and name without one `.git` |
| GitHubUrl.NamesIff | crates/daemon/src/checkout_trust.rs:680-693 | which characters an owner and a repository name may hold, by character code |
| GitHubUrl.FormsAgree | crates/daemon/src/checkout_trust.rs:668-693 | the https and the scp form of a repository, in any letter case of scheme and host, give the same answer |
| GitHubUrl.LetterCaseMattersOnlyInSuffixAndUser | crates/daemon/src/checkout_trust.rs:668-693 | a spelling of an accepted URL in other letter case means the same repository iff both or neither end in the literal suffix and it keeps the literal `git@` of the scp form |
| GitHubUrl.PathsAgreeIffSuffixesAgree | crates/daemon/src/checkout_trust.rs:680-693 | two spellings of an accepted path agree iff both or neither end in the literal suffix |
| GitHubUrl.UpperCaseSuffixIsAnotherRepository | crates/daemon/src/checkout_trust.rs:668-693 | for every owner and name, `.git` is removed and `.GIT` stays part of the repository name |
| GitHubUrl.SuffixExample | crates/daemon/src/checkout_trust.rs:668-693 | two concrete URLs that differ in the letter case of the suffix and name two repositories |
| GitHubUrl.UserExample | crates/daemon/src/checkout_trust.rs:668-693 | a concrete scp URL whose user in capitals is no repository |
| TrustWalk.ExactMeansLiteral | crates/daemon/src/checkout_trust.rs:503-538 | an exact lookup means every component exists literally, with no case-folding sibling, within the entry bound; a missing component means it does not exist literally |
| TrustWalk.Walk.ScanDirectory | crates/daemon/src/checkout_trust.rs:513-531 | refuses exactly on a case-folding sibling or past the bound, otherwise says whether the literal name is listed |
| TrustWalk.Walk.ResolveAbsent | crates/daemon/src/checkout_trust.rs:540-546 | only a path the file system does not resolve at all is absent |
| TrustWalk.Walk.ExactNames | crates/daemon/src/checkout_trust.rs:503-538 | the answer of the literal lookup with its entry count, unless the deadline passed |
| TrustWalk.Walk.Collect | crates/daemon/src/checkout_trust.rs:553-602 | an answer is true iff the path is absent or exact and its subtree is plain and fits what is left of depth 32, 8192 entries and 2048 files; then exactly its regular files are appended; `TrustDeserved.DeclaredIff` says the same of the disk alone |
| TrustWalk.Walk.CollectEntries | crates/daemon/src/checkout_trust.rs:589-601 | the same for the entries of one directory, in enumeration order |
| TrustTree.EntryFits | crates/daemon/src/checkout_trust.rs:589-601 | in a directory that fits, each entry fits after its predecessors |
| TrustPlaces.PlainIff | crates/daemon/src/checkout_trust.rs:553-602 | the walk allows a subtree iff every node in it is a regular file or a directory and every name in it is readable and not `.git` in any letter case |
| TrustPlaces.HeightIff | crates/daemon/src/checkout_trust.rs:553-556 | a subtree is within a depth iff no place in it lies deeper |
| TrustPlaces.CountIsThePlaces | crates/daemon/src/checkout_trust.rs:560-563 | the entries counted for a subtree are its places, each once |
| TrustPlaces.FilesDiffer | crates/daemon/src/checkout_trust.rs:397-402 | no file of a subtree is collected twice |
| TrustFiles.CollectedIsFile | crates/daemon/src/checkout_trust.rs:576-583 | everything collected is a regular file at that literal path, under the declared one |
| TrustFiles.ReachedIsCollected | crates/daemon/src/checkout_trust.rs:576-601 | a file reached by literal names below an accepted path is collected |
| TrustFiles.CollectedIffFileUnder | crates/daemon/src/checkout_trust.rs:548-602 | the collected files are the regular files at or below the path, no more and no fewer |
| TrustListing.ParseListing | crates/daemon/src/checkout_trust.rs:364-383 | the loop over the records reads the listing the specification reads |
| TrustListing.AcceptedIffAllFiles | crates/daemon/src/checkout_trust.rs:364-383 | the listing is accepted iff each record is a plain file, and holds exactly their paths |
| TrustListing.ListingRoundTrip | crates/daemon/src/checkout_trust.rs:361-383 | reading what git prints for any blobs gives those blobs back |
| TrustListing.LastLineCounts | crates/daemon/src/checkout_trust.rs:364-383 | of two lines for one path the later one counts |
| TrustContents.ThreeTestsAreSetEquality | crates/daemon/src/checkout_trust.rs:397-405 | the count and membership tests are duplicate-free set equality |
| TrustContents.OpenDeclaredFile | crates/daemon/src/checkout_trust.rs:437-458 | opened iff it is a regular file within the size limit |
| TrustContents.CompareFile | crates/daemon/src/checkout_trust.rs:406-420 | an answer says whether the file has the wanted bit, contents hash, kind and size; an error is an unreadable stat or a failed git command |
| TrustContents.WalkAll | crates/daemon/src/checkout_trust.rs:385-396 | the loop over the declared paths accepts iff each is accepted with what the earlier ones used, and gathers their files in order; an error is a clock late at a look the walk made, within the bound on entries, or a lookup the disk refuses |
| TrustContents.CompareFiles | crates/daemon/src/checkout_trust.rs:396-421 | an answer says whether the files are the expected ones, once each, all agreeing; an error is an unreadable stat or a failed git command |
| TrustContents.ContentsMatch | crates/daemon/src/checkout_trust.rs:360-422 | an answer says whether the listing is readable, every path is accepted and the files match; an error is that of the listing, of its records, of a lookup, of a clock late within the walk's bounded looks, or of one of the bounded hash commands |
| TrustContents.WalkFindsTheFiles | crates/daemon/src/checkout_trust.rs:385-396 | an accepted walk finds the regular files under the declared paths, no more and no fewer |
| TrustContents.PlainWalkFindsTheFiles | crates/daemon/src/checkout_trust.rs:385-396 | the same over plain subtrees, whatever the counts |
| TrustContents.MatchMeansSameFiles | crates/daemon/src/checkout_trust.rs:360-422 | a match means the map from path to executable bit and blob id on disk equals the remote's |
| TrustContents.OverlappingPathsAreRefused | crates/daemon/src/checkout_trust.rs:397-402 | two declared paths with a regular file of the disk at or below both never match, whatever is listed |
| TrustEvaluate.PathIsPlain | crates/daemon/src/checkout_trust.rs:611-651 | an answer says whether at every depth no ancestor is a link or a non-tree and no listed name collides by letter case; an error is that of a git command about one of the components |
| TrustEvaluate.PlainPathIsReal | crates/daemon/src/checkout_trust.rs:605-651 | a plain path that exists is reached through real directories only |
| TrustEvaluate.Evaluate | crates/daemon/src/checkout_trust.rs:311-356 | an answer is Trusted iff `ShouldTrust`, which `TrustDeserved.TrustedIff` spells out; an error is that of the fetch, of a path or of the comparison |
| TrustEvaluate.IsTrusted | crates/daemon/src/checkout_trust.rs:284-304 | true implies every reason for trust; false although every reason holds implies one of the named failures |
| TrustEvaluate.TrustMeans | crates/daemon/src/checkout_trust.rs:311-356 | trust, end to end: a trusted origin in one of the two forms, the same files, contents and bits as the printed remote tree, and declared paths reached through real directories under unambiguous literal names |
| TrustDeserved.ScanIff | crates/daemon/src/checkout_trust.rs:503-538 | the lookup of a path finds it iff each component is listed in its directory and no other name there folds to it, within 8192 entries; misses it iff a first component is not listed, without a variant; and counts exactly the entries of the directories it read |
| TrustDeserved.DeclaredIff | crates/daemon/src/checkout_trust.rs:553-602 | a declared path is accepted iff it is present under its own name over a comparable subtree, or absent altogether, within what is left of 8192 entries and 2048 files |
| TrustDeserved.WalkIff | crates/daemon/src/checkout_trust.rs:385-396 | all declared paths are accepted iff each is present or absent so and the totals stay within the bounds |
| TrustDeserved.FilesMatchIff | crates/daemon/src/checkout_trust.rs:397-421 | the comparison succeeds iff the disk holds exactly the expected files, each at most 4 MiB, with its hash and executable bit |
| TrustDeserved.PlainPathIff | crates/daemon/src/checkout_trust.rs:611-651 | a path is plain iff above each of its slashes there is no link on disk and nothing but a tree in the commit, and no listed name is one of its components in other letter case |
| TrustDeserved.TrustedIff | crates/daemon/src/checkout_trust.rs:311-422 | the whole answer as an iff over the origin, the `.git` entry, the declared paths, the bounds, and the files, contents and bits on disk and in the printed remote tree |
| Pipes.DrainKeeps | crates/daemon/src/bounded_run.rs:388-424 | one drain leaves exactly what a pipe that read all those bytes keeps, and overflows only above the limit |
| Pipes.DrainIsBounded | crates/daemon/src/bounded_run.rs:388-424 | one drain takes a bounded number of bytes even from a writer that never pauses |
| Pipes.AnySplitKeepsTheSame | crates/daemon/src/bounded_run.rs:363-424 | however output is split into reads and drains, the last bytes or all bytes are held, and a first-bytes pipe is within its limit iff no drain overflowed |
| Pipes.BlockingReadsAll | crates/daemon/src/bounded_run.rs:428-440 | a blocking read takes all of a complete stream, or its first bytes up to the room given |
| Pipes.DrainReadsAll | crates/daemon/src/bounded_run.rs:428-440 | a drain of a complete stream holds all its bytes iff they fit, and overflows otherwise |
| Pipes.FinishesAgreeIff | crates/daemon/src/bounded_run.rs:426-440 | the two finishes agree iff the reads reach the end or exceed the limit before one that delivers nothing and is final; otherwise one hands out bytes and the other nothing |
| Pipes.FailedReadIsHandedOut | crates/daemon/src/bounded_run.rs:426-440 | a concrete failed read on which they differ |
| Pipes.FinishesAgree | crates/daemon/src/bounded_run.rs:428-440 | both finishes agree on the same complete stream: all bytes iff they fit |
| Pipes.DrainsThenFinish | crates/daemon/src/bounded_run.rs:388-440 | drains followed by a finish yield every byte read, or nothing past the limit |
| Pipes.DrainsReachTheEnd | crates/daemon/src/bounded_run.rs:388-424 | as many drains as the stream pauses, and one more, read it to its end: everything delivered is held, or an overflow past the limit |
| Pipes.DrainedPipe.DrainAvailable | crates/daemon/src/bounded_run.rs:388-424 | the loop over reads refines the specification of a drain |
| Pipes.DrainedPipe.FinishFirst | crates/daemon/src/bounded_run.rs:428-440 | the finish of a first-bytes pipe refines its specification |
| Pipes.DrainedPipe.FinishTail | crates/daemon/src/bounded_run.rs:444-447 | the finish of a last-bytes pipe refines its specification |
| Supervisor.NewLimits | crates/daemon/src/bounded_run.rs:59-64 | the cap is the caller's or the maximum, whichever is smaller |
| Supervisor.CheckChild | crates/daemon/src/bounded_run.rs:307-335 | an exit check decides, signals only an unreaped child, and reaps it unless the wait fails |
| Supervisor.Supervise | crates/daemon/src/bounded_run.rs:287-337 | the loop ends at the first deciding poll; the group is killed at most once and only while the child is unreaped; except when not waitable or a wait failed, it is killed and reaped; Exited carries the child's status |
| Supervisor.PollsAreBounded | crates/daemon/src/bounded_run.rs:287-337 | at most the timeout divided by the poll interval, rounded up, polls stay undecided |
| Supervisor.OutcomeTellsThePoll | crates/daemon/src/bounded_run.rs:287-337 | each outcome as an iff over the deciding poll: cancel, overflow, exit, deadline, so an exited child is never timed out |
| Supervisor.FinishedStdout | crates/daemon/src/bounded_run.rs:216-231 | an exited run's stdout is a complete prefix of the reads, within the cap |
| Supervisor.FinishedTail | crates/daemon/src/bounded_run.rs:216-231 | the stderr tail is the last bytes of a prefix of the reads |
| Supervisor.RunOutcomeIsExact | crates/daemon/src/bounded_run.rs:208-237 | each of the five outcomes as an iff over the deciding poll, what stdout then held and its finish; `DecidesIff` says which poll that is and `ExitedRunReturnsAllOutput` what the finish gives |
| Supervisor.DecidesIff | crates/daemon/src/bounded_run.rs:287-337 | the deciding poll is the first that is cancelled, past the cap, without a running child, or at the deadline |
| Supervisor.ExitedRunReturnsAllOutput | crates/daemon/src/bounded_run.rs:208-237 | an exited run returns everything its stdout delivered when the stream ended within the reads the run makes, or an overflow past the cap; on a blocking pipe everything up to the end |
| Supervisor.TailIsTheLastOutput | crates/daemon/src/bounded_run.rs:216-223 | the stderr tail is the last 4096 bytes of everything delivered when that stream ended so |
| Supervisor.DecidesOnce | crates/daemon/src/bounded_run.rs:287-337 | at most one poll decides a run |
| Supervisor.OutcomeIsHonest | crates/daemon/src/bounded_run.rs:208-237 | an exited run carries the child's status and nothing its pipes did not deliver, within the cap; a timeout means the child ran past the deadline within the bound on polls; the lower bound on the output is `ExitedRunReturnsAllOutput` |
| Supervisor.Run | crates/daemon/src/bounded_run.rs:170-237 | the outcome is that of the deciding poll (`DecidesIff`, `RunOutcomeIsExact`), a run that cannot be prepared is unavailable, and an exited run returns at most min(cap, 128 KiB) of stdout |
| Budgets.DedicatedRequestTimeout | crates/client/src/transport.rs:1766-1771 | the wire timeout plus headroom or the configured one, never less than either |
| Budgets.DeadlineIsTheOneSessionNewApplies | crates/client/src/transport.rs:1807-1836 | the published deadline is the one the creation call applies, in nanoseconds: the explicit one, or an hour and a second, plus the acknowledgement and eight seconds when one is asked for, saturating at 32-bit milliseconds |
| Budgets.BudgetSplit | crates/assistant/src/launch.rs:403-439 | the first share is at least half, a first attempt within its share leaves at least the reserve, and the two never exceed the budget |
| Launch.HexInjective | crates/assistant/src/launch.rs:571-586 | different random bytes give different keys |
| Launch.HexAt | crates/assistant/src/launch.rs:571-586 | each random byte is two lower-case hexadecimal digits, the high half first |
| Launch.KeyIff | crates/assistant/src/launch.rs:546-568 | which keys are valid: 1 to 128 characters of the listed codes |
| Launch.GeneratedRequestId | crates/assistant/src/launch.rs:571-586 | the generated key is the prefix and the bytes in hexadecimal, and is valid |
| Launch.LaunchRequestId | crates/assistant/src/launch.rs:546-568 | a key is sent iff the daemon supports keys; each error as an iff over the inputs |
| Launch.BoundedAttempt | crates/assistant/src/launch.rs:422-439 | an attempt within its limit keeps its result, one beyond it is a timeout |
| Launch.OutcomeUnknownIff | crates/assistant/src/launch.rs:451-467 | an outcome is known only from exhausted descriptors, a protocol error, a daemon that is too old, or a payload without a shape |
| Launch.CreateSession | crates/assistant/src/launch.rs:391-419 | one unkeyed send, or at most two keyed ones with identical parameters; the second after an attempt that was cut off or whose outcome stayed unknown, always when the budget has time left, and within the rest of it; the result is the last attempt's and the whole launch ends within the budget |
| LaunchLines.CallCreation | crates/client/src/transport.rs:840-876 | one creation call writes at most one creation line, with the caller's parameters |
| LaunchLines.KeyedParamsAreSentWhole | crates/protocol/src/compat/v3.rs:203-213 | a keyed creation is sent with exactly the caller's parameters, since the previous version has no shape for it |
| LaunchLines.AttemptEnds | crates/assistant/src/launch.rs:451-467 | an attempt's outcome is unknown to the launch iff it could not connect, descriptors aside, or its last event is no answer under its own id (a write, a deadline, an end of stream, an unreadable line, a misaddressed reply), or that answer is a capability list that cannot be read |
| LaunchLines.LaunchOnTheWire | crates/assistant/src/launch.rs:391-449 | a whole launch over its calls: at most one creation line without a key and two with one, both with identical parameters, each after its own connection advertised keys, also when an attempt is cut off midway; a keyed first attempt is retried iff it was cut off or the wire shows no decision |
| LaunchProtocol.TakeKeeps | crates/assistant/src/launch.rs:380-467 | every step of client, network and daemons, whether they honour keys or drop them, keeps the protocol invariant |
| LaunchProtocol.SessionIsKept | crates/assistant/src/launch.rs:380-467 | a key that holds a session keeps it in every run |
| LaunchProtocol.OneLaunchLeavesAtMostOneSession | crates/assistant/src/launch.rs:380-467 | over every interleaving, with daemons that drop keys and daemons that honour them through one key store, one launch leaves at most one session and any Ok is that session; an unkeyed request is sent once, a keyed one only to a daemon that honours keys, with the launch's own parameters |
| LaunchProtocol.UnansweredLaunchRecovers | crates/assistant/src/launch.rs:380-467 | from every reachable state of an unanswered first attempt of a keyed launch there is a way on to the one session the launch has |
| LaunchProtocol.AnsweredLaunchSucceeds | crates/assistant/src/launch.rs:391-419 | with nothing lost one attempt launches the session, with a key or without |
| LaunchProtocol.UncheckedRetryCreatesTwo | crates/client/src/transport.rs:855-873 | two requests without a key, or to a daemon that drops it, create two sessions, so the client's rules are needed |
| LaunchProtocol.RetryFollowsAnUnansweredAttempt | crates/assistant/src/launch.rs:391-419 | in every run a second attempt follows a first one that ended without an answer, in a keyed launch, and its request follows the advertisement of its own connection |
| Discovery.DiscoveryCache.Records | crates/daemon/src/discovery.rs:66-95 | one call refines the step specification on the cache and the answer; `AnswersAreExact` says what that is over every run |
| Discovery.CachedIsLatest | crates/daemon/src/discovery.rs:66-95 | a cached snapshot is that of the latest successful scan for its range, in every run |
| Discovery.AnswersAreExact | crates/daemon/src/discovery.rs:66-95 | in every run an unforced call is answered with the latest successful scan for its narrowed range while that is younger than thirty seconds, whatever a new scan would give, and only otherwise with its own |
| Discovery.RefreshesIff | crates/daemon/src/discovery.rs:66-95 | a call refreshes a range iff it asks for that range, its scan succeeds and no such younger scan serves it |
| Discovery.ErrorsKeepTheCache | crates/daemon/src/discovery.rs:66-95 | a failed scan or a disjoint range leaves every entry as it was |
| Discovery.RefreshesAreSpaced | crates/daemon/src/discovery.rs:52-95 | without force two refreshes of one range are a lifetime apart, whatever ranges are asked between |
| Discovery.RangesWithin | crates/daemon/src/discovery.rs:128-138 | a window of n versions has at most n(n+1)/2 ranges |
| Discovery.CacheIsBounded | crates/daemon/src/discovery.rs:52-95 | no sequence of calls grows the cache beyond n(n+1)/2 snapshots for a window of n versions, three for this build's |
| Aggregation.SortByIndex | crates/client/src/discovery.rs:273-273 | the stable sort: ascending by registry index and a permutation of the input |
| Aggregation.MergeAll | crates/client/src/discovery.rs:274-294 | the merging loop refines the merge specification |
| Aggregation.Discover | crates/client/src/discovery.rs:235-302 | sorting the answers of any order of arrival and merging gives the registry-order merge of the overlays that answered |
| Aggregation.ArrivalOrderDoesNotMatter | crates/client/src/discovery.rs:243-273 | permuted arrivals give the same result |
| Aggregation.HealthyOverlayIsKept | crates/client/src/discovery.rs:278-284 | a healthy overlay's peers and identity are in the merged lists, together, after those of earlier overlays, whatever failed or was late |
| Aggregation.OnlyHealthyPeers | crates/client/src/discovery.rs:278-284 | every merged peer comes from an overlay that answered well |
| Aggregation.ReturnedListsKeepTheHealthy | crates/client/src/discovery.rs:273-302 | of the result returned: when an overlay answered well it is Ok and holds that overlay's peers and identity after those of earlier ones |
| Aggregation.ReturnedListsAreTheContributions | crates/client/src/discovery.rs:273-302 | the returned lists are the contributions of the overlays that answered well, in registry order, and nothing else |
| Aggregation.FailuresInRegistryOrder | crates/client/src/discovery.rs:285-292 | when all fail, the failures are listed for each overlay in registry order |
| Aggregation.ErrorsAreExact | crates/client/src/discovery.rs:295-302 | an error iff nothing healthy arrived, told apart by the deadline, with all failures when there was none |
| Bundle.CollectFiles | crates/knowledge/build.rs:137-153 | the recursive collection lists what the specification lists |
| Bundle.ListedIffFile | crates/knowledge/build.rs:137-153 | a path is listed iff it is a file of the tree |
| Bundle.ListedOnce | crates/knowledge/build.rs:137-153 | no path is listed twice |
| BundlePreimage.AscendingUnique | crates/knowledge/build.rs:111-126 | two ascending listings of the same paths are equal |
| BundlePreimage.BigEndianValue | crates/knowledge/build.rs:111-126 | the eight length bytes determine the length |
| BundlePreimage.ParseFeed | crates/knowledge/build.rs:111-126 | the fed string parses back to the files it was fed from |
| BundlePreimage.PathLessIff | crates/knowledge/build.rs:111-126 | the order of the files: a path before its extensions, otherwise by the first component that differs |
| BundlePreimage.BytesLessIff | crates/knowledge/build.rs:111-126 | components compare by the first byte that differs |
| BundlePreimage.SizeIsBigEndian | crates/knowledge/build.rs:111-126 | the length is the eight bytes weighed by powers of 256, the first the highest |
| BundlePreimage.SortedFilesAreExact | crates/knowledge/build.rs:111-126 | the listed paths are those of the files of the bundle, in ascending order |
| BundlePreimage.PreimageIsExact | crates/knowledge/build.rs:111-126 | the fed string at every file: path with slashes, 0, length, 0, content, 255, between what the files before and after it feed |
| BundlePreimage.RelativePathString | crates/knowledge/build.rs:155-167 | the parts joined by slashes, or an error for a part that is not UTF-8 |
| BundlePreimage.JoinedPathsDiffer | crates/knowledge/build.rs:155-167 | different paths have different strings |
| BundlePreimage.BundleContentPreimage | crates/knowledge/build.rs:111-135 | the loop feeds the pre-image of the sorted listing, or fails on a path that is not UTF-8 |
| BundlePreimage.SameFilesFeedTheSame | crates/knowledge/build.rs:111-135 | the same files feed the same string, however directories are enumerated |
| BundlePreimage.PreimageDeterminesTheFiles | crates/knowledge/build.rs:111-135 | two bundles feed the same string iff they hold the same paths with the same contents |
| Routes.ParseOfPrint | crates/client/src/transport.rs:111-163 | every printed pair parses back to its selector and port |
| Routes.PrintInjective | crates/client/src/transport.rs:153-163 | no two pairs print alike |
| Routes.ReprintParsesTheSame | crates/client/src/transport.rs:111-163 | a parsed route with a port re-prints to one that parses the same |
| Routes.ReprintIsTheRouteIffCanonical | crates/client/src/transport.rs:111-163 | re-printing gives the text iff the port text starts with a digit from 1 to 9 |
| Routes.NonCanonicalRoutes | crates/client/src/transport.rs:111-163 | `h@+80` and `h@080` both parse, and print as `h@80` |
| Routes.NonCanonicalPort | crates/client/src/transport.rs:111-133 | the port parser reads `+80` and `080` as 80 and refuses `+` and `65536` |
| Routes.ParseIsExact | crates/client/src/transport.rs:111-133 | which routes have no port; a refused selector iff the text starts with `@` or holds two; which selector and port otherwise |
| Routes.PortRouteIff | crates/client/src/transport.rs:111-133 | a text with a port is accepted iff the selector is not empty and holds no `@` and the port is an optional `+` and digits worth 1 to 65535; then these are the selector and the port |
| Targets.PrintOfParse | crates/cli/src/target.rs:118-158 | printing a parsed target gives the trimmed input |
| Targets.ParseOfPrintIffWellFormed | crates/cli/src/target.rs:118-158 | a target parses back from its printed form iff it is well-formed |
| Targets.ParsedIsStable | crates/cli/src/target.rs:118-158 | printing and parsing a parsed target again changes nothing |
| Targets.ParsesIff | crates/cli/src/target.rs:118-149 | a string denotes a target iff the text between its outer spaces is the session, or host, slash and session, none empty and none with a slash |
| Targets.ParseErrorsAreExact | crates/cli/src/target.rs:118-149 | each of the four parse errors, and a target without a host, as an iff over the trimmed text |
| Evidence.Checks.Add | scripts/acceptance/overlay_evidence.py:249-268 | appends one decided check and nothing else |
| Evidence.Checks.AddMissing | scripts/acceptance/overlay_evidence.py:270-281 | appends one missing check and nothing else |
| Evidence.Checks.WithStep | scripts/acceptance/overlay_evidence.py:283-293 | the appended check is missing iff the step was not recorded, and passed iff it was and the decision held; its detail is that of the decision |
| Evidence.VerdictIsExact | scripts/acceptance/overlay_evidence.py:844-881 | failed, incomplete and passed as iffs over single checks; passed iff no code is recorded and every gating check passed |
| Evidence.ExposureIsHiddenIff | scripts/acceptance/overlay_evidence.py:857-867 | a failed exposure-window check is hidden iff its own sub-step is voided |
| Evidence.RecordedExposureIsNeverHidden | scripts/acceptance/overlay_evidence.py:813-820 | no set of codes hides a failed exposure-window check without a sub-step, as the script records them |
| Evidence.ExposureWithASubstepCanBeHidden | scripts/acceptance/overlay_evidence.py:857-881 | a concrete failed exposure-window check with a voided sub-step that does not fail the run |
| Evidence.CleanupIsHiddenIff | scripts/acceptance/overlay_evidence.py:857-867 | a failed cleanup check is hidden iff its own sub-step is voided, or its leg is and the session stopped answering |
| Evidence.OrdinaryIsHiddenIff | scripts/acceptance/overlay_evidence.py:857-867 | any other check is hidden iff its own sub-step or its leg is voided |
| Evidence.ExposureFailsTheRun | scripts/acceptance/overlay_evidence.py:857-881 | a failed exposure-window check fails the run unless a run-wide code ends it |
| Evidence.CodesOnlyWithholdAVerdict | scripts/acceptance/overlay_evidence.py:844-881 | recording one more code never makes a run pass and never makes it fail |
| Evidence.Redactor.PlaceholderOf | scripts/acceptance/overlay_evidence.py:1068-1070 | the table gains at most the asked address and the answer is its entry |
| Evidence.PlaceholdersAreStable | scripts/acceptance/overlay_evidence.py:1068-1070 | later addresses never change an earlier placeholder |
| Evidence.SamePlaceholderIffSameAddress | scripts/acceptance/overlay_evidence.py:1068-1070 | over any run two calls get the same placeholder iff they ask for the same address |

## Left out

- Sockets, timers, JSON text and line codecs: a reply is an answer, an end of stream, a bad frame, an unparseable line or silence.
- Cancellation of a call by its caller; calls run to completion.
- The methods of the protocol are constructors, not strings, so the method tables are fixed by type.
- Typed result decoding, except that a capability answer that is not an object is unreadable; input-wait validation, raw attach streams, host resolution and origin environment variables.
- Races between looks at the disk: the tree is fixed during one evaluation, so the branches for a file that vanishes between two looks are absent.
- Symbolic-link loops in the walk: a link reaches a node or nothing.
- Unicode case folding is a parameter of the disk; the ASCII comparison is modelled.
- SHA-256, git object hashing and the fetch: what git answers is a parameter.
- The non-Unix exit check of the process runner, the sandbox directories and the environment of the child.
- Two hosts with separate key stores reached by the attempts of one launch.
- Removal of a session and the retention that frees its key on the daemon.
- Probing of discovered peers and of the local identity, `read_line`, `classify_response` and the per-provider logging.
- The project's alias set behind target resolution; the regular expressions of redaction; the projections of recorded steps; the evaluation of single acceptance steps.
- Error texts, hints and exit codes.
