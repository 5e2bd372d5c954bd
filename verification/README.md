# Verified models of ores-clis-core

Four parts of the library, modelled in Dafny and proved over every input, run or interleaving.

**Shutdown protocol** (`src/shutdown.rs`, `src/lifecycle.rs`). `Shutdown.dfy` is a labelled step system:
each label moves one thread by one atomic step (a load or compare-exchange of a flag, the start of a
callback, the callback's `try_apply` on the phase gate, its return, one `read` of stdin, one spawn
attempt), so quantifying over label sequences quantifies over all interleavings, signal arrivals,
stdin streams and spawn results. `ShutdownOrdering.dfy` proves the two-phase guarantees. The flags
alone do not order Drain before Force, because `drain_started` is set before the Drain callback runs;
the inductive invariant therefore ties the existence of a waiter to the return of that callback, and
`OrderedIffSingleDispatcher` shows that the single dispatch thread is exactly what the guarantee needs.
`ShutdownLegacy.dfy` covers the one-shot policy, `ShutdownRest.dfy` when the threads come to rest, and
`Install.dfy` the global installation slot under concurrent callers. `ShutdownHandlers.dfy` and `Lifecycle.dfy` hold the handlers as classes with the
source's own fields; each method, run without interruption, is proved to be a run of the step system.

**Shared argv parser** (`src/args.rs`, `src/reserved.rs`). `SharedArgs.dfy` has the index-driven loop,
proved equal to a recursive specification that is parameterised by the grammar of spellings.
`PolicyWords.dfy` lists the words each option accepts and proves what they and all others come to,
`SharedArgsLaws.dfy` proves the laws (homomorphism, order independence, token conservation, rendering
round trip), and `Reserved.dfy` the rename, parse, restore wrapper against a direct parser.

**Self-update** (`src/self_update.rs`). `UpdateArgs`, `Assets`, `Checksums`, `Archives` and `FindExecutable`
model the decision loops, each proved equivalent to a declarative condition that does not mention the loop. `SelfUpdate` composes them into `execute` over an arbitrary `Environment` and an
explicit installation (installed bytes, backup, event trace). `AssetNames`, `PlatformNames`, `ChecksumLines`,
`Candidates` and `VersionReports` say what all this comes to in the characters of names, files and outputs.

**Machine-record framing** (`src/protocol.rs`, `src/lib.rs`). `Utf8.dfy` is an encoder and strict decoder
for section 3 of RFC 3629. `Framing.dfy` describes writing through a device that accepts bytes in
arbitrary pieces, interrupts or fails, and proves that the stream reads back; `MachineRecords.dfy` says
which texts are taken. `Emitters.dfy` holds the two emitters as classes, each method proved to perform the emission `Framing` describes.

## Where the code and its documents differ

The model follows the code.

- Both archive extractors return the first matching entry (`src/self_update.rs:812-828`, `:891-908`), while
  `conformance/self-update-adversarial-v1.json:10` expects duplicates to be refused. `DuplicatesAreRefusedIff`
  says exactly when they are, and `FirstOfTwoIsExtracted` shows one that is not.
- `--` itself is kept in the passthrough (`src/args.rs:152-154`), while
  `contracts/cli-runtime/v1/conformance-vectors.json:47` drops it. `TerminatorIsDroppedIffAbsent` says
  when the two agree and `TerminatorStaysInPassthrough` evaluates that vector.
- A reserved token in value position is reported as `InvalidValue` carrying its sentinel, because errors are
  returned before restoration (`src/reserved.rs:63`). `WrapperIsDirectParser` says exactly when that happens and
  `ReservedValueIsReportedAsSentinel` shows the smallest case.
- A checksum manifest lookup matches by substring, so an earlier line that merely contains the name takes its
  place. `OwnHashIffNotShadowed` is the exact condition, `SignatureShadowsItsSubject` an example.
- `conformance/self-update-adversarial-v1.json:11` asks for assets of another architecture to be refused. The scorer
  looks for needles anywhere in the name, so a foreign asset is accepted exactly when a needle of the host lies
  inside the spelling it carries (`RefusesArchIff`, `RefusesOsIff`): x86 takes x86_64, arm takes arm64, and Windows
  takes `darwin64` (`ConfusedArches`, `ConfusedOses`, and three concrete assets).
- The wrapper is wrong on argv that spells a later sentinel. Argv with NUL cannot come from an operating system,
  but the function accepts any strings; `WrapperIsDirectParser` gives the exact condition and
  `CollidingArgvIsNotRestored` a concrete input.

## Model

| member | source | states |
|---|---|---|
| ShutdownOrdering.StepKeepsInv | src/shutdown.rs:387-557 | every atomic step of dispatcher, waiter or outside gate caller keeps the cross-thread invariant: a waiter exists only after the Drain callback has returned, not merely after its flag is set |
| ShutdownOrdering.DrainReturnsBeforeForceBegins | src/shutdown.rs:387-422 | in every interleaving the callback trace is a prefix of Drain(SigInt or SigTerm) begins, returns, Force(CtrlD) begins, returns |
| ShutdownOrdering.ForceOnlyByOperator | src/shutdown.rs:424-536 | Force is emitted only in an interactive run that received a SIGINT, whose single spawn attempt succeeded, and whose stdin reaches EOF or the byte 4 after nothing but interruptions and other bytes |
| ShutdownOrdering.QuiescentTraceIsDetermined | src/shutdown.rs:424-557 | once all threads rest, the trace is a function of the first signal, the spawn result and stdin alone, and one spawn was attempted exactly when an interactive SIGINT arrived |
| ShutdownOrdering.OrderedIffSingleDispatcher | src/shutdown.rs:575-582 | with n dispatch threads sharing one handler state, the order holds in all interactive runs iff n = 1 |
| ShutdownOrdering.SecondDispatcherBreaksOrder | src/shutdown.rs:387-422 | a run of two dispatchers in which Force begins although Drain never began |
| ShutdownOrdering.AcceptedTransitionsAreOrdered | src/lifecycle.rs:83-130 | with any number of threads driving the gate, accepted transitions are a prefix of [Draining, Forced], the byte equals their number, and neither ever goes back |
| ShutdownOrdering.ReturnedCallbacksReachGate | src/lifecycle.rs:125-130 | after the signal layer's Drain callback returns the gate is at least Draining; after its Force callback returns the phase is Forced, whoever else drives the gate |
| ShutdownOrdering.SoleSourceIsAlwaysAccepted | src/lifecycle.rs:105-130 | if the signal layer is the only source of actions, `try_apply` accepts each one it emits |
| Shutdown.DecideIsFirstDecisive | src/shutdown.rs:504-532 | what stdin tells the waiter is fixed by its first EOF, 0x04 or non-interrupted error, whatever follows |
| Shutdown.ConfirmedIff | src/shutdown.rs:504-532 | stdin confirms exactly when an end of input or the byte 4 comes after nothing but interruptions and other bytes |
| ShutdownLegacy.CallbackRunsAtMostOnce | src/shutdown.rs:370-385 | in legacy mode the callback trace is a prefix of one call, and that call's reason is justified by the run's events |
| ShutdownLegacy.CallbackRunsIffProvoked | src/shutdown.rs:424-547 | at rest the legacy callback has run, once and to completion, exactly when there was a SIGTERM, a non-interactive SIGINT, a failed spawn or a decided waiter |
| ShutdownLegacy.InteractiveSigintOnlyWarns | src/shutdown.rs:426-435 | any number of interactive SIGINTs with a reading waiter and no SIGTERM claim nothing |
| ShutdownRest.RestIsReachableIff | src/shutdown.rs:496-536 | in both modes and from every reachable state, all threads can come to rest without further signals iff there is no waiter or stdin holds an event that decides it |
| ShutdownHandlers.SignalLayer.RequestLegacyShutdown | src/shutdown.rs:370-385 | wins iff the flag was clear, and then runs the callback once |
| ShutdownHandlers.SignalLayer.RequestDrain | src/shutdown.rs:387-402 | wins iff Drain was not yet started; the whole new state is the specification's |
| ShutdownHandlers.SignalLayer.RequestForce | src/shutdown.rs:404-422 | wins iff Drain was started and Force was not; otherwise nothing changes |
| ShutdownHandlers.SignalLayer.ArmCtrlDWaiter | src/shutdown.rs:456-480 | one spawn attempt ever; its failure falls back to shutdown in legacy mode only |
| ShutdownHandlers.SignalLayer.HandleSigint | src/shutdown.rs:424-454 | whole new state for both policies, interactive or not |
| ShutdownHandlers.SignalLayer.HandleSigterm | src/shutdown.rs:483-494 | drains or shuts down, never arms a waiter |
| ShutdownHandlers.SignalLayer.DispatchSignals | src/shutdown.rs:575-582 | the dispatcher loop is the fold of the handlers over the signals |
| ShutdownHandlers.SignalLayer.HandleCtrlD | src/shutdown.rs:538-557 | Ctrl-D or EOF requests shutdown in legacy mode and Force in the two-phase mode |
| ShutdownHandlers.SignalLayer.WaitForCtrlD | src/shutdown.rs:496-536 | the read loop acts on the first decisive event and leaves the rest of stdin unread |
| ShutdownHandlers.HandlerIsRun | src/shutdown.rs:424-494 | handling one signal uninterrupted is a run of the step system, so every property of all runs covers the handlers |
| ShutdownHandlers.DispatchLoopIsRun | src/shutdown.rs:575-582 | so is the dispatcher loop over any signals |
| ShutdownHandlers.WaiterIsRun | src/shutdown.rs:504-532 | so is the waiter thread on any stdin |
| Lifecycle.ReadsForcedIffClosed | src/lifecycle.rs:37-44 | a byte, corrupted or not, reads as forced iff no sequence of requests can ever be accepted from it again; it then never changes |
| Lifecycle.ShutdownLifecycleGate.TryApply | src/lifecycle.rs:125-130 | accepts exactly the next phase, changes nothing when it refuses, and never lowers the byte |
| Install.AtMostOneInstalled | src/shutdown.rs:317-338 | in every concurrent history the slot is true iff exactly one call is in flight or live, at most one call ever reports Installed, and disabled calls never own the slot |
| Install.ExactlyOneInstalls | src/shutdown.rs:317-338 | when no platform call fails and all calls have returned, one enabled call installed and every other one was told so |
| Install.AlreadyInstalledMayMeanNobody | src/shutdown.rs:325-335 | a history in which a call gets AlreadyInstalled and no handler is live |
| Install.AlreadyInstalledIsBelievableIff | src/shutdown.rs:317-338 | for given platform results, AlreadyInstalled implies a live handler in all complete histories iff no enabled call can fail or at most one call is enabled |
| Install.InstallationSlot.InstallHandlers | src/shutdown.rs:317-338 | one uninterrupted call is three steps of the history model, and leaves the slot as it was unless it installs |
| Policy.NamesRoundTrip | src/lib.rs:26-140 | printing any policy value and parsing it back is the identity |
| PolicyWords.ReadsIff | src/lib.rs:26-140 | a value reads as a choice exactly when it is one of the listed words for it, in any ASCII case and with any white space around it |
| PolicyWords.AnySpellingMeansCanonical | src/args.rs:157-211 | any such spelling, attached or in its own token, anywhere after whole options, is interchangeable with the canonical option |
| PolicyWords.OtherValuesAreInvalid | src/args.rs:240-252 | every other value is refused, under the name of its option and as it was typed |
| PolicyWords.CanonicalIsFirstWord | src/args.rs:6-28 | the printers print the first word listed for each choice |
| PolicyWords.NothingChosenIsDefault | src/args.rs:216-237 | an empty command line gives automatic output, automatic color and level info, nothing explicit |
| PolicyWords.ContradictionIsReported | src/args.rs:254-276 | two contradictory options with agreeing ones between them are reported with their field, the first spelling and the second |
| SharedArgs.ParseSharedArgv | src/args.rs:137-238 | the index-driven loop computes the recursive specification on every argv, errors included |
| SharedArgsLaws.ParseIsHomomorphism | src/args.rs:148-276 | whole options in front of anything: both parts must parse and agree field by field, and the result is their merge; an error in front is the error of the whole |
| SharedArgsLaws.OnlyContradictionsFail | src/args.rs:254-276 | when both parts parse, the only way the whole can fail is a conflict between them |
| SharedArgsLaws.CombineDecides | src/args.rs:254-276 | parts combine exactly when no two choose a field differently, and the combination chooses exactly what some part chooses |
| SharedArgsLaws.PermutingOptionsChangesNothing | src/args.rs:148-276 | reordering whole options in front of any tail changes neither success nor the policy nor what is explicit |
| SharedArgsLaws.ParsingConservesTokens | src/args.rs:157-237 | argv is an order-preserving merge of the passthrough and the consumed options; the consumed options alone give the same policy, and reparsing the passthrough is the identity |
| SharedArgsLaws.TerminatorSuffixIsVerbatim | src/args.rs:152-154 | everything from the effective `--` on, `--` included, is handed on unchanged and chooses nothing |
| SharedArgsLaws.TerminatorIsDroppedIffAbsent | src/args.rs:152-154 | the passthrough is the one without the terminator only when there is no effective terminator |
| SharedArgsLaws.TerminatorStaysInPassthrough | src/args.rs:152-154 | on `--json -- --no-json payload` the passthrough starts with `--` |
| SharedArgsLaws.SharedSplitMeansInline | src/args.rs:157-208 | a value in its own token means exactly what the inline spelling means, errors included, anywhere in argv |
| SharedArgsLaws.ShorthandMeansCanonical | src/args.rs:176-193 | each shorthand can be replaced by its canonical option anywhere in argv without changing success or result |
| SharedArgsLaws.DanglingOptionIsMissingValue | src/args.rs:194-208 | an option left without its value at the end is reported by its own name |
| SharedArgsLaws.RenderedPolicyRoundTrips | src/args.rs:6-28 | any policy rendered in canonical spelling before any list parsed as unowned parses back to exactly that policy and list, all three fields explicit |
| Reserved.SentinelInjective | src/reserved.rs:51-60 | different positions get different sentinels |
| Reserved.RenameReserved | src/reserved.rs:46-61 | the renaming loop yields the protected argv and the map of originals |
| Reserved.RestoreReserved | src/reserved.rs:63-68 | the in-place restoration loop, which removes each original as it is used, computes the recursive restoration |
| Reserved.ParseSharedArgvWithReserved | src/reserved.rs:25-70 | the whole wrapper, early exit included; the terminator is never reserved |
| Reserved.Simulation | src/reserved.rs:51-63 | parsing renamed argv runs in step with the direct parser on the original argv |
| Reserved.WrapperIsDirectParser | src/reserved.rs:25-70 | on all argv: success and choices equal those of a direct parser that passes reserved tokens at option position and refuses them at value position; passthrough is equal iff no token spells the sentinel of a later reserved one; errors are equal unless parsing stops at an option whose value is a separate reserved token, and then the same flag is blamed and that token shown as its sentinel |
| Reserved.ErrorsDifferIff | src/reserved.rs:63 | for any grammar: the two errors differ iff such an option exists, and which sentinel is shown |
| Reserved.ReservedValueIsReportedAsSentinel | src/reserved.rs:53-63 | `--output --quiet` with `--quiet` reserved is refused under the name of a sentinel |
| Reserved.NulFreeArgvIsRestored | src/reserved.rs:53-60 | on NUL-free argv the wrapper is the direct parser and no sentinel is left behind |
| Reserved.CollidingArgvIsNotRestored | src/reserved.rs:64-68 | a concrete argv with NUL on which the wrapper succeeds with the wrong passthrough |
| Reserved.ReservedTokensDoNotChoose | src/reserved.rs:35-63 | policy and explicit flags equal those of parsing argv with the reserved tokens before `--` removed |
| UpdateArgs.ParseCliArgs | src/self_update.rs:213-269 | accepts exactly the lists without unknown options, second versions and contradictory pairs, wherever they stand, and reports exactly what the list says; an error names something wrong with the list |
| UpdateArgs.DescriptionIgnoresOrder | src/self_update.rs:213-269 | two orders of the same arguments are reported identically |
| Assets.SelectAsset | src/self_update.rs:478-514 | the collect, sort and compare loops compute the selection the next two rows characterise |
| Assets.SelectDecides | src/self_update.rs:478-514 | an asset is returned iff it is the strict unique maximum; ambiguity iff the maximum is attained twice; absence iff nothing scores |
| Assets.SelectIgnoresOrder | src/self_update.rs:478-514 | the outcome is the same for every permutation of the release's assets |
| Assets.BareBeatsTarBeatsZip | src/self_update.rs:516-559 | among assets that fit the platform, a bare executable outranks a tarball and a tarball outranks a zip file |
| AssetNames.LoneAssetIsSelectedIff | src/self_update.rs:516-559 | an asset alone in its release is selected iff its name is no checksum file's, holds the executable's name up to ASCII case and `_`/`-`, and holds a needle of the host's system and of its architecture |
| AssetNames.SelectedHoldsName | src/self_update.rs:520-526 | in any release, a selected asset's name holds the executable's name, character by character |
| AssetNames.OtherExecutablesAreIgnored | src/self_update.rs:478-526 | assets of other executables neither win nor make the selection ambiguous: without them the outcome is the same |
| PlatformNames.MatchIffNeedleInSpelling | src/self_update.rs:527-544 | a name that mentions the host's platform at most inside one spelling passes for the host iff one of the host's needles lies inside that spelling |
| PlatformNames.ForeignAssetIsScoredIff | src/self_update.rs:516-559 | an asset that fits another architecture scores the same here if a needle of this host lies inside the spelling it carries, and is refused otherwise |
| PlatformNames.ForeignOsAssetIsScoredIff | src/self_update.rs:516-559 | the same for operating systems |
| PlatformNames.RefusesArchIff | src/self_update.rs:538-544 | for any two architectures, foreign names are refused iff no needle of the host lies inside a foreign spelling |
| PlatformNames.RefusesOsIff | src/self_update.rs:527-535 | the same for any two operating systems |
| PlatformNames.ConfusedArches | src/self_update.rs:538-544 | among x86_64, aarch64, x86 and arm the only foreign pairs confused are x86 with x86_64 and arm with aarch64 |
| PlatformNames.ConfusedOses | src/self_update.rs:527-535 | among macos, linux and windows the only pair confused is windows with a macOS asset spelled `darwin64` |
| PlatformNames.X86SelectsX8664 | src/self_update.rs:478-514 | `tool-linux-x86_64` is selected on 32-bit x86 |
| PlatformNames.ArmSelectsArm64 | src/self_update.rs:478-514 | `tool-linux-arm64` is selected on 32-bit ARM |
| PlatformNames.WindowsSelectsDarwin64 | src/self_update.rs:478-514 | `tool-darwin64-amd64` is selected on Windows |
| Checksums.ChecksumAssetIsNeverSelected | src/self_update.rs:665-698 | the selected asset is no checksum file, and whatever checksum asset is found is one by the scorer's own test, so never the selected asset |
| Checksums.ParseExpectedChecksum | src/self_update.rs:700-721 | the first line offering a hash decides; the hash is 64 lower-case hex digits |
| ChecksumLines.BareFile | src/self_update.rs:700-721 | a file of one digest among white space and line breaks, with any number of `SHA256:` in front, gives that digest, lower-cased, for every name |
| ChecksumLines.SilentLine | src/self_update.rs:702-705 | blank lines and comments offer nothing |
| ChecksumLines.FoundChecksumAsset | src/self_update.rs:665-690 | the first sidecar of the selected asset by the three listed endings, else the first manifest of the four listed names, in any ASCII case, else nothing |
| Checksums.RenderedManifestParses | src/self_update.rs:700-721 | for any rendered manifest and any name, the first line containing the name decides |
| Checksums.OwnHashIffNotShadowed | src/self_update.rs:700-721 | an entry's own hash is what its name looks up iff no earlier line with another hash contains that name |
| Checksums.SignatureShadowsItsSubject | src/self_update.rs:700-721 | with `tool.sig` listed before `tool`, looking up `tool` yields the hash of `tool.sig` |
| Checksums.HexComparisonIsDigestComparison | src/self_update.rs:647-660 | comparing the published text with the computed one is comparing the decoded digest with the digest |
| Checksums.Sha256File | src/self_update.rs:723-747 | reading in chunks of any sizes hashes the whole file, and fails exactly when the file cannot be opened or a read fails before its end |
| Archives.ValidateArchivePath | src/self_update.rs:916-941 | accepts exactly relative paths free of traversal that are 1 to 32 names deep |
| Archives.ExtractTar | src/self_update.rs:749-843 | writes exactly the first matching entry when all entries up to it are sound and within the byte, size and count budgets, and fails otherwise; absence is reported iff the archive is sound and nothing matches, every other error names a fault of some entry, and the overflow branch is unreachable |
| Archives.ExtractZip | src/self_update.rs:845-914 | the same specification at the zip format's own checks, and the files left in the extraction directory |
| Archives.LoneEntryIsExtractedIff | src/self_update.rs:805-828 | a file alone in its archive is extracted iff the last name of its path is an executable name, whatever directories it lies in; by both formats |
| Archives.OtherNamesInFrontAreIgnored | src/self_update.rs:805-828 | within the limits, entries in front with other last names change nothing about what is written |
| Archives.ExtractionIsBounded | src/self_update.rs:767-833 | whatever is extracted is the content of an entry up to which all paths, kinds, sizes and counts are within the limits, written out as figures |
| Archives.FormatsAgreeOnPlainArchives | src/self_update.rs:767-914 | on at most 4096 regular files and zero-size directories both loops choose the same entry and write the same bytes |
| Archives.LaterEntriesAreIgnored | src/self_update.rs:812-828 | appending entries after the match changes nothing about what is extracted, duplicates included |
| Archives.DuplicatesAreRefusedIff | src/self_update.rs:812-828 | an archive with several matches is refused iff its first match is not a sound choice within budget or does not copy; otherwise the first one is written |
| Archives.FirstOfTwoIsExtracted | src/self_update.rs:891-908 | of two entries named `tool` the first is extracted, by both formats |
| FindExecutable.Find | src/self_update.rs:943-985 | terminates on every finite tree in every listing order, and returns p iff the tree holds only readable directories and regular files and p is its one match; on such trees a failure carries the number of matches, and other errors name something in the tree |
| FindExecutable.VisitEntries | src/self_update.rs:949-974 | one directory's entries keep the frontier invariant and shrink what is unvisited |
| FindExecutable.SingleFileIsFound | src/self_update.rs:835-840 | the directory that a successful extraction leaves, if it was empty before, is tidy and holds exactly one match |
| FindExecutable.LoneFileIsFoundIff | src/self_update.rs:943-985 | the only file in a tree is found iff its own name is an executable name, however deep it lies |
| SelfUpdate.MakePlan | src/self_update.rs:271-304 | exactly when the run stops early and with which outcome, and exactly which asset it goes on to fetch |
| SelfUpdate.PlanFor | src/self_update.rs:284-304 | prompt, dry run and no-verify policy: which of them stops the run, exactly |
| SelfUpdate.LeadingVIsIgnored | src/self_update.rs:1056-1066 | a tag with and without leading `v` is the same version |
| VersionReports.StaleIff | src/self_update.rs:1056-1066 | the installation is stale iff current version and tag, without white space and one leading `v`, differ: as versions if both parse, as texts otherwise |
| SelfUpdate.VerifyChecksum | src/self_update.rs:613-663 | passes iff the published hash is that of the bytes, and the file could be read for hashing, or none is published and none required; missing and mismatching checksums are reported exactly when they are so |
| SelfUpdate.UncheckedIffNotRequired | src/self_update.rs:613-628 | with no checksum published a download is accepted iff neither the options nor the policy require one |
| SelfUpdate.PrepareCandidate | src/self_update.rs:749-843 | yields exactly the executable the downloaded file contains, by its packaging; the search after zip extraction cannot fail |
| Candidates.PackagingByEnding | src/self_update.rs:754-836 | the ending of the asset's name, in any ASCII case, says how it is unpacked |
| Candidates.LoneEntryIsCandidateIff | src/self_update.rs:749-843 | from an archive of one file the candidate is its content iff the file has the executable's name, or on Windows that name with `.exe` |
| SelfUpdate.ObtainCandidate | src/self_update.rs:306-323 | yields a candidate exactly when download, verification and extraction all admit it |
| SelfUpdate.RequiredChecksumBindsDigest | src/self_update.rs:613-663 | under a required checksum the published hex decodes to the digest of the very bytes that were unpacked |
| SelfUpdate.StreamsAreSearchedSeparately | src/self_update.rs:1030-1054 | the version is found in the joined output iff it is found on one of the two streams |
| SelfUpdate.ReportedVersionIsRecognised | src/self_update.rs:1041-1054 | a version standing as a word is recognised wherever it stands, with or without `v` and whatever punctuation surrounds it |
| VersionReports.ValidIffReported | src/self_update.rs:1007-1054 | validation succeeds iff the run exited with success and on one stream a word, bounded by white space or the ends, is within marks and up to one leading `v` a text that parses to the target version |
| SelfUpdate.SettledIsCandidateOrOriginal | src/self_update.rs:334-353 | after a replacement the binary is the candidate or exactly the original, the latter precisely when rollback is reported, and the recorded replacements account for it |
| SelfUpdate.ReportTellsWhatIsInstalled | src/self_update.rs:271-353 | for every environment: after Updated the installed bytes are a candidate that passed every check and is valid in place; after a failed rollback one that is not; after a rollback exactly the original; after every other outcome or error the original, never replaced |
| SelfUpdate.UpdatedIffSomeCandidateWorks | src/self_update.rs:323-353 | Updated is reported iff some candidate passes every check before the replacement and validation after it |
| VersionReports.UpdatedWasVouchedFor | src/self_update.rs:323-353 | for every environment, Updated implies that the installed bytes, on their own and in place, exited with success and printed a piece that parses to the target version |
| VersionReports.UpdatedTookEveryStep | src/self_update.rs:271-353 | Updated implies neither check nor dry run, every step taken, and the original kept as backup |
| SelfUpdate.Installation.Replace | src/self_update.rs:324-335 | validate, back up, replace: succeeds iff all do, and otherwise nothing was put in place |
| SelfUpdate.Installation.Commit | src/self_update.rs:324-348 | validation in place, with the backup put back when it fails |
| SelfUpdate.Installation.Execute | src/self_update.rs:271-353 | every run under every environment satisfies the relation the two lemmas above are about, which fixes report and disk |
| Utf8.DecodeEncode | src/protocol.rs:131-138 | every string survives encoding and decoding |
| Utf8.EncodeDecode | src/protocol.rs:131-138 | bytes that decode have exactly one spelling: overlong forms and surrogates are refused |
| Utf8.CutDecodes | src/protocol.rs:131-138 | truncated text with other text after it decodes iff it was cut between characters, and then to the concatenation |
| Utf8.AsciiByteIsItsCharacter | src/protocol.rs:157-163 | an ASCII byte occurs in the encoding iff its character occurs in the string; so 0x0A only from LF |
| Utf8.EncodingIsStandard | src/protocol.rs:131-138 | every character is encoded as the table in section 3 of RFC 3629 has it |
| Framing.ValidatorsAgree | src/protocol.rs:141-170 | both validators accept the same texts, and give the same reason unless a text without ESC has both a C1 control and a line break |
| Framing.LineOutcome | src/protocol.rs:131-138 | a line written is a whole frame; a failed one is a prefix of it, whole only if its flush failed, and the error is the device's |
| Framing.EmitOutcome | src/protocol.rs:92-129 | role and validation failures write nothing; the other outcomes as for a line |
| Framing.SessionSends | src/protocol.rs:92-138 | any list of emissions through any device: outcomes faithful to the checks, bytes are whole frames of the successes and a prefix of the one that failed |
| Framing.RecordsAreRecovered | src/protocol.rs:92-170 | splitting what the device received at 0x0A and decoding gives exactly the accepted records in order |
| Framing.GluedFrame | src/protocol.rs:131-138 | a piece of one frame followed by another frame reads as one record, the whole characters of the first text and then the second; cut inside a character the stream does not decode |
| Framing.GoingOnGluesOneRecord | src/protocol.rs:131-138 | what a reader gets, exactly, when the caller goes on emitting after an I/O failure: all other records are intact |
| Framing.ChunkingDoesNotMatter | src/protocol.rs:131-138 | through any device that keeps accepting non-empty pieces, all accepted records arrive |
| Framing.EmittersAgree | src/lib.rs:408-507 | the two emitters leave identical streams on identical devices, and both read back |
| MachineRecords.AcceptedIffClean | src/protocol.rs:141-170 | both emitters take exactly the JSON texts without the code points 10, 13, 27 and 128 to 159 |
| MachineRecords.CleanRecordsArrive | src/protocol.rs:92-138 | through any patient device either emitter delivers any list of such texts in full, all outcomes Ok |
| MachineRecords.UncleanIsRefused | src/lib.rs:478-507 | anything else, and anything without the primary role, is refused with nothing written |
| MachineRecords.RoleDecides | src/protocol.rs:115-129 | a line is refused iff the emitter has the other role |
| MachineRecords.FlushIsAskedFor | src/protocol.rs:131-138 | a flush follows the line exactly under the flushing policy, and its failure is reported |
| Framing.ConsumerClosedMeansBrokenPipe | src/protocol.rs:33-41 | a closed consumer is reported iff the pipe broke, which only a value that passed every check can meet; everything else comes through as it is |
| Emitters.WriteStep | src/protocol.rs:131-133 | one partial write takes the specification of `write_all` one step further |
| Emitters.Sink.WriteAll | src/protocol.rs:131-133 | the retry loop over arbitrary partial writes computes its specification |
| Emitters.ProtocolEmitter.WriteLine | src/protocol.rs:131-138 | text, terminator and flush as one emission |
| Emitters.ProtocolEmitter.EmitPrimaryHumanLine | src/protocol.rs:81-84 | refused without the primary role, with nothing written |
| Emitters.ProtocolEmitter.EmitPrimaryMachineRecord | src/protocol.rs:92-96 | role first, then validation, then one line |
| Emitters.ProtocolEmitter.EmitDiagnosticLine | src/protocol.rs:99-102 | refused without the diagnostics role, with nothing written |
| Emitters.StreamEmitter.EmitLine | src/lib.rs:437-439 | one line, unchecked |
| Emitters.StreamEmitter.EmitJsonLine | src/lib.rs:446-449 | validation, then one line |

## Left out

- Weak memory: all atomics are sequentially consistent. The Windows `ctrlc` backend is not modelled; the Unix
  backend's single dispatcher thread is.
- ShutdownHandlers.SignalLayer.DispatchSignals: covers finite stretches of the endless signal iterator, with one
  spawn result for the stretch; arbitrary mixtures are covered by the step system.
- Callbacks are opaque except that they may drive the gate; a callback that panics or never returns is a run
  in which its thread takes no further step.
- HTTP, token discovery, processes, permissions and the file system are the fields of `SelfUpdate.Environment`;
  `resolve_release` (with its fallback between tag spellings) is one of them.
- SHA-256, the semver parser, JSON validity and tar, zip and gzip decoding are arbitrary functions or entry lists.
- SelfUpdate.Installation.SelfReplace: replacement either succeeds or changes nothing, as `self_replace` promises.
- SelfUpdate.Installation.Replace: the backup is kept as a value, so outside interference with the backup file
  between copy and rollback is not modelled.
- Assets.SelectAsset: the standard library's stable sort is modelled as insertion on a sequence, and the names
  listed in the ambiguity error may depend on the order of assets.
- SharedArgs.ParseSharedArgv: error messages are structured values; their rendering is not modelled.
- Archives.ValidateArchivePath: starts from path components; splitting a path into components is the platform's.
- `LogLevel::allows`, `CliPolicy::resolve`, colour resolution, `TtyRequirement`, exit codes, `paint` and the
  runtime configuration registry are finite tables and were left out.
- `Display` implementations, help text, log messages and `emit_outcome`.
