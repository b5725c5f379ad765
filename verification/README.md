# Verified model of the repository's build and documentation tooling

This project models the algorithms behind the monorepo's scripts and proves what they are meant
to guarantee. It is organised as one module per component:

- **Gate scheduler** (`GateGraph`, `GateScheduler`, `GateRunner`): validation of the needs graph by
  a three-colour depth-first search, the run as a state machine with nondeterministic settling, and
  the imperative runner whose every action is a step of that machine.
- **Type lookup** (`TypeLookup`, `TypePresence`, `LookupAccuracy`, `LookupTrust`, `LookupLimits`,
  `LookupGuard`, `LookupTermination`, `LookupCycles`, `ExportSearch`): the three-valued presence check over
  a cyclic graph of type declarations, an inductive relation of what those types declare, exactly when the
  answers agree with it, what the guard does to them, which walks end, and the search through re-export
  chains.
- **Publication** (`Publication`): a resumable upload against a registry that keeps its whole history
  and answers reads from any past moment.
- **Texts** (`Lines`, `LineEndings`, `ResponseCodec`, `ResponseGrammar`, `ResponseRoundTrip`,
  `LanguageSwitcher`, `SwitcherGrammar`, `TranslationFiles`, `RegionGrammar`, `GeneratedRegions`,
  `PairingRecords`, `RecordRefresh`, `CommentLines`): escaped responses, language switchers, generated
  regions, pairing records and comment subtraction, on strings with JavaScript's line terminators
  (section 12.3 of ECMA-262). What a parser accepts is stated as a grammar over concatenations.
- **Substitution** (`Substitution`, `GapTokens`, `MechanicalUpdate`, `SitePages`): reverse-order
  in-place splicing, and the mechanical update of a translation.
- **Graphs** (`Digraph`, `PackageOrder`, `Worklist`, `ReferenceFaces`, `ReferenceWalks`): the
  dependency-safe package order and the project-reference traversals.
- **Histories** (`ArchiveManifest`, `ConflictBatch`, `ConflictResolution`): the append-only archive, the
  batch that resolves pairing records after a merge, and exactly when it resolves one.
- `PairedDerivatives` separates copied code blocks from primary ones; `Wrappers`, `Sequences` and
  `Hashes` hold what several modules share.

Where the scripts change state in loops, the model has methods or classes proved against
specification functions; what is promised is then proved about those functions.

## Where the code and its documentation differ

The model follows the code. Each difference is proved with the exact condition under which it shows, except
that the condition for endless lookups is exact only where the types ahead read no member.

- A response body can hide a delimiter between a carriage return, U+2028 or U+2029 and the next line
  break, because the parser searches with multiline expressions but escapes `\n`-separated lines.
  `ResponseRoundTrip.RoundTripIff` states the exact condition.
- The switcher correction is not idempotent on texts with a doubled carriage return at a line end
  (`LanguageSwitcher.IdempotentIff`).
- `missing` is documented as "definitely absent", yet methods, quoted keys and index signatures are
  invisible to the member loop. A `missing` answer is right exactly when no member list the walk read hides
  the rest of the path (`LookupAccuracy.MissingIsAbsentIff`).
- A `found` answer is right exactly when the walk did not reach it past `keyof`, which it walks like its
  operand, or past a misread member list (`LookupAccuracy.FoundIsPresentIff`). Looking only at what was read,
  both answers can be trusted if no list was misread and, for `found`, no `keyof` passed (`LookupTrust`).
- The guard is meant to bail rather than loop, but its keys carry the path length, and an indexed access adds
  a step. Aliases that lead through one back to themselves are never answered; a walk ends wherever the growth
  of paths can be priced, and where types read no member exactly if there is no such cycle ahead
  (`LookupCycles.AliasWorldsAnswerIff`).
- Equal masks do not always mean untouched prose (`GapTokens.MaskDeterminesGapsIff`), and a fence line
  that ends in a carriage return loses it when spliced (`MechanicalUpdate.FencesAreCurrentIff`).
- The target of a Chinese document is meant to be its English counterpart, but a name that ends in
  `.zh.zh.md` leads to another Chinese one (`TranslationFiles.TargetRoundTripIff`).
- A record whose path contains a line break may not parse back (`PairingRecords.RecordRoundTripIff`).
- In a stable release the bundle's dist-tag is `latest` itself, so `latest` moves last only if no other
  package follows the entry package in the bundle (`Publication.LatestMovesLastIff`).
- Verification is meant to fail fast on real mismatches only. A stop for another integrity always is one; a
  stop for a wrong tag may come from a lagging read of the tag's former version, and after a completed loop
  it always does (`Publication.WrongTagIsRealIff`, `Publication.RegistryPublication.Publish`).

## Model

| member | source | states |
|---|---|---|
| `GateGraph.CycleFinder.Visit` | scripts/run-gates.ts:693-710 | One depth-first visit: a returned path is a real cycle of needs edges; otherwise the search state is restored and the gate is finished |
| `GateGraph.FindDependencyCycle` | scripts/run-gates.ts:687-717 | Returns nothing exactly when the needs graph is acyclic, and otherwise a closed walk along real needs edges |
| `GateGraph.CollectIds` | scripts/run-gates.ts:670-674 | Finds the first gate that repeats an earlier id, or the set of all ids |
| `GateGraph.ErrorRefutesValid` | scripts/run-gates.ts:667-685 | Every reported error is true of a graph that cannot be run |
| `GateGraph.ValidateGateGraph` | scripts/run-gates.ts:667-685 | Accepts exactly the nonempty, distinctly named, closed, acyclic gate lists; the error names the first check that fails |
| `GateScheduler.StepKeepsInv` | scripts/run-gates.ts:741-787 | Every start, settle and skip keeps the invariant: bounded concurrency, exact bookkeeping, running gates have only passing transitive needs, finished gates have their reference verdict |
| `GateScheduler.RunInvariant` | scripts/run-gates.ts:741-787 | The invariant holds in every reachable state of every interleaving |
| `GateScheduler.StallFree` | scripts/run-gates.ts:749-759 | On a validated graph some step is enabled until every gate has a result, so the stalled throw is unreachable |
| `GateScheduler.RunsAreBounded` | scripts/run-gates.ts:741-787 | No run has more than two steps for each gate |
| `GateScheduler.TerminatedRunsReachVerdict` | scripts/run-gates.ts:741-794 | A run that cannot continue has reported every gate exactly once, with its reference verdict |
| `GateScheduler.ScheduleIndependence` | scripts/run-gates.ts:727-795 | Interleaving and concurrency limit do not matter: any two finished runs end in the same statuses |
| `GateScheduler.ExecutedIffClear` | scripts/run-gates.ts:797-799 | A gate is executed exactly when all its transitive needs pass |
| `GateScheduler.StartedOnce` | scripts/run-gates.ts:743-751 | No gate is started twice |
| `GateScheduler.StartedAfterItsNeeds` | scripts/run-gates.ts:744-747 | In every reachable state, the needs of a started gate have passed |
| `GateScheduler.SkippedIffNeedFailed` | scripts/run-gates.ts:753-779 | In the end a gate is skipped exactly when one of its transitive needs failed, unless executors report skips themselves |
| `GateRunner.Runner.FindReady` | scripts/run-gates.ts:744 | Finds the first gate of the aggregate that can be started, or shows that none is ready |
| `GateRunner.Runner.StartGate` | scripts/run-gates.ts:746-747 | Starting a ready gate is one start step of the state machine |
| `GateRunner.Runner.SettleSlot` | scripts/run-gates.ts:782-786 | Settling a running slot is one settle step of the state machine |
| `GateRunner.Runner.SkipGate` | scripts/run-gates.ts:764-775 | Skipping is one skip step of the first gate that can be skipped, and changes only that gate |
| `GateRunner.Runner.FillSlots` | scripts/run-gates.ts:742-751 | After filling, no gate can start: the slots are full or nothing is ready |
| `GateRunner.Runner.AwaitOne` | scripts/run-gates.ts:781-786 | The wait settles exactly one running gate, any of them, and happens only when nothing can start |
| `GateRunner.Runner.DrainSkipped` | scripts/run-gates.ts:753-779 | The drain never stalls and ends in a state with nothing left to do |
| `GateRunner.Runner.Schedule` | scripts/run-gates.ts:741-787 | The loop terminates, and every action is a step of the machine that takes the first gate of the aggregate it could |
| `GateRunner.SkipShrinksPending` | scripts/run-gates.ts:775 | Removing the skipped gate leaves exactly the gates still pending |
| `GateRunner.PendingKeepsOrder` | scripts/run-gates.ts:753-755 | The pending gates keep the order of the aggregate, so the first blocked one is found first |
| `GateRunner.Collect` | scripts/run-gates.ts:789-793 | The missing-result throw is unreachable: one result per gate in aggregate order |
| `GateRunner.RunGates` | scripts/run-gates.ts:727-795 | Succeeds exactly for valid graphs and a positive safe concurrency, and then reports every gate with its reference verdict; the error is the first failed check |
| `GateRunner.ExitZeroIffBlockingGatesPass` | scripts/run-gates.ts:113-117 | Exit status zero exactly when every blocking gate and all it transitively needs pass |
| `LookupAccuracy.FoundIsPresentIff` | scripts/gen-config-catalog.ts:316-402 | A `found` answer is certain (present in every branch, whatever the unseen parts are) exactly when the walk was not misled on its way: by `keyof`, or by a member list where the loop matched another member than the list declares |
| `LookupAccuracy.FoundIff` | scripts/gen-config-catalog.ts:339-378 | The same for each kind of type: an intersection or a heritage list misleads when each part that answered `found` does and no other part has the member; a union when one branch does |
| `LookupAccuracy.MissingIsAbsentIff` | scripts/gen-config-catalog.ts:219-222 | A `missing` answer is right (impossible in any branch, for any truth about the unseen parts) exactly when no member list on the walk's way hides the rest of the path in a method, a quoted key or an index signature |
| `LookupAccuracy.MissingIff` | scripts/gen-config-catalog.ts:331-378 | The same for each kind of type, through heritage, unions, intersections and deeper steps |
| `TypePresence.PresenceGrows` | scripts/gen-config-catalog.ts:368-374 | What is present in every union branch is present in some branch, and more truth about the unseen parts never removes a member |
| `TypePresence.CertainIffStrict` | scripts/gen-config-catalog.ts:310-314 | Certain and possible presence are presence under the most and the least demanding reading |
| `LookupGuard.GuardOnlyWeakens` | scripts/gen-config-catalog.ts:318-324 | In every world and from every guard state, the walk gives the answer of the walk without guard, or `unknown`; a `missing` answer is always that of the walk without guard |
| `LookupGuard.GuardedWalksAgree` | scripts/gen-config-catalog.ts:318-324 | Walks from two guard states never answer `found` and `missing`, even where the walk without guard has no answer |
| `LookupGuard.LargerGuardFindsMore` | scripts/gen-config-catalog.ts:318-324 | Between two guard states there is no direction: a type on which the larger guard finds what the empty one does not |
| `TypeLookup.MoreFuelSameAnswer` | scripts/gen-config-catalog.ts:316-402 | An answer does not depend on the recursion budget |
| `LookupTermination.WalkTerminates` | scripts/gen-config-catalog.ts:316-402 | A walk whose path cannot outgrow a limit ends within an explicit number of calls, however declarations refer to each other |
| `LookupTermination.PricedWorldsAnswer` | scripts/gen-config-catalog.ts:316-402 | If each declaration ahead has a price that covers what its indexed accesses add and its members and array elements take off again, every path has exactly one answer |
| `LookupTermination.IndexFreeWorldsAnswer` | scripts/gen-config-catalog.ts:316-402 | In particular in worlds without indexed access by a string literal |
| `LookupCycles.WalkPursues` | scripts/gen-config-catalog.ts:316-402 | A finished walk has entered or met, with its path length, every alias that the type and the entered aliases lead to |
| `LookupCycles.GrowingCyclesNeverAnswer` | scripts/gen-config-catalog.ts:380-386 | In any world, a chain of aliases that leads back to its start with steps added is never answered, whatever the path and the budget |
| `LookupCycles.AliasesCanBePriced` | scripts/gen-config-catalog.ts:316-402 | Where the declarations ahead read no step and no such chain lies ahead, paths stay bounded |
| `LookupCycles.AliasWorldsAnswerIff` | scripts/gen-config-catalog.ts:321-324 | Where the declarations ahead read no step, the walk ends exactly when no alias leads through an indexed access to a declaration that leads back to it |
| `LookupCycles.SelfIndexingNeverAnswers` | scripts/gen-config-catalog.ts:380-386 | `type A = A['x']` is never answered |
| `LookupGuard.GuardHidesPresence` | scripts/gen-config-catalog.ts:321-324 | The guard costs completeness: the union of a type with itself is `unknown` although both branches have the member |
| `LookupLimits.KeyofIsFoundButAbsent` | scripts/gen-config-catalog.ts:379 | `keyof T` is answered like `T`, although it has none of the members of `T` |
| `LookupTrust.CleanMissingIsAbsent` | scripts/gen-config-catalog.ts:219-222 | A `missing` answer is right if no member list the walk read was misread: each had the matched property as its first member of that name, or neither a member of that name nor an index signature |
| `LookupTrust.CleanFoundIsPresent` | scripts/gen-config-catalog.ts:219-222 | A `found` answer is right if no member list the walk read was misread and no `keyof` passed |
| `LookupTrust.CleanAnswersAreExact` | scripts/gen-config-catalog.ts:310-314 | On a walk that misread nothing, passed no `keyof` and met no declaration twice, the answer is `found` exactly when the path is certain and `missing` exactly when it is impossible |
| `LookupTrust.PlainTypesAreTrusted` | scripts/gen-config-catalog.ts:219-222 | Where all members are property signatures written as their names, `missing` is right, and so is `found` if no operator is `keyof` |
| `LookupLimits.MissingHonestIffPlain` | scripts/gen-config-catalog.ts:219-222 | For one type and all names, `missing` keeps its promise exactly when all members are property signatures written as the names they declare |
| `ExportSearch.ForwardIff` | scripts/gen-config-catalog.ts:261-272 | A statement passes a name on exactly as its export list says: the first entry exported under that name counts, and the search goes on with the name before `as` |
| `ExportSearch.HitIsExported` | scripts/gen-config-catalog.ts:255-276 | A found declaration lies at the end of a chain of re-exports |
| `ExportSearch.FoundIffExported` | scripts/gen-config-catalog.ts:255-276 | The search over cyclic re-exports finds a declaration exactly when some chain leads to one |
| `Publication.FactsPersist` | scripts/publish-npm-baseline.ts:812-854 | What a lagging read saw of an integrity or of a tag at this version still holds now |
| `Publication.LatestWaitsForCompletion` | scripts/publish-npm-baseline.ts:713-715 | Over any history of crashed and resumed runs, the entry package's `latest` points at this version only on complete stores, for other dist-tags and for bundles that list the entry package last |
| `Publication.NewVersionsAreSettled` | scripts/publish-npm-baseline.ts:675-711 | A version that appeared during the runs holds the manifest integrity and tag, so a package that a lagging read reported absent is settled when the loop passes it |
| `Publication.FreshRun` | scripts/publish-npm-baseline.ts:675-711 | The stores of one run on an empty registry that is cut off: the loop publishes the packages in order |
| `Publication.EarlyLatest` | scripts/publish-npm-baseline.ts:675-711 | A stable run cut off after the entry package, when another follows it, has moved `latest` on an incomplete store |
| `Publication.LatestMovesLastIff` | scripts/publish-npm-baseline.ts:670-716 | Over all histories of crashed and resumed runs that publish in manifest order, `latest` moves last exactly when the bundle's dist-tag is another one or no other package follows the entry package |
| `Publication.WrongTagIsRealIff` | scripts/publish-npm-baseline.ts:725-727 | Every report of a wrong tag is a real mismatch exactly when the tag pointed nowhere else before the first run or has not been moved yet |
| `Publication.StaleTagIsReported` | scripts/publish-npm-baseline.ts:725-727 | A run over a tag at an older version: the store is right and a lagging read still reports the former tag |
| `Publication.Registry.ViewIntegrity` | scripts/publish-npm-baseline.ts:812-829 | A replica answers from some past moment of the store |
| `Publication.Registry.Publish` | scripts/publish-npm-baseline.ts:678-699 | A publish adds one version with its tag, or changes nothing; a failure may come after the effect |
| `Publication.RegistryPublication.RemoteIntegrity` | scripts/publish-npm-baseline.ts:812-829 | A visible integrity is the current one; a version reported absent was not there when the runs began |
| `Publication.RegistryPublication.RemoteDistTag` | scripts/publish-npm-baseline.ts:831-846 | A tag seen at this version is still there; a tag seen elsewhere was there before the first run |
| `Publication.RegistryPublication.EnsureDistTag` | scripts/publish-npm-baseline.ts:848-856 | On success the tag is at this version, it is interrupted exactly by a failed command, and the history stays lawful however it ends |
| `Publication.RegistryPublication.PublishPackage` | scripts/publish-npm-baseline.ts:675-711 | One package of the loop: it uploads exactly what a read reported absent, it is settled when the loop goes on, a stop for another integrity is a real mismatch, an interruption a failed command, and the history stays lawful however it ends |
| `Publication.RegistryPublication.VerifyRemotePackage` | scripts/publish-npm-baseline.ts:755-771 | A package is visible exactly when both reads show it, not visible yet exactly when a read was absent, and interrupted exactly when a command failed; a visible package is settled now, a stop for another integrity is a real mismatch, one for a wrong tag means the tag was elsewhere before the first run |
| `Publication.RegistryPublication.CheckPending` | scripts/publish-npm-baseline.ts:732-735 | After a pass without failure every package not reported is settled, and every reported one was read as absent and has been shown by no read of this verification; a pass is interrupted exactly by a failed command |
| `Publication.RegistryPublication.VerifyRemote` | scripts/publish-npm-baseline.ts:724-752 | Without a failed command the retries end complete, with a mismatch, or after the 15-minute window with packages that were read as absent and that no read has shown, so a package once shown is not lost again; at most 31 passes |
| `Publication.RegistryPublication.Publish` | scripts/publish-npm-baseline.ts:670-716 | However a run ends, a later one may start from what it left; it is interrupted exactly by a failed command; a normal return means every package has its integrity and tag and `latest` is moved; a stop for a wrong tag or for invisible packages leaves a complete store |
| `Publication.RegistryPublication.Verify` | scripts/publish-npm-baseline.ts:718-722 | The stand-alone check vouches for the same facts and changes nothing |
| `ResponseCodec.UnescapeInvertsEscape` | scripts/translation-prompt.ts:157-171 | Unescaping inverts escaping for every body |
| `ResponseCodec.EscapeNoMatch` | scripts/translation-prompt.ts:157-162 | An escaped body matches a delimiter exactly when the body hides one between other line terminators |
| `ResponseCodec.EscapedLineIff` | scripts/translation-prompt.ts:157-171 | A line is escaped by one more backslash exactly when it is a delimiter behind any number of them, and unescaped by taking it away |
| `ResponseGrammar.ParseIff` | scripts/translation-prompt.ts:183-217 | For every text, the parser succeeds exactly when the unwrapped text is three framed sections in order with newlines between and nothing around, each tag on one line only and first matched there; the values are the unescaped contents |
| `ResponseGrammar.UnwrapIff` | scripts/translation-prompt.ts:184-186 | One fence around the whole trimmed text is taken off, plain or marked `xml`, and nothing else |
| `ResponseGrammar.TrimTakesSpace` | scripts/translation-prompt.ts:184-186 | Trimming takes off white space only, and leaves none at the ends |
| `ResponseGrammar.SectionErrors` | scripts/translation-prompt.ts:195-206 | Reading a section fails exactly for a tag on no line, a tag on several lines, or tags that do not stand where the section should |
| `ResponseGrammar.ParseErrors` | scripts/translation-prompt.ts:190-215 | The parser fails exactly with the error of the first section that cannot be read, or for text behind the last |
| `ResponseRoundTrip.HiddenStep` | scripts/translation-prompt.ts:183-217 | A hidden delimiter makes the parser fail or read another body |
| `ResponseRoundTrip.RoundTripIff` | scripts/translation-prompt.ts:173-217 | Parsing a rendered response returns its bodies exactly when nothing is hidden in them, bare, in an `xml` fence or in a plain fence |
| `ResponseRoundTrip.NewlineBodiesRoundTrip` | scripts/translation-prompt.ts:173-217 | In particular for all bodies whose only line break is the newline, with delimiter lines and any backslashes |
| `ResponseRoundTrip.ResponseRoundTrip` | scripts/translation-prompt.ts:65-66 | Both results for the response's own delimiters |
| `ResponseRoundTrip.HiddenTagBreaksRoundTrip` | scripts/translation-prompt.ts:183-217 | A close tag behind a lone carriage return is not read back |
| `ResponseCodec.ParseResponse` | scripts/translation-prompt.ts:183-217 | The loop over the three sections computes the parser of these results |
| `LanguageSwitcher.HeadingFollowsFrontmatter` | scripts/translation-prompt.ts:223-229 | The heading follows the frontmatter and its blank lines, or opens the document |
| `LanguageSwitcher.OnlyTheGapChanges` | scripts/translation-prompt.ts:234-242 | The result is the head, the new switcher and the content; only blank lines and at most one old switcher are dropped |
| `LanguageSwitcher.RebuiltIsFixed` | scripts/translation-prompt.ts:219-243 | On lines, correcting a corrected document changes nothing |
| `LanguageSwitcher.IdempotentIff` | scripts/translation-prompt.ts:219-243 | On texts, correcting twice is correcting once exactly when normalization left no carriage return at a line end |
| `LanguageSwitcher.DoubledReturnIsNotStable` | scripts/translation-prompt.ts:220 | A document with a doubled carriage return changes once more |
| `LanguageSwitcher.CorrectLanguageSwitcher` | scripts/translation-prompt.ts:219-243 | The loops that pop and skip lines compute that correction |
| `SwitcherGrammar.HeadingIff` | scripts/translation-prompt.ts:230 | A heading is a number sign, white space and a visible character |
| `SwitcherGrammar.SwitcherIff` | scripts/translation-prompt.ts:67 | The recognised switchers are exactly those of the two languages with a nonempty target on one line |
| `SwitcherGrammar.CorrectIff` | scripts/translation-prompt.ts:219-243 | A document is corrected exactly when it is frontmatter or nothing, a heading, a gap with at most one switcher, and content; head and content are kept around the new switcher |
| `SwitcherGrammar.CorrectErrors` | scripts/translation-prompt.ts:224-232 | Frontmatter is reported unterminated exactly when no later line closes it; every other refused document has no such parts |
| `TranslationFiles.SwitcherLeadsBack` | scripts/translation-prompt.ts:74-93 | The target's switcher links to the translated file, and is recognised exactly when the name is on one line |
| `TranslationFiles.TargetIsPaired` | scripts/translation-prompt.ts:74-93 | The target of an English document is the translation of its pair |
| `TranslationFiles.TargetRoundTripIff` | scripts/translation-prompt.ts:74-93 | The target of the target is the document itself, and there is one exactly when the name does not end in `.zh.zh.md` |
| `LineEndings.NormalizeJoin` | scripts/translation-prompt.ts:220 | Replacing CR LF in one pass takes one carriage return off every line but the last |
| `RegionGrammar.ScanIffPage` | scripts/translation-pairing.ts:35-64 | A page is read without an error exactly when its lines are text lines and matched regions, and then as those |
| `RegionGrammar.ScanLines` | scripts/translation-pairing.ts:36-63 | The one-pass loop with its open region computes that reading |
| `RegionGrammar.ScanErrors` | scripts/translation-pairing.ts:40-62 | The reading fails exactly for the first marker that cannot stand where it does, with that error, or for a region open at the end |
| `RegionGrammar.SpliceIff` | scripts/gen-cordis-catalog.ts:625-636 | On any page, splicing succeeds exactly with one BEGIN and one END behind it, and keeps what is around them |
| `RegionGrammar.SplicedPage` | scripts/gen-cordis-catalog.ts:625-636 | Replacing the lines between the only markers of a readable page replaces exactly that region and no kept line |
| `GeneratedRegions.EndLineOfSlug` | scripts/translation-pairing.ts:18-19 | The END marker of a slug is one line only |
| `GeneratedRegions.BeginLineIff` | scripts/translation-pairing.ts:16-17 | The BEGIN lines of a slug are exactly the marker with nothing or a space and text without `>` behind the slug |
| `GeneratedRegions.MalformedIff` | scripts/translation-pairing.ts:20-21 | The malformed lines are exactly those that start like a marker and are none |
| `GeneratedRegions.SurfaceMarkers` | packages/typert/generator/src/cordis-catalog.ts:698-700 | The generator's own markers are a matching BEGIN and END of the region grammar |
| `GeneratedRegions.PartitionIffBlocks` | scripts/translation-pairing.ts:35-64 | Partitioning succeeds exactly on pages of the grammar; regions and remainder are those of the blocks |
| `GeneratedRegions.PartitionErrors` | scripts/translation-pairing.ts:40-62 | Any other page is refused for its first misplaced or malformed marker, or for a region left open |
| `GeneratedRegions.PartitionGeneratedRegions` | scripts/translation-pairing.ts:35-64 | The whole function computes that partition |
| `GeneratedRegions.SpliceSucceedsIff` | scripts/gen-cordis-catalog.ts:625-636 | On a page that partitions, splicing fails only for the number of markers |
| `GeneratedRegions.SpliceErrors` | scripts/gen-cordis-catalog.ts:629-634 | A failed splice reports the numbers of markers, or the wrong order of the only ones |
| `GeneratedRegions.SpliceKeepsHumanContent` | scripts/gen-cordis-catalog.ts:625-636 | Splicing keeps the human content and every other region, and puts the new region in the place of the old |
| `GeneratedRegions.LaterSpliceOverrides` | scripts/gen-cordis-catalog.ts:625-636 | On any page, a later splice overrides an earlier one |
| `RecordRefresh.RefreshIff` | scripts/gen-cordis-catalog.ts:815-852 | A record is rewritten exactly when it named the bytes before the write on both sides and only generated regions changed since; it fails exactly when such a side cannot be compared |
| `RecordRefresh.RegionWriteRefreshes` | scripts/gen-cordis-catalog.ts:815-852 | Writing a rendered region into both sides of a confirmed pair always refreshes its record |
| `RecordRefresh.RefreshKeepsConfirmedContent` | scripts/gen-cordis-catalog.ts:815-852 | A refreshed record never confirms human content that its predecessor did not confirm |
| `PairingRecords.PathsIff` | scripts/translation-pairing-record.ts:31-40 | The pair of a document has one stem with `.md`, `.zh.md` and `.i18n.yaml`, and exists exactly when the stem does not end in `.zh` |
| `PairingRecords.MetaPathsIff` | scripts/translation-pairing-record.ts:48-53 | The same for the pair of a record path |
| `PairingRecords.PathsRoundTrip` | scripts/translation-pairing-record.ts:31-53 | Deriving the record path and then the pair from it returns the pair |
| `PairingRecords.BasenameIff` | scripts/translation-pairing-record.ts:66-76 | A base name has no separator, and one stands before it unless it is the whole path |
| `PairingRecords.MetaNamesItsPair` | scripts/translation-pairing-record.ts:48-53 | A pair derived from a record path has that record path |
| `PairingRecords.ParsePairMeta` | scripts/translation-pairing.ts:89-99 | The loop over the lines computes the parsed entries |
| `PairingRecords.ParseIff` | scripts/translation-pairing.ts:80-99 | A text parses exactly when each line is empty, a comment or an entry, no name has two entries, and the result is those entries |
| `PairingRecords.ParseRecordIff` | scripts/translation-pairing-record.ts:62-76 | A text is the record of a pair exactly when it has one hash for each of the two names and no other entry |
| `PairingRecords.ParsedSize` | scripts/translation-pairing-record.ts:66-76 | A record parses only with one distinct name for each of its entry lines |
| `PairingRecords.ParsedNames` | scripts/translation-pairing-record.ts:23 | Every name read is a well-formed one on a single line |
| `PairingRecords.RecordRoundTripIff` | scripts/translation-pairing-record.ts:62-99 | Parsing a rendered record returns it exactly when the name fits an entry and no line break of the path leaves the header comment |
| `PairingRecords.PathBreaksHeader` | scripts/translation-pairing-record.ts:86-99 | A path with a line break whose names fit a record, and whose record is not read back all the same |
| `ConflictBatch.UnmergedSidecars` | scripts/translation-pairing-merge.ts:236-253 | Exactly the unmerged record paths, each with the last object of every stage |
| `ConflictBatch.DecideMonotone` | scripts/translation-pairing-merge.ts:289-323 | Objects stored by earlier attempts never spoil a later decision |
| `ConflictBatch.Repository.Attempt` | scripts/translation-pairing-merge.ts:293-323 | Takes the decision of one record; storing merged documents is its only effect |
| `ConflictResolution.DecideIff` | scripts/translation-pairing-merge.ts:255-323 | A record is resolved exactly when its three stages are stored records of stored documents, the text on disk is one side, their clean merge or a conflict that shows every entry of both, the path is in scope and merged by default, each document is the clean merge of the three it names, the structure is kept, and both are staged and on disk |
| `ConflictResolution.RefusalIsReal` | scripts/translation-pairing-merge.ts:255-323 | The reason of every refusal is true |
| `ConflictResolution.RefusedIsRefused` | scripts/translation-pairing-merge.ts:324-326 | A reported record could not have been resolved when the batch began, and its reason was true when it was looked at |
| `ConflictBatch.Repository.DecideAll` | scripts/translation-pairing-merge.ts:290-326 | Every unmerged record is resolved or reported, never both, before anything is written |
| `ConflictBatch.Repository.Resolve` | scripts/translation-pairing-merge.ts:289-339 | Exactly the resolved records are written and staged, as they and their two documents are on disk; reported ones and all other conflicts keep their stages |
| `ConflictBatch.StagesWithout` | scripts/translation-pairing-merge.ts:289-339 | What the batch does not resolve keeps the stages it had in the index |
| `ConflictBatch.BatchStagesWhatIsOnDisk` | scripts/translation-pairing-merge.ts:327-330 | After the batch a resolved record and its two documents are staged as they are on disk |
| `ConflictBatch.ResolvedRecordReadsBackIff` | scripts/translation-pairing-merge.ts:306-330 | A written record parses back to the blobs of its two owners exactly when no line break of the path leaves the header comment |
| `PackageOrder.ComparatorIsStrictOrder` | scripts/package-graph.ts:77-83 | The comparator is a strict total order of packages with different names, whatever the collation |
| `PackageOrder.ComparatorIff` | scripts/package-graph.ts:77-83 | It puts the listed groups first, in the order of their first mention, then orders by group name, then by package name |
| `PackageOrder.SortedListIsUnique` | scripts/package-graph.ts:64-66 | A set of packages has one sorted list |
| `PackageOrder.Sort` | scripts/package-graph.ts:66 | Sorting lists exactly the given packages in comparator order |
| `PackageOrder.DepthIff` | scripts/package-graph.ts:64-75 | The length of a longest chain of dependencies is zero without dependencies and otherwise one more than the largest of a dependency |
| `PackageOrder.LastNamesake` | scripts/package-graph.ts:60 | Of several packages with one name the last stands for it |
| `PackageOrder.StuckExactlyBlocked` | scripts/package-graph.ts:67 | What remains when nothing is ready is exactly what reaches a cycle or an absent dependency |
| `PackageOrder.TopoSort` | scripts/package-graph.ts:59-75 | On success each package once, sorted by the longest chain of its dependencies and then by the comparator, so after all its dependencies; it throws exactly when some package reaches a cycle or an absent dependency, and names exactly those |
| `PackageOrder.OrderIndependent` | scripts/package-graph.ts:59-75 | The order of the packages does not depend on the order of the manifests |
| `Substitution.SpliceBackwards` | scripts/project-doc-site.ts:272-276 | Splicing disjoint ranges in place from the last to the first equals substituting all at once |
| `Substitution.WeaveIsInterleave` | scripts/project-doc-site.ts:272-276 | Substitution keeps every gap and puts the values between them |
| `Substitution.WovenParts` | scripts/translation-brief.ts:168-176 | In the new text the moved ranges cover the values and the gaps are unchanged |
| `Substitution.WeaveBack` | scripts/translation-brief.ts:168-176 | Putting the original pieces back restores the text |
| `GapTokens.MaskDeterminesGapsIff` | scripts/translation-brief.ts:178-180 | A masked text determines its prose exactly when no token stands next to its own place |
| `MechanicalUpdate.LinesOfText` | scripts/translation-brief.ts:36-44 | Reading a span's text back takes one carriage return off each line |
| `MechanicalUpdate.LinesOfOpenText` | scripts/translation-brief.ts:36-40 | A text without a final newline keeps its last line |
| `MechanicalUpdate.ReplaceSpanTexts` | scripts/translation-brief.ts:168-176 | Replacing any subset of fences in place equals one simultaneous substitution; an unknown index fails |
| `MechanicalUpdate.MaskCodeSpans` | scripts/translation-brief.ts:178-180 | The mask is the prose with one numbered token line per fence |
| `MechanicalUpdate.ComputeMechanicalUpdate` | scripts/translation-brief.ts:194-206 | An update exists exactly for code-only changes, and is the counterpart with its changed fences replaced |
| `MechanicalUpdate.UpdateKeepsProse` | scripts/translation-brief.ts:194-206 | The update keeps every prose line of the counterpart and makes its i-th fence the given one |
| `MechanicalUpdate.FencesAreCurrentIff` | scripts/translation-brief.ts:194-206 | The new fences are the current source's exactly when no line of a changed fence ends in a carriage return |
| `MechanicalUpdate.DoubledReturnIsLost` | scripts/translation-brief.ts:194-206 | A source with a doubled carriage return in a fence, for which the update writes another fence |
| `MechanicalUpdate.MaskMeansProseIff` | scripts/translation-brief.ts:178-199 | For every document, equal masks mean untouched prose exactly when no token line stands next to its own fence in the confirmed source |
| `MechanicalUpdate.AmbiguousMaskHasTwin` | scripts/translation-brief.ts:178-199 | Any other confirmed source has a twin: a document with the same mask, the same fences and other prose |
| `MechanicalUpdate.TokenLineHidesAnEdit` | scripts/translation-brief.ts:199 | A prose line that reads like a token hides a moved fence |
| `SitePages.Rewrite` | scripts/project-doc-site.ts:272-276 | Every edit's own value stands at its start, moved by the edits before it, and every character outside the edits is kept and moved likewise; the length follows |
| `SitePages.CollectionOrderIsIrrelevant` | scripts/project-doc-site.ts:264-273 | The order in which the tree walk collects edits does not matter |
| `Worklist.Done` | scripts/project-reference-faces.ts:35-60 | A finished traversal has visited exactly the configs reachable from its roots |
| `ReferenceFaces.FaceIffChain` | scripts/project-reference-faces.ts:88-103 | A config has a face exactly when a chain of extended configs leads to one named after it |
| `ReferenceFaces.ObjectionIff` | scripts/project-reference-faces.ts:42-57 | A reference is objected to exactly when it enters a split project from a config that no chain gives a face, or elsewhere than at the leaf of that face, which is named |
| `ReferenceFaces.FollowedIff` | scripts/project-reference-faces.ts:41-59 | The traversal follows exactly the references that are not wrong |
| `ReferenceFaces.CheckReferences` | scripts/project-reference-faces.ts:41-59 | Splits one config's references into those to follow and the violations |
| `ReferenceFaces.CollectViolations` | scripts/project-reference-faces.ts:30-63 | Reports exactly the wrong references of the configs reached through allowed ones |
| `ReferenceFaces.NoViolationIff` | scripts/project-reference-faces.ts:30-63 | Not following wrong references loses nothing: no violation exactly when every reachable reference is allowed |
| `ReferenceWalks.OwnEdgeIff` | scripts/package-invariants.ts:152-157 | One config leads to another exactly when it references an existing one inside the package |
| `ReferenceWalks.ProjectReferences` | scripts/package-invariants.ts:138-161 | True exactly when some config the entry leads to inside its package references the target |
| `ReferenceWalks.BuildOutputs` | scripts/clean.ts:118-152 | Succeeds exactly when every reachable config is readable with no output that must stay, and returns exactly their outputs; a failure names such a config |
| `ArchiveManifest.ValidateExtension` | scripts/archived-agent-notes.ts:57-68 | Reports exactly the missing and the changed seals |
| `ArchiveManifest.ExtendManifest` | scripts/archived-agent-notes.ts:172-190 | Keeps every seal, adds exactly the unsealed artifacts with their hashes, and reports exactly the broken ones |
| `ArchiveManifest.AcceptedIff` | scripts/verify-archived-agent-notes.ts:71-102 | A change is acceptable exactly when there is nothing to report: unreadable inputs, lost or changed seals and contents, and unsealed artifacts of a plain run |
| `ArchiveManifest.Check` | scripts/verify-archived-agent-notes.ts:71-102 | A run reports exactly those errors |
| `ArchiveManifest.Archive.Run` | scripts/verify-archived-agent-notes.ts:71-115 | Only an accepted write run touches the manifest, which then extends the old one and seals everything |
| `ArchiveManifest.SealThenVerify` | scripts/verify-archived-agent-notes.ts:97-115 | After an accepted seal, sealing again changes nothing and a plain run is accepted |
| `ArchiveManifest.SealsPersist` | scripts/verify-archived-agent-notes.ts:86-102 | Through any gated history no sealed hash changes or disappears |
| `ArchiveManifest.SealedContentIsFrozen` | scripts/verify-archived-agent-notes.ts:86-102 | Once sealed, a note keeps its path and its exact content in every later commit |
| `ArchiveManifest.EverythingIsSealed` | scripts/verify-archived-agent-notes.ts:92-96 | Every artifact of an accepted commit is sealed as it is |
| `CommentLines.RangesCoverComments` | scripts/markdown.ts:122-138 | A column is covered exactly when its character lies in some comment |
| `CommentLines.VisibleText` | scripts/markdown.ts:143-153 | The text collected between possibly overlapping ranges is exactly what no range covers |
| `CommentLines.NoRangesIff` | scripts/markdown.ts:123-137 | An empty line is met by a comment exactly when its offset lies in one, another line when part of it does |
| `CommentLines.KeepLine` | scripts/markdown.ts:143-153 | An empty line is kept exactly when its offset lies in no comment, another when none of it does or some uncovered character is not blank |
| `CommentLines.OffsetFindsCharacter` | scripts/markdown.ts:123-137 | The running line offset is the character's offset in the page |
| `CommentLines.ProseLines` | scripts/markdown.ts:160-175 | Exactly the surviving lines outside fences, in order |
| `PairedDerivatives.GroupByDoc` | scripts/paired-markdown-derivatives.ts:35-41 | Each document's fingerprints in block order |
| `PairedDerivatives.Partition` | scripts/paired-markdown-derivatives.ts:30-63 | Both lists keep the block order and follow the derivative test |
| `PairedDerivatives.SelectKeepsOrder` | scripts/paired-markdown-derivatives.ts:58-62 | Each list is the subsequence of exactly the blocks that belong to it |
| `PairedDerivatives.SelectsSplit` | scripts/paired-markdown-derivatives.ts:58-62 | Together the lists hold each block once |
| `PairedDerivatives.DerivativesAreCovered` | scripts/paired-markdown-derivatives.ts:43-56 | Every derivative's sequence equals that of a document all of whose blocks stay primary, also along sibling chains |

## Left out

- GateRunner.RunGates: does not model a rejected executor promise, durations, output or the text of a skip message; the executor's status is a function of the gate.
- LookupAccuracy.FoundIsPresentIff: declaration merging, shadowed built-in wrapper names, type-parameter substitution and the members of a key union itself are not modelled; the condition refers to presence only where a part the walk did not read decides.
- LookupAccuracy.MissingIsAbsentIff: the same; what a hidden property's type has below it is stated by the presence relation, since the walk never reads it.
- LookupCycles.AliasWorldsAnswerIff: not exact where types ahead read members or array elements; there the guard, which compares lengths of paths only, may cut a cycle. The guard set is threaded as a value instead of being mutated.
- ExportSearch.FoundIffExported: does not model a re-export whose target file is missing, which makes the original throw.
- Publication.RegistryPublication.Publish: does not promise a normal return; the last read of `latest` may fail only because it lags. The ping, the identity check and the confirmation are one possible early stop. Other writers to the same packages are excluded.
- Publication.FactsPersist: does not cover reads older than the first run of the campaign: a version that another publisher put there before is taken to be visible.
- ConflictBatch.Repository.Resolve: does not model a failure between writing and staging, symbolic links, or blob identity other than the hash; Git, its merges and the structural comparison of documents are parameters.
- ConflictBatch.ResolvedRecordReadsBackIff: blob ids are taken to be 40 hexadecimal digits.
- PackageOrder.TopoSort: `localeCompare` is taken to be a total order; duplicate package names keep the last manifest, as in the source's map.
- MechanicalUpdate.ComputeMechanicalUpdate: fence positions are inputs, nonempty, disjoint, in order and within the lines.
- MechanicalUpdate.DoubledReturnIsLost: a Markdown parser counts a lone carriage return as a line ending and may place such a fence one line further; the slice then ends with the lines, which is the range taken here.
- SitePages.Rewrite: link destinations are inputs, nonempty and disjoint; how a destination is found inside a link and what it is rewritten to are not modelled.
- ReferenceFaces.CollectViolations: path resolution and the split-project lookup are functions of the workspace; an unparsable config, which throws, is not modelled, nor are the sorted message texts.
- ReferenceWalks.BuildOutputs: only the traversal of `clean.ts`; canonical paths, orphan packages and the removal itself are not modelled.
- ArchiveManifest.Check: the layout, header and triplet checks of the notes are one input; the manifest's JSON format is not modelled.
- ArchiveManifest.SealedContentIsFrozen: the content hash is taken to be injective.
- RecordRefresh.RefreshKeepsConfirmedContent: the blob hash is taken to be injective; bytes and their text are not told apart.
- CommentLines.ProseLines: comment offsets and fenced lines are inputs, as a Markdown parser finds them.
- Structural signatures of translated documents and their comparison: they depend on the Markdown tree and would only add case-by-case comparisons.
- `walkPartitionProblems`, `foldComposed`, `parsePath` and the field classification of the config catalog: set comparisons and tokenizing without state.
- Release staging, tarball inspection and dependency pins: file and package-manager operations around single checks.
- Unit alignment, terminology rows and the rendering of a translation brief: prose assembly.
- The scanners for link labels and destinations, and the page-claim map of the documentation site: local scans without a cross-function property.
- Child processes, Git, npm, tar, the file system, clocks and console output, except where they appear above as parameters or nondeterministic steps.
- Static tables, link maps, gate lists and Mermaid rendering: data only.
