# Verified model of the repository's gate, catalog, publication and documentation scripts

This project models ten scripts under `scripts/` and proves what each of them promises, for every input and every run.
Mutable objects are classes, loops are methods with invariants, and each such method is tied to a specification function
or predicate about which the laws are proved.

**Gates** (`run-gates.ts`; `GateGraph`, `GateValue`, `GateScheduler`, `GateRuns`, `GateCalls`, `GateRunner`). A gate list is a
dependency graph. The cycle finder is proved sound and complete, validation accepts exactly the executable graphs, and the
scheduler is a state machine whose only freedom is which running gate settles next. Over every run: the cap holds, each
gate is executed at most once and only after its needs passed, no run stalls, a run has at most `2 * |gates| + 1` states,
and a finished run leaves one board (statuses, results and the text of every skip) that depends neither on the settle
order nor on the number of workers. That board is the recursive value of the graph. `GateRunner.RunGates` is the nested loop itself;
what it calls, and in which turn, is stated over the calls alone.

**Config catalog** (`gen-config-catalog.ts`; `TypeLookup`, `TypePresence`, `TypeTermination`, `Potentials`, `ReferenceGains`,
`TypeWalk`, `SchemaPaths`, `SchemaWalk`, `SchemaFold`, `PasteClosure`). `lookupPath` answers found, missing or unknown while mutating one `seen` set that sibling
branches share. `MustHave` and `MayHave` are independent definitions: every finite unfolding of the declared type has
the path, some finite unfolding may have it. A definite verdict is proved true whatever `seen` held, and where the guard never fired
the verdict says exactly which of the two holds. Two concrete worlds show what sharing costs: under a
repeated union branch a path that must be there comes out unknown, and under a diamond of bases a definite miss does, so it
goes unreported. Because indexed access prepends a step, the guard does not bound the walk: `TypeTermination` gives a
declaration on which it never returns, and `ReferenceGains` proves that every walk returns when no cycle of references gains
steps, a condition on the declarations alone. The schema walk emits exactly the paths of the accepted positions and folds in those of exactly the composed packages, and the paste
queue reports no violation exactly when the closure can be pasted under bare names.

**Publication** (`publish-npm-baseline.ts`; `NpmRegistry`, `Publication`, `PublicationRuns`, `ReleaseStaging`). The registry
is an object with four atomic commands and a client that may be killed before any of them. Over every history of killed, failed
and repeated runs, published contents never change, the run that returns leaves what one uninterrupted run would have left, and `verify`
accepts it. `latest` moves last, wherever a client is killed, exactly when the bundle's own dist-tag is not `latest` or its entry
package comes last; for any other bundle a run of `publish` is exhibited that dies with `latest` moved and packages missing.
Packaged bundles use a `dev-` tag, but a loaded manifest may name any tag.

**Orders, pools and worklists** (`package-graph.ts`, `publint-all.ts`, `project-reference-faces.ts`; `PackageOrder`,
`WorkerPool`, `ReferenceFaces`). The layered sort succeeds exactly on closed acyclic graphs and its result is unique; every interleaving of
the pool claims each target once; the reference check reports exactly the wrong edges leaving the configs in scope.
A clean report keeps faces apart per config, and per aggregate under a condition that is stated.

**Text** (`project-doc-site.ts`, `markdown.ts`, `jsdoc.ts`, `rescope-vendor.ts`; `LinkRewrite`, `LinkNodes`, `CommentCoverage`,
`JsDocProse`, `TextLines`, `Rescope`, `RescopeLine`, `RescopeTable`, `RescopeLaws`, `RescopeNames`, `RescopeFile`). Destination ranges are unique and splicing them right to left
is the simultaneous substitution, overlap being excluded by the nesting of nodes; column ranges of comments agree with the offset-level view; the prose parser keeps
every line once, in order, and in its own paragraph or list item; the package rename is analysed below.

`DependencyGraph` holds the graph theory shared by the gates, the sort and the two closures; `Options` and `Characters` are small helpers.

## Where the code and its documentation differ

The model follows the code.

- The header of `rescope-vendor.ts` (lines 9-16) calls the token rewrite idempotent. It is not when one quote closes a
  token and opens another token of the same package name, as in `'cordis'cordis'`: the first pass consumes the middle quote and
  the second finds a new token. `RescopeLaws.RewriteTwice` and `RescopeFile.FileTwice` prove that this is the only
  exception, and `RescopeNames.SharedQuoteExample` exhibits it.
- The same header says `--reverse` undoes the rescope. It does exactly when the eligible text held no scoped name that
  the reverse pass would take for one of its own (`RescopeLaws.UndoneExactly`, `RescopeFile.FileUndone`); `RescopeNames.ScopedNameExample` is a line it
  does not restore.
- The comment on `lookupPath` says that what it cannot see through is unknown. What it has already looked at in a sibling
  branch also becomes unknown: a path that must be there (`TypePresence.RepeatedBranchIsUnknown`), or a definite miss
  (`TypePresence.DiamondIsUnknown`).
- The comment on `collectProjectReferenceFaceViolations` says every reference must name the leaf matching the aggregate from
  which traversal began. The code goes by the face of the config the reference stands in. After a clean report the two agree
  exactly when every config that enters a split package has its aggregate's face (`ReferenceFaces.CleanMatchesAggregate`);
  `ReferenceFaces.NeutralConfigExample` has a clean report and a host leaf behind the client aggregate.
- `destinationRange` reads a node's own text. A code span with a bracket in a label and a no-break space in a destination are
  read otherwise than section 6.3 of CommonMark 0.31.2 has it (`LinkNodes.CodeSpanLabelExample`, `LinkNodes.NoBreakSpaceExample`).

## Model

| member | source | states |
|---|---|---|
| GateGraph.CycleFinder.Visit | scripts/run-gates.ts:675-692 | One call of `visit` either returns a simple cycle of the needs graph or leaves path and active stack as they were and completes the gate and everything it needs; it ends because each call grows the active set |
| GateGraph.CycleFinder.VisitNeeds | scripts/run-gates.ts:684-687 | The loop over one gate's needs completes every known need or returns a simple cycle |
| GateGraph.FindDependencyCycle | scripts/run-gates.ts:669-699 | Returns no cycle exactly when the graph is acyclic; a returned list starts and ends at one gate, each consecutive pair is a `needs` edge and nothing else repeats; on all lists, duplicate ids and unknown needs included |
| GateGraph.ValidateGateGraph | scripts/run-gates.ts:649-667 | Accepts exactly the non-empty lists with unique ids, closed and acyclic; a rejection names the first defect in checking order: the first repeated id, the first unknown need in list order, or a cycle |
| GateGraph.CheckUniqueIds | scripts/run-gates.ts:652-656 | A duplicate is reported only for the first gate whose id occurred before it |
| GateGraph.CheckDependencies | scripts/run-gates.ts:657-663 | Passes only closed graphs; the reported need is unknown and every need before it, in that gate and in earlier gates, is known |
| DependencyGraph.AcyclicIffRanked | scripts/run-gates.ts:669-699 | On a finite graph, having no cycle is the same as having a rank that strictly falls along every edge |
| GateValue.ValuationIsDagValue | scripts/run-gates.ts:719-769 | Any assignment in which a gate has its own outcome when all its needs pass and is skipped otherwise is the recursive DAG value |
| GateValue.ValuationIsUnique | scripts/run-gates.ts:719-769 | An accepted graph has exactly one such assignment |
| GateValue.PassedReachesPassed | scripts/run-gates.ts:779-781 | A passed gate has everything it transitively needs passed |
| GateScheduler.NextKeepsInv | scripts/run-gates.ts:723-769 | Every step, whichever gate settles, keeps the cap, running equal to the gates in state running, one result per settled gate, and each settled status equal to the DAG value |
| GateScheduler.StartKeepsInv | scripts/run-gates.ts:725-732 | Starting a ready gate below the cap keeps the invariant: only gates whose needs pass are started |
| GateScheduler.SettleKeepsInv | scripts/run-gates.ts:763-769 | Settling any running gate keeps the invariant, wherever it stands in the running list |
| GateScheduler.SkipKeepsInv | scripts/run-gates.ts:736-759 | Skipping a gate with a failed or skipped need keeps the invariant: its value is skipped |
| GateRuns.NextShrinksMeasure | scripts/run-gates.ts:723-769 | Twice the pending gates plus the running ones strictly falls with every step |
| GateRuns.StepsUntilFinished | scripts/run-gates.ts:734-777 | On an accepted graph a step exists exactly until every gate has settled, so the stalled throw is unreachable |
| GateRuns.NextKeepsLog | scripts/run-gates.ts:725-769 | Every step keeps the order of calls: one `execute` and one `observe` per gate at most, `execute` only after a passing `observe` of every need |
| GateRuns.FinishedRunsAgree | scripts/run-gates.ts:709-777 | Confluence: every finished run, for any settle order and any cap of at least one, ends on the same board, skip reports included |
| GateRuns.EveryRunIsSafe | scripts/run-gates.ts:709-777 | Over every run: invariant, cap and call order in every state, and at most `2 * n + 1` states |
| GateRuns.StoppedMeansFinished | scripts/run-gates.ts:734-777 | A run that cannot go on has finished, and only such a run |
| GateRuns.EveryRunCanFinish | scripts/run-gates.ts:709-777 | Every run, stopped anywhere, extends to a finished run, and that one ends on the final board |
| GateRuns.FinalBoardIsValuation | scripts/run-gates.ts:734-777 | The final board has one result per gate, with the DAG value as status: the executor's own result when all needs pass; otherwise a dependency-failed skip that names, in order, needs that did not pass, at least one, and all that ran and did not pass |
| GateRuns.FinalSkipsAreNamed | scripts/run-gates.ts:736-759 | That holds of every skip the cascade records, in whatever order it meets the gates |
| GateCalls.RunCallsInTurn | scripts/run-gates.ts:723-769 | Over every run each call is the one whose turn it was, said of the calls before it: what was started, what was seen to pass or fail, what is in flight |
| GateCalls.NextCall | scripts/run-gates.ts:723-769 | A step of the scheduler makes exactly one call, the one whose turn it is |
| GateRunner.Cascade | scripts/run-gates.ts:734-761 | The skip loop never stalls and lands on the final board with every gate observed |
| GateRunner.StartReady | scripts/run-gates.ts:724-732 | The inner loop stops only at the cap or when no gate has all its needs seen to pass; it only starts gates, each in its turn: never one with an earlier gate of the list left to start; it reports progress exactly when it started something |
| GateRunner.RunGates | scripts/run-gates.ts:709-777 | Rejects exactly the non-executable lists and bad caps before any call; otherwise returns the final results in list order, having executed exactly the gates whose needs all pass; over the calls alone, each start is of the first gate in the list that can start, below the cap; a result is awaited only at the cap or with nothing to start; skips come once nothing runs, first blocked gate first, each naming exactly the needs that did not pass; neither internal throw is reachable, whichever gate wins each race |
| GateRunner.Collect | scripts/run-gates.ts:772-776 | Results come back in list order, and the missing-result throw needs a gate without a result |
| GateRunner.ExitCodeIsValue | scripts/run-gates.ts:92-96 | The exit code is 0 exactly when every blocking gate has the value passed, so it depends on the graph and the outcomes alone |
| GateRunner.GreenExitCoversNeeds | scripts/run-gates.ts:92-96 | Behind a green exit everything a blocking gate transitively needs passed, even gates that may fail |
| TypePresence.VerdictIsSound | scripts/gen-config-catalog.ts:317-403 | Whatever `seen` held: found means every unfolding has the path, missing means none has; and where the guard never fired each is an equivalence. Unfoldings are defined by the first declared member, without the walk's search |
| TypePresence.TypeIsRight | scripts/gen-config-catalog.ts:362-402 | The same for a walk from any type node: literals, intersections, unions, arrays, operators, indexed access, wrappers and references |
| TypePresence.HeritageIsRight | scripts/gen-config-catalog.ts:344-360 | Own members shadow bases, and any base that has the path suffices |
| TypePresence.FindIsFirst | scripts/gen-config-catalog.ts:335-343 | The loop over the members finds a property exactly when one has the name, and then the first |
| TypePresence.RecursiveTypeIsFound | scripts/gen-config-catalog.ts:322-325 | `interface A { x: A }`: coming back with fewer steps left is no cycle, so `x.x.x` is found at every length |
| TypePresence.UnionIsRight | scripts/gen-config-catalog.ts:370-376 | A union is definite only when all branches agree, and then it is right |
| TypePresence.VerdictsNeverContradict | scripts/gen-config-catalog.ts:317-403 | No two walks of one query, with any two histories, answer found and missing |
| TypePresence.RepeatedBranchIsUnknown | scripts/gen-config-catalog.ts:322-325 | A union naming one interface twice: the shared `seen` turns a path that must be there into unknown |
| TypePresence.DiamondIsUnknown | scripts/gen-config-catalog.ts:322-325 | A diamond of bases: the shared `seen` turns a definite miss into unknown, which is not reported |
| ReferenceGains.WalkReturns | scripts/gen-config-catalog.ts:317-403 | If no cycle of references gains steps (indexed access gains one, a property type or array element loses one), every walk returns, from any declaration, path and history |
| ReferenceGains.BalancedIffNoCycleGains | scripts/gen-config-catalog.ts:317-403 | That condition is the same as a bound per declaration on the steps a walk may still gain, respected by every reference |
| ReferenceGains.SelfIndexedGains | scripts/gen-config-catalog.ts:381-387 | The declaration whose walk never returns has a cycle that gains |
| ReferenceGains.GainIsNotNecessary | scripts/gen-config-catalog.ts:381-387 | The condition is not necessary: a declaration with a gaining cycle that no path can follow, on which every walk returns |
| Potentials.PotentialIff | scripts/gen-config-catalog.ts:317-403 | On a finite graph with gains on its edges, no cycle gains exactly when there are values that pay for every edge |
| TypeTermination.BalancedWalkReturns | scripts/gen-config-catalog.ts:317-403 | With such a bound every walk returns: only finitely many keys lie within it, and the guard takes each once |
| TypeTermination.SelfPropertyReturns | scripts/gen-config-catalog.ts:381-387 | `interface A { x: A['y'] }` gains nothing round its cycle, and its walk returns for every path and history |
| TypeTermination.SelfIndexedNeverReturns | scripts/gen-config-catalog.ts:381-387 | A property typed by indexing its own interface twice: the walk returns for no fuel, since each round adds a step and no key repeats |
| TypeTermination.DeclFuel | scripts/gen-config-catalog.ts:317-403 | A walk that returns within some fuel gives the same answer with more |
| TypeWalk.Walker.WalkType | scripts/gen-config-catalog.ts:317-403 | The mutating walk gives the verdict and leaves the `seen` set of the specification, branch by branch |
| TypeWalk.Walker.WalkDecl | scripts/gen-config-catalog.ts:322-361 | The same at a declaration, the only place the guard looks |
| TypeWalk.Walker.WalkBases | scripts/gen-config-catalog.ts:348-359 | Each base is walked with what the earlier ones left in `seen` |
| TypeWalk.CheckPath | scripts/gen-config-catalog.ts:759-763 | One schema-path check with a new `seen` is sound, and exact where nothing bailed |
| SchemaPaths.ParsePath | scripts/gen-config-catalog.ts:232-245 | The two nested loops compute the steps of the dotted path |
| SchemaPaths.PrintParse | scripts/gen-config-catalog.ts:232-245 | Printing the parsed steps gives back any input string |
| SchemaPaths.ParsePrint | scripts/gen-config-catalog.ts:232-245 | Parsing printed steps gives them back exactly for steps whose names have no dot and no trailing `[]` and that can be written at all |
| SchemaPaths.ValuePathsExact | scripts/gen-config-catalog.ts:432-451 | The nested paths emitted under a value are exactly the printed positions where the schema nests a property |
| SchemaPaths.VisitExact | scripts/gen-config-catalog.ts:452-497 | The walk emits exactly the key paths the schema accepts, through refinements, intersections and unions |
| SchemaPaths.PropsInOrder | scripts/gen-config-catalog.ts:459-467 | Keys come in source order, each before the paths nested under it |
| SchemaPaths.ComposesExact | scripts/gen-config-catalog.ts:472-483 | The packages composed are exactly those whose `Config` is an element of an intersection somewhere down the schema |
| SchemaPaths.ViolationsExact | scripts/gen-config-catalog.ts:452-497 | A violation of a kind is raised exactly when a defect of that kind stands somewhere down the schema |
| SchemaPaths.QuietIffWalkable | scripts/gen-config-catalog.ts:411-421 | No violation is raised exactly when all of the schema can be seen; a union may hold anything besides calls |
| SchemaPaths.EmittedPathParses | scripts/gen-config-catalog.ts:422-500 | With plain keys, a path is emitted exactly when the schema accepts the position it parses to |
| SchemaPaths.ReportIsTrue | scripts/gen-config-catalog.ts:759-763 | A reported key is one the schema accepts and no unfolding of the config type declares |
| SchemaWalk.Walker.CollectValuePaths | scripts/gen-config-catalog.ts:432-451 | The closure appends exactly the nested paths to the shared list, in order |
| SchemaWalk.Walker.VisitExpr | scripts/gen-config-catalog.ts:452-497 | The closure appends exactly the walk's keys, composed packages and violations |
| SchemaWalk.WalkSchemaExpr | scripts/gen-config-catalog.ts:422-500 | The whole walk returns what the specification collects |
| SchemaFold.Folder.Fold | scripts/gen-config-catalog.ts:735-749 | One call takes packages not seen before, each once and all composed from its own, and leaves nothing they compose unlooked at; it reports exactly the names they compose that were not collected |
| SchemaFold.FoldAll | scripts/gen-config-catalog.ts:735-750 | The fold is the keys of exactly the packages composed directly or through others, each package once, cycles included; exactly the composed names that are no collected package are reported |
| SchemaFold.FoldedAreComposed | scripts/gen-config-catalog.ts:735-749 | A fold that leaves nothing unlooked at has taken exactly the packages reached by composition |
| PasteClosure.Collect | scripts/gen-config-catalog.ts:663-717 | The queue ends; it reports no violation exactly when every used name resolves to one thing and the config type is local; it then pasted exactly the used package-local declarations, each once, root first, every name bound in exactly one map; declarations sharing a source line included |
| PasteClosure.ViolationIsReal | scripts/gen-config-catalog.ts:674-706 | The first violation raised proves that the closure cannot be pasted |
| NpmRegistry.Registry.Publish | scripts/publish-npm-baseline.ts:633-638 | The version and its dist-tag appear together; a taken version is refused and nothing changes |
| Publication.RemoteIntegrity | scripts/publish-npm-baseline.ts:725-742 | Gives the recorded integrity or its absence; throws only for an integrity that is not sha512 |
| Publication.EnsureDistTag | scripts/publish-npm-baseline.ts:755-764 | On return the tag points to the version and nothing else moved, after one command if it did already and two if not; for a version that is there, killed exactly when those were not left, and then nothing moved |
| Publication.PublishOne | scripts/publish-npm-baseline.ts:630-650 | Returns with the package in place after its exact number of commands: three for an absent package, two or three for a present one; killed, leaves it in place or untouched; throws only when the version exists with other contents, as a conflict or, for an integrity that is not sha512, as no integrity |
| Publication.PublishPackages | scripts/publish-npm-baseline.ts:630-650 | Wherever it stops, a whole prefix of the manifest is in place and nothing else changed, and it issued exactly the commands of that prefix; it throws only from a conflicting registry |
| Publication.TagAndVerify | scripts/publish-npm-baseline.ts:651-653 | After the loop, moves `latest` and verifies: throws only if the entry package was never published, returns only a released registry |
| Publication.Verify | scripts/publish-npm-baseline.ts:656-698 | Returns only from, and throws only outside, the registries where every package has its integrity and dist-tag and the entry package has `latest`; it complains of the first package not in place, saying what is wrong with it, and of the entry package last |
| Publication.Publish | scripts/publish-npm-baseline.ts:625-654 | Returns only from publishable registries and leaves the released one; throws only from unpublishable ones, naming the first conflicting package or the entry package that was never published; dies only for lack of commands, at most five a package and three more; a client with the commands for a cut-off point and no more dies there |
| Publication.CutOffIsReached | scripts/publish-npm-baseline.ts:625-654 | The cut-off points are exactly the states in which some client dies |
| Publication.ReleasedIsVerified | scripts/publish-npm-baseline.ts:652-660 | Every state in which `publish` returns is one that `verify` accepts |
| PublicationRuns.HistoryIsOneRun | scripts/publish-npm-baseline.ts:625-654 | Between any two moments of any history the registry moved as one cut-off run would move it |
| PublicationRuns.ContentsNeverChange | scripts/publish-npm-baseline.ts:640-644 | Over every history, an existing version keeps its integrity |
| PublicationRuns.RerunConverges | scripts/publish-npm-baseline.ts:625-660 | However often it was interrupted, the run that returns leaves what one uninterrupted run would have left, and it verifies |
| PublicationRuns.FateIsSettled | scripts/publish-npm-baseline.ts:625-654 | Interruptions neither spoil nor rescue a release: a later run throws only if the first registry was unpublishable |
| PublicationRuns.LatestIsLastIffGuarded | scripts/publish-npm-baseline.ts:649-651 | `latest` waits for the whole release wherever a client dies, exactly for bundles whose own tag is not `latest` or whose entry package comes last |
| PublicationRuns.UnguardedLatestMovesEarly | scripts/publish-npm-baseline.ts:649-651 | For every other bundle a client on an empty registry dies with `latest` moved and a package missing |
| PublicationRuns.RunLatestEarly | scripts/publish-npm-baseline.ts:625-654 | That run of `publish` itself: it dies with `latest` moved and a package missing |
| PublicationRuns.LatestMeansComplete | scripts/publish-npm-baseline.ts:651-660 | For guarded bundles, over whole histories, a moved `latest` means every package is in place |
| ReleaseStaging.Manifest.Stage | scripts/publish-npm-baseline.ts:826-835 | Throws exactly when a section is not an object, at the first such section and with the sections before it pinned; otherwise edits the manifest in place to the pinned one |
| ReleaseStaging.Validate | scripts/publish-npm-baseline.ts:837-872 | Accepts exactly the manifests with well-formed sections and every internal name pinned to the version; otherwise names the first offending section |
| ReleaseStaging.StagedValidates | scripts/publish-npm-baseline.ts:826-851 | What staging accepts, validation accepts afterwards |
| ReleaseStaging.StagingSets | scripts/publish-npm-baseline.ts:826-835 | Staging sets exactly the internal names of the dependency sections to the version; external ranges, order and other sections stay |
| ReleaseStaging.StagingIsMinimal | scripts/publish-npm-baseline.ts:826-835 | Staging changes nothing exactly when all was pinned |
| ReleaseStaging.PackedWorkspace | scripts/publish-npm-baseline.ts:820-835 | After staging a `workspace:` string is left exactly where one stood outside the internal pins |
| ReleaseStaging.WorkspaceIsSomewhere | scripts/publish-npm-baseline.ts:820-824 | The search finds a `workspace:` string exactly when some position of the value, at any depth, holds one |
| ReleaseStaging.CheckTarball | scripts/publish-npm-baseline.ts:325-335 | The checks of one tarball accept exactly the releasable ones |
| ReleaseStaging.Create | scripts/publish-npm-baseline.ts:304-342 | Succeeds exactly when the tarballs are the expected packages, one each, all releasable; the packages returned are the expected ones, sorted by name |
| PackageOrder.LessIsStrictOrder | scripts/package-graph.ts:77-83 | `comparePackages` is a strict order that separates different short names |
| PackageOrder.LessIsComesFirst | scripts/package-graph.ts:77-83 | It compares by the first place of the group in the list, listed before unlisted, then by group name, then by short name |
| PackageOrder.TopoSort | scripts/package-graph.ts:59-75 | Succeeds exactly when every dependency is in the list and there is no cycle; the result is sorted by chain depth, and within a depth by listed groups in list order, then unlisted groups by name, then short name; a failure names exactly the packages that cannot be placed |
| PackageOrder.SortedByGroups | scripts/package-graph.ts:59-83 | In any layered result two packages of one depth stand in that order |
| PackageOrder.LeftAreStuck | scripts/package-graph.ts:67-67 | The packages left by an empty layer each wait for a missing package or for another of them, and all others have a depth |
| PackageOrder.LastNodeCounts | scripts/package-graph.ts:60-60 | Of the nodes with one short name the last one is sorted |
| PackageOrder.StuckLayer | scripts/package-graph.ts:67-67 | An empty layer with packages left means a missing dependency or a cycle |
| PackageOrder.DepthIsUnique | scripts/package-graph.ts:59-75 | Longest-chain depth is determined by the graph |
| PackageOrder.LayeredIsUnique | scripts/package-graph.ts:59-75 | Two sequences of the same packages sorted this way are equal |
| PackageOrder.InputOrderIsIrrelevant | scripts/package-graph.ts:59-75 | The order in which manifests were read does not show in the result |
| PackageOrder.DependenciesFirst | scripts/package-graph.ts:59-75 | Every dependency precedes its dependents |
| WorkerPool.EveryInterleavingIsSafe | scripts/publint-all.ts:127-139 | Over every interleaving each target is started at most once and in order, at most `concurrency` runs are in flight, every result is its target's own, and the length is bounded |
| WorkerPool.StopsWhenDone | scripts/publint-all.ts:127-139 | A pool cannot move exactly when all workers have returned, and then every target has run and has its result, unless there never was a worker |
| WorkerPool.MoveDoesOne | scripts/publint-all.ts:131-137 | Every move of any worker does one unit of the remaining work |
| WorkerPool.RunAll | scripts/publint-all.ts:127-145 | Results come back in target order; the missing-result throw is reached exactly for targets without workers |
| WorkerPool.OverrideAccepted | scripts/publint-all.ts:48-61 | With targets to run, an override is accepted exactly when it is the decimal form of a positive safe integer, and then gives that many workers, capped by the targets |
| WorkerPool.ParseDecimal | scripts/publint-all.ts:53-54 | Parsing the decimal form of a number gives the number back |
| WorkerPool.CheckAll | scripts/publint-all.ts:156-160 | With the concurrency it computes, the run never reaches the missing-result throw and returns every target's result in order; it throws exactly for an invalid override with targets to run; there are as many workers as the override says, or processors without one, and no more than targets |
| ReferenceFaces.FaceIsNearestNamed | scripts/project-reference-faces.ts:88-103 | The recursion with its `seen` set finds the face named nearest up the `extends` chain; a cyclic chain has none |
| ReferenceFaces.CheckConfig | scripts/project-reference-faces.ts:40-59 | The loop over one config lists each violation as often as a reference is wrong in that way and follows exactly the references that are not wrong: outside split packages, or naming the leaf of the config's face |
| ReferenceFaces.Collect | scripts/project-reference-faces.ts:30-63 | The worklist ends and reports, as often as written, exactly the wrong references of the configs reachable from the two aggregates through right ones, each with the config, the text, the innermost package and the leaf expected |
| ReferenceFaces.CheckIsRight | scripts/project-reference-faces.ts:41-58 | A reference is reported exactly when the innermost split package around its target is entered elsewhere than at the leaf of the config's face, or from a config without one |
| ReferenceFaces.EdgeIsRight | scripts/project-reference-faces.ts:41-59 | Traversal goes along exactly the references that are not wrong |
| ReferenceFaces.ReportIsUnique | scripts/project-reference-faces.ts:30-63 | The report does not depend on the traversal order |
| ReferenceFaces.CleanMeansIsolated | scripts/project-reference-faces.ts:30-63 | After a clean report every config in scope enters split packages through the leaf of its own face only |
| ReferenceFaces.CleanMatchesAggregate | scripts/project-reference-faces.ts:20-30 | After a clean report the references into split packages from behind one aggregate name that aggregate's leaves exactly when the configs they stand in have its face |
| ReferenceFaces.NeutralConfigExample | scripts/project-reference-faces.ts:20-63 | A neutral config that extends the host base, referenced from the client aggregate: a clean report, and a host leaf reached from the client side |
| LinkRewrite.LabelEnd | scripts/project-doc-site.ts:71-87 | Finds the first unescaped bracket that balances the first opening one, or there is none |
| LinkRewrite.DestinationRange | scripts/project-doc-site.ts:89-132 | Returns an in-bounds range after the matched label; throws only when no destination exists |
| LinkRewrite.DestinationIsUnique | scripts/project-doc-site.ts:89-132 | There is only one such range |
| LinkRewrite.PlainIsBalanced | scripts/project-doc-site.ts:117-132 | A plain destination that ends before its node does is balanced in unescaped parentheses, never negative, with no unescaped whitespace at depth zero |
| LinkRewrite.Splice | scripts/project-doc-site.ts:272-276 | For pairwise disjoint ranges, splicing from the last to the first is the simultaneous substitution |
| LinkRewrite.CollectionOrderIsIrrelevant | scripts/project-doc-site.ts:273-273 | The order in which replacements were collected does not show |
| LinkNodes.ForestIsDisjoint | scripts/project-doc-site.ts:256-278 | The destinations of nodes that lie side by side or one in the label of the other are pairwise disjoint |
| LinkNodes.RewriteMarkdown | scripts/project-doc-site.ts:225-278 | Throws exactly for a node without a destination the scan can find; otherwise every URL stands in place of its node's destination, all substituted at once |
| LinkNodes.ScanFindsCmDestination | scripts/project-doc-site.ts:117-132 | The scan ends at the end of a CommonMark destination exactly when no backslash ends that destination and no whitespace other than CommonMark's stands in it outside parentheses |
| LinkNodes.NoBreakSpaceExample | scripts/project-doc-site.ts:117-132 | A destination that CommonMark continues and the scan cuts short |
| LinkNodes.CodeSpanLabelExample | scripts/project-doc-site.ts:71-87 | A link of CommonMark in which the scan finds no destination and throws |
| CommentCoverage.NodeComments | scripts/markdown.ts:112-120 | The scan of one node returns its chain of comments, an unterminated last one running to the end |
| CommentCoverage.CommentsAreExact | scripts/markdown.ts:112-120 | The comments are disjoint, in order, each running past the first closing mark behind its opening or to the end, and no comment opens outside them |
| CommentCoverage.LineRanges | scripts/markdown.ts:124-140 | A column is covered exactly when its offset is; a line has ranges exactly when a comment touches it |
| CommentCoverage.HasRenderedText | scripts/markdown.ts:143-153 | Decides exactly whether a visible character lies outside every range, overlapping ranges included |
| CommentCoverage.ProseLines | scripts/markdown.ts:160-176 | Keeps exactly the unfenced lines that no comment touches or that show a character outside every comment, verbatim, numbered and in order |
| CommentCoverage.MarkdownProse | scripts/markdown.ts:160-176 | Over the whole text by offset: a line outside code is dropped exactly when a comment stands on it and none of its visible characters is outside the comments; the rest come back verbatim, numbered by the line breaks before them |
| CommentCoverage.KeptByOffset | scripts/markdown.ts:124-153 | The line-by-line columns and the offsets of the text say the same |
| TextLines.BreaksAt | scripts/markdown.ts:124-139 | Adding up line lengths gives each line's place in the text |
| JsDocProse.ParseLines | scripts/jsdoc.ts:38-79 | The blocks hold every non-blank line before the first block tag exactly once and in order, grouped as the layout has it: blank lines end blocks, lines before the first bullet of a block are its paragraph, each bullet opens its own item; the mode is the last valid one |
| JsDocProse.ClassifyMeans | scripts/jsdoc.ts:62-75 | What each branch matches: an `@mode` tag with one of five modes and nothing else, another `@mode` as a whole word, another tag, a line of blanks, a dash with a blank behind it |
| JsDocProse.StartItemKeepsLines | scripts/jsdoc.ts:68-75 | Starting a list item loses and reorders nothing, because a pending paragraph means empty item and list buffers |
| JsDocProse.DescriptionKeepsWords | scripts/jsdoc.ts:45-59 | The rendered description has the words of the prose lines, all, once, in order |
| JsDocProse.BlockIsWords | scripts/jsdoc.ts:45-59 | A paragraph and an item are one line: their words, single-spaced |
| JsDocProse.BlocksApart | scripts/jsdoc.ts:78-79 | Blocks are apart by an empty line |
| JsDocProse.ItemsApart | scripts/jsdoc.ts:50-54 | The items of a list stand on lines of their own |
| Rescope.TokenOf | scripts/rescope-vendor.ts:519-519 | The token expression matches at a quote exactly when the text up to the next quote is the name or the name with a subpath and that quote is the same |
| Rescope.ReplaceIsPass | scripts/rescope-vendor.ts:539-539 | Global replacement in the text is one left-to-right pass over the pieces between quotes |
| Rescope.PassIsChosen | scripts/rescope-vendor.ts:539-539 | A pass renames hits only, never two neighbours, and passes over a hit only right behind a renamed one |
| RescopeLine.ApplyPatterns | scripts/rescope-vendor.ts:535-543 | The loop applies token and YAML forms pattern by pattern |
| RescopeLine.SiteIsScalar | scripts/rescope-vendor.ts:520-520 | The YAML expression matches exactly behind indentation, an optional dash, `name:` and blanks, the name with nothing but a comment after it |
| RescopeLine.ScalarIsReplaced | scripts/rescope-vendor.ts:540-540 | That name is replaced and nothing else; without one the line stays |
| RescopeLine.ScalarOnLine | scripts/rescope-vendor.ts:520-540 | The YAML form looks at and changes only the text before the first quote |
| RescopeLine.RewriteOnLine | scripts/rescope-vendor.ts:535-543 | Rewriting a line is rewriting its head and passing over its pieces, independently |
| RescopeTable.WholeTable | scripts/rescope-vendor.ts:535-543 | After all patterns, exactly the stepped-over hits are left and exactly the chosen ones are renamed |
| RescopeTable.WholeTableHead | scripts/rescope-vendor.ts:535-543 | The table renames the YAML scalar that is one of its names, leaves none behind, and nothing else |
| RescopeLaws.RewriteTwice | scripts/rescope-vendor.ts:535-543 | A second rewrite of a line changes nothing exactly when no quote closes one token and opens another of the same name |
| RescopeLaws.OrderIsIrrelevant | scripts/rescope-vendor.ts:509-522 | The order of the table does not change any line |
| RescopeLaws.UndoneExactly | scripts/rescope-vendor.ts:509-543 | The reverse table restores a line exactly when it held no new name, as scalar or as a token the reverse pass would find |
| RescopeNames.VendoredReverse | scripts/rescope-vendor.ts:46-56 | For the vendored packages, whichever a file skips, forward and reversed tables meet the conditions of these laws |
| RescopeNames.SharedQuoteExample | scripts/rescope-vendor.ts:9-16 | A concrete line on which the second rewrite is not a no-op |
| RescopeNames.ScopedNameExample | scripts/rescope-vendor.ts:1-3 | A concrete line that held a scoped name already: rewritten and reversed it is not what it was |
| RescopeFile.Rewrite | scripts/rescope-vendor.ts:556-574 | In Markdown outside `docs/` exactly the lines inside fences are rewritten, an odd number of fence lines standing before them; in `docs/` all but fence lines; in code all; and the changed lines are counted |
| RescopeFile.FenceKept | scripts/rescope-vendor.ts:562-568 | Rewriting a line neither makes nor destroys a fence |
| RescopeFile.LinesKept | scripts/rescope-vendor.ts:556-574 | Same number of lines and same fences; a fence line or one with an even number of fence lines before it is unchanged in Markdown outside `docs/`, only fence lines are in `docs/`, none is in code, and every other line is its own rewrite |
| RescopeFile.FileTwice | scripts/rescope-vendor.ts:556-574 | A second `--apply` is a no-op on a file exactly when no line that follows the rename shares a quote |
| RescopeFile.FileUndone | scripts/rescope-vendor.ts:556-574 | `--reverse` restores a file exactly when it restores every line that follows the rename |

## Left out

- GateRunner.RunGates: the executor is a total function, so a promise that rejects, child processes, timing and console output are not modelled.
- ReferenceGains.WalkReturns: sufficient, not necessary: a cycle that gains steps may be one that no path can follow, as `ReferenceGains.GainIsNotNecessary` shows. Whether a path can follow it is a question about the names on the cycle, which is not decided here.
- TypeWalk.Walker.WalkType: carries fuel so that a walk that never returns is a value (`None`); the source has no bound.
- Name resolution across files (`findExportedTypeDecl`, `declForTypeName`, `resolveTypeName`) and the TypeScript syntax tree are given as maps and datatypes.
- SchemaPaths.EmittedPathParses: assumes keys without a dot or a trailing `[]`, since the printed form does not escape them.
- SchemaFold.FoldAll: a name that is composed twice is reported each time, and the order and number of the reports is not stated.
- The member-documentation checks inside the paste loop.
- Publication.Publish: one publisher, atomic commands, no implicit `latest` on a first publish; ping, identity, confirmation, npm's transient errors and the parsing of tag listings are not modelled. A killed run is cut off between commands.
- ReleaseStaging.Create: tarball inspection, checksums and writing the manifest; target names without duplicates, which discovery enforces, are assumed. `localeCompare` is any total order.
- PackageOrder.TopoSort: `localeCompare` is any total order on strings; manifest reading is not modelled.
- WorkerPool.ParseDecimal: `parseInt` is exact here, whereas the source rounds beyond the safe integers, which it then refuses; `String` is modelled for integers written without an exponent.
- ReferenceFaces.Collect: the final text sort and reading of tsconfig files, with its error for an unreadable one; path resolution and containment are given.
- LinkNodes.RewriteMarkdown: each node's new URL is given, so resolving URLs and the Markdown parser are not modelled. Nested nodes are assumed to end inside the outer label as the scan finds its end, which counts brackets in code spans, autolinks and raw HTML where CommonMark does not.
- CommentCoverage.ProseLines: comment spans and fenced lines are inputs; which nodes are HTML or code is the Markdown parser's decision. Fitting `NodeComments` to a node's source offset assumes its value is its source text.
- RescopeFile.Rewrite: the kind of a file, which the source reads off its name, is given.
- JsDocProse.ParseLines: starts from the comment's lines with delimiters and asterisks removed; unwrapping of `{@link X}` and `@param`/`@returns` parsing are not modelled.
- RescopeLine.ApplyPatterns: the multi-line YAML expression stops at a carriage return or Unicode line separator here too, but a scalar that begins behind one in the middle of a line is not found. Skipped patterns are removed from the table beforehand; `exactEditState`, file exclusion and the exact edits are not modelled.
- The concrete gate lists, catalog rendering, option parsing, diagnostics' texts and the other scripts of the repository.
