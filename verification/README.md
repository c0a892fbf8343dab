# Verification of the frontend build and release algorithms

Dafny models of the algorithms under `frontend/scripts/` that order packages, publish releases, look
up configuration paths, rewrite text and check the workspace, with proofs of what each of them
promises. `dafny verify dfyconfig.toml` checks everything.

| part | modules | what is proved, in short |
|---|---|---|
| shared | `Basics` | options, string prefixes, minima |
| package order | `Digraph`, `Sorting`, `Packages`, `Tarjan`, `LayeredOrder`, `PackageOrder`, `PackageRounds`, `PackageSort` | the component search finds exactly the strongly connected components; `topoSort` never gets stuck, keeps every component in one block, puts dependencies first, ignores the order of its input, and returns the one list that goes round by round in the caller's group order |
| publication | `Publication`, `PublicationOutcome`, `PublicationSeries`, `PublicationRun`, `ReleaseBundle` | over any series of interrupted runs no artifact is replaced and `latest` moves last; every series of interruptions converges to the same registry; over any series of releases whatever `latest` names is completely stored |
| shell text | `ShellQuote` | a copied command line runs exactly what was meant |
| config paths | `PathSteps`, `PathLookup`, `PathVisits`, `PathTermination`, `PathDivergence`, `PathExactness`, `PathFound`, `SchemaFold` | the three-valued lookup is sound both ways against a must/may meaning of types, and exact as long as its guard meets no repeated visit; which cycles of types make it run forever; composed schemas are folded exactly once each |
| declaration closure | `PasteClosure` | the paste queue ends, computes the exact reference closure, and complains exactly on ambiguity |
| reference faces | `ReferenceFaces` | every mismatched reference that conforming references lead to is reported, and nothing else |
| worker pool | `WorkerPool` | every interleaving claims each target once and returns its own result |
| archive manifest | `ArchiveManifest` | seals never change along any history of attempted edits |
| artifact digest | `ArtifactDigest` | the digested byte stream determines the files |
| Markdown | `Text`, `MarkdownDestination`, `MarkdownSplice`, `MarkdownLinks`, `MarkdownProse` | destinations are found exactly, are apart where labels balance, and are spliced as one simultaneous substitution; comments are projected exactly onto lines |
| vendor rename | `VendorRename`, `VendorRewrite`, `VendorStretches`, `VendorLines`, `VendorText`, `VendorFile`, `VendorEdits`, `VendorLanding` | the codemod's reverse mode undoes it, a third run never changes anything, fences stay fences; exactly when an exact edit lands, and when it could be made twice |

Code that works step by step is modelled step by step: the search of `sinkCycles`, the publisher, the
npm client and the worker pool are classes, loops are loops, and each is proved against a function or
a predicate whose own properties are proved as lemmas. Where something is promised that the code
does not keep in all cases, the exact condition is proved, or an example shows the limit:

- The header of `rescope-vendor.ts` calls the rewrite idempotent. It is so exactly on files in which no
  two tokens of one name share a quote (`VendorFile.FileIdempotent`, `VendorStretches.SharedQuoteMissed`).
- `latest` is exposed last exactly if the bundle's own dist-tag is not `latest` or the entry package comes
  last in it (`Publication.LatestGuarded`); a set of releases keeps `latest` on complete releases exactly
  if that holds for each of them (`PublicationSeries.ReleasesBacked`).
- A key path is parsed back into its steps exactly if no key contains a dot or ends in a bracket pair
  (`PathSteps.PathRoundTrip`).
- A copied command line runs the command exactly if the command is not read as an assignment or a
  reserved word (`ShellQuote.ShellRoundTrip`).
- The visited set of `lookupPath` is shared between branches, so it cuts a walk off at every declaration it
  meets a second time with as many steps left, recursive or not. Its answer was cut if and only if the walk
  without the guard repeats a visit (`PathExactness.CutIffRepeats`); "missing" is answered if and only if the
  type cannot have the path and no visit repeats (`PathExactness.MissingExact`). Declarations on which
  branches share nothing and every cycle takes a step are looked up exactly on every path
  (`PathExactness.UnsharedExact`). Otherwise an undeclared member can end as "unknown" on types without any
  recursion (`PathExactness.DiamondHidesMiss`).
- A declared member is found however often the walk was cut off, as long as there are no unions and no indexed
  accesses in reach (`PathFound.FoundExact`). It can be lost in a union (`PathExactness.SharedGuardLosesFound`)
  and behind an indexed access, because the guard compares the number of the steps left and not the steps
  (`PathFound.IndexedBranchLost`).
- `lookupPath` returns if no reachable cycle of references makes the path grow (`PathTermination.LookupReturns`),
  and never returns on a non-empty path if such a cycle is reached along references that are always followed
  (`PathDivergence.GrowingCycleNeverReturns`); where all references are, this is exact
  (`PathDivergence.ReturnsExactly`). A growing cycle that the path does not follow does no harm: on a path
  without repeated visits the walk returns if and only if its paths stay short (`PathExactness.ReturnsIfShort`).
- An exact edit can be pending again after it has been made if and only if it deletes, and is not the
  complete deletion of a run of one character (`VendorEdits.PendingAgainExactly`).
- An applied edit need not count as applied: text around it can complete the new text a second time or bring
  the old one back. The exact condition is proved for an edit wanted once (`VendorLanding.LandsExactly`,
  `VendorLanding.DeletionLandsExactly`), a
  condition on the two texts for any count (`VendorLanding.DistinguishableLands`), and that every deletion
  that leaves something fails in some text (`VendorLanding.DeletionMisses`).
- A bracket inside a code span ends the label too early for `destinationRange`
  (`MarkdownDestination.CodeSpanInLabel`), which for a linked image can cut the label out of the page
  (`MarkdownLinks.CodeSpanCutsLabel`). Balanced labels are enough (`MarkdownLinks.RewriteMarkdown`), and to find
  the bare destination of a link or image they are necessary (`MarkdownDestination.InlineDestinationExact`).

## Model

| member | source | states |
|---|---|---|
| Packages.PrecedenceTotal | frontend/scripts/package-graph.ts:152-158 | for any collation, `comparePackages` is a total preorder and only equates packages with the same short name |
| PackageRounds.PrecedenceMeaning | frontend/scripts/package-graph.ts:152-158 | `comparePackages` puts a package no later than another exactly if its group is listed earlier, or listed while the other is not, or, where the list does not decide, by the collation of the groups and then of the short names |
| Packages.KeepIsFilter | frontend/scripts/package-graph.ts:83-87 | deleting the placed packages keeps exactly the others |
| Packages.KeepOrder | frontend/scripts/package-graph.ts:83-87 | one kept package comes before another exactly if it did before |
| Digraph.ComponentsMeetOnce | frontend/scripts/package-graph.ts:92-133 | two strongly connected components that share a node are one |
| Digraph.SinkReachable | frontend/scripts/package-graph.ts:138-143 | from every node some component without an edge out of it can be reached |
| Tarjan.SegmentIsComponent | frontend/scripts/package-graph.ts:119-132 | when a call ends at its own index, the stack from its node upwards is exactly one strongly connected component |
| Tarjan.LeaveStacked | frontend/scripts/package-graph.ts:119 | a call that ends below its own index leaves its node on the stack, linked to an older stack entry, and keeps the search invariant |
| Tarjan.VisitCorrect | frontend/scripts/package-graph.ts:102-133 | one call of `visit` keeps the search invariant, leaves the older stack alone, and keeps every successor of a finished package visited |
| Tarjan.FollowCorrect | frontend/scripts/package-graph.ts:109-118 | following one dependency keeps the call's invariant and its low-link bound |
| Tarjan.QuiescentStack | frontend/scripts/package-graph.ts:135-137 | with no call active the stack is empty: all that was visited has been emitted |
| Tarjan.TarjanFindsComponents | frontend/scripts/package-graph.ts:94-137 | for every finite graph and every order of the roots the emitted components are exactly the strongly connected components, each once |
| PackageSort.ComponentSearch.Visit | frontend/scripts/package-graph.ts:102-133 | the imperative call computes the specified search state; none of its map lookups fails |
| PackageSort.ComponentSearch.FollowAll | frontend/scripts/package-graph.ts:109-118 | the loop over the dependencies follows them in order |
| PackageSort.ComponentSearch.Follow | frontend/scripts/package-graph.ts:110-117 | one dependency: unknown ones are skipped, new ones visited, stacked ones lower the link; `requiredValue` never throws |
| PackageSort.ComponentSearch.PopComponent | frontend/scripts/package-graph.ts:120-132 | pops exactly the stack down to the root; the "lost its active component" errors are unreachable |
| PackageSort.FindSinkCycles | frontend/scripts/package-graph.ts:94-144 | the whole of `sinkCycles`, as run, returns the specified sink cycles |
| PackageOrder.SinkCycleMeaning | frontend/scripts/package-graph.ts:138-143 | the final filter accepts a component exactly if it has an edge inside and none out of it |
| PackageOrder.SinkCyclesSound | frontend/scripts/package-graph.ts:138-143 | whatever is returned is a strongly connected component, cyclic, and closed |
| PackageOrder.SinkCyclesComplete | frontend/scripts/package-graph.ts:138-143 | every cyclic closed component is returned |
| PackageOrder.SinkCycleExists | frontend/scripts/package-graph.ts:76-80 | where every node has a successor, some sink cycle exists |
| PackageOrder.RoundPlacesSomething | frontend/scripts/package-graph.ts:72-82 | a round always places something, so "could not order" is unreachable, self-dependencies included |
| PackageOrder.RoundIsBatch | frontend/scripts/package-graph.ts:73-82 | a round places either packages whose dependencies are all placed, or one component of the whole graph whose other dependencies are placed |
| PackageOrder.TopoSortCorrect | frontend/scripts/package-graph.ts:60-90 | fails exactly on a missing peer; otherwise every package once, dependencies first except within a cycle, every component of the original graph in one unbroken block |
| PackageOrder.TopoSortPermutes | frontend/scripts/package-graph.ts:60-90 | with unique short names the result is a permutation of the input |
| PackageOrder.ChosenCycleLeast | frontend/scripts/package-graph.ts:77-79 | the chosen cycle begins with a least package of all packages of all sink cycles |
| PackageOrder.TopoSortIgnoresInputOrder | frontend/scripts/package-graph.ts:60-90 | for packages with unique short names, permuting the input list changes neither whether it can be ordered nor the order |
| PackageRounds.TopoSortExact | frontend/scripts/package-graph.ts:60-90 | with no peer missing, a list is the result if and only if it goes round by round: every time all packages whose dependencies are placed, or, if there are none, the closed cycle that has the first package; each round in the order of groups and names. Of packages with one short name the last counts |
| PackageRounds.RoundsUnique | frontend/scripts/package-graph.ts:72-87 | there is exactly one such list |
| PackageRounds.MissingPeerExact | frontend/scripts/package-graph.ts:61-68 | the error names exactly the first dependency, in list order, that no package of the list provides |
| PackageSort.NextRound | frontend/scripts/package-graph.ts:73-82 | the loop body picks the round's packages |
| PackageSort.Place | frontend/scripts/package-graph.ts:83-87 | the inner loop moves exactly these packages from `remaining` to `out` and `placed` |
| PackageSort.RunRounds | frontend/scripts/package-graph.ts:69-89 | the loop ends and computes the specified order |
| PackageSort.TopologicalSort | frontend/scripts/package-graph.ts:60-90 | `topoSort` as run, with its missing-peer check, computes the specified result, which `PackageRounds.TopoSortExact` characterises |
| Publication.PublishPreserves | frontend/scripts/publish-npm-baseline.ts:625-654 | a run, cut off after any command, never loses or replaces a stored version |
| Publication.VerifyReadsOnly | frontend/scripts/publish-npm-baseline.ts:656-698 | verification writes nothing |
| Publication.PublishPackageLocal | frontend/scripts/publish-npm-baseline.ts:630-650 | for a package with a sha512 integrity, one package's step settles that package if it completes, and keeps every other settled package settled |
| Publication.PublishPackageOthers | frontend/scripts/publish-npm-baseline.ts:630-650 | wherever it is cut off, one package's step leaves all versions and tags of other names as they are |
| Publication.PublishAllSafe | frontend/scripts/publish-npm-baseline.ts:630-651 | for a bundle whose own tag is not `latest`, from a safe registry: wherever a run is cut off before verifying, the entry's `latest` is the bundle's version only if the whole bundle is out |
| Publication.LatestGuarded | frontend/scripts/publish-npm-baseline.ts:630-651 | every cut-off run keeps the registry safe if and only if the bundle's tag is not `latest` or the entry package comes last |
| Publication.HistorySafe | frontend/scripts/publish-npm-baseline.ts:625-654 | for a guarded bundle (its own tag is not `latest`, or the entry package comes last), from a safe registry: over any series of cut-off runs no integrity changes and an exposed bundle is complete |
| Publication.Resume | frontend/scripts/publish-npm-baseline.ts:625-654 | a run cut off anywhere leaves the effect of a whole run unchanged |
| Publication.Uninterrupted | frontend/scripts/publish-npm-baseline.ts:625-654 | a run that is not cut off has the whole effect; once it gets to verifying, it verifies |
| Publication.PublicationConverges | frontend/scripts/publish-npm-baseline.ts:625-654 | any cut-off runs followed by a whole one end as a single whole run would: same registry, same outcome |
| Publication.VerifyExact | frontend/scripts/publish-npm-baseline.ts:662-698 | if it is not cut off, both passes succeed exactly on a complete bundle that `latest` points at |
| Publication.RerunWritesNothing | frontend/scripts/publish-npm-baseline.ts:755-764 | publishing again after a finished publication writes nothing, and finishes if it is not cut off |
| Publication.PublishSucceeds | frontend/scripts/publish-npm-baseline.ts:625-654 | a whole run succeeds exactly if no package is out with another integrity and the entry package can be tagged |
| PublicationOutcome.VerifyOutcome | frontend/scripts/publish-npm-baseline.ts:656-698 | the verify command, if not cut off, passes exactly if every package is there with its integrity and its tag and `latest` of the entry package points at the bundle; otherwise it names the fault of the first package that is not, or of that tag; it changes nothing |
| PublicationOutcome.PublishOutcome | frontend/scripts/publish-npm-baseline.ts:625-654 | a whole run stores and tags exactly the packages before the first conflict, names that conflict, and changes nothing else; without a conflict it stores and tags all of them and moves exactly `latest` of the entry package, if that can be moved |
| PublicationOutcome.RunExplained | frontend/scripts/publish-npm-baseline.ts:625-654 | wherever a run is cut off, its writes replayed on the old registry give the new one |
| PublicationOutcome.RunsSafe | frontend/scripts/publish-npm-baseline.ts:625-654 | between any two cut-off runs of a guarded bundle, from a safe registry on, no integrity has changed and an exposed bundle is complete |
| PublicationOutcome.RunsConverge | frontend/scripts/publish-npm-baseline.ts:625-654 | a whole run after any cut-off runs ends with the same registry and reply as before all of them |
| PublicationSeries.RunMovesLatest | frontend/scripts/publish-npm-baseline.ts:625-654 | a run, cut off anywhere, leaves the entry's `latest` alone or moves it to its own version |
| PublicationSeries.ReleasesBacked | frontend/scripts/publish-npm-baseline.ts:625-654 | over every series of cut-off runs of different releases, whichever release `latest` names is completely stored, if and only if every release is guarded |
| PublicationSeries.RunsBacked | frontend/scripts/publish-npm-baseline.ts:625-654 | between any two runs of guarded releases the release that `latest` names is completely stored, and no integrity has changed |
| PublicationRun.RegistryPublication.Publish | frontend/scripts/publish-npm-baseline.ts:625-654 | the publisher as run computes the specified world and reply; it loses and replaces nothing, and if it is not cut off it ends as `PublicationOutcome.PublishOutcome` says |
| PublicationRun.RegistryPublication.PublishPackages | frontend/scripts/publish-npm-baseline.ts:630-650 | the loop over the packages |
| PublicationRun.RegistryPublication.EnsureDistTag | frontend/scripts/publish-npm-baseline.ts:755-764 | moves a tag only if it does not stand at the version yet |
| PublicationRun.RegistryPublication.Verify | frontend/scripts/publish-npm-baseline.ts:656-660 | the verify command as run writes nothing, and if it is not cut off it passes exactly on a complete, exposed bundle and otherwise names the first fault |
| PublicationRun.RegistryPublication.VerifyRemote | frontend/scripts/publish-npm-baseline.ts:662-698 | the two verification passes as run |
| ReleaseBundle.Load | frontend/scripts/publish-npm-baseline.ts:359-419 | loads exactly non-empty manifests without duplicate names whose tarballs match their integrities and pass the other checks, keeping all packages; otherwise it names a duplicate or the first package that does not match |
| ReleaseBundle.Create | frontend/scripts/publish-npm-baseline.ts:313-342 | succeeds exactly if the tarballs and the expected names correspond one to one and pass their checks, with the packages in name order; otherwise it names the first tarball that does not fit, or exactly the missing names |
| ReleaseBundle.CreatedLoads | frontend/scripts/publish-npm-baseline.ts:331-388 | what is created can be loaded again, if the other checks still hold |
| ShellQuote.ScanQuoted | frontend/scripts/publish-npm-baseline.ts:998-1003 | whatever the argument, its quoted form is read by the shell as one word with exactly its text |
| ShellQuote.ShellRoundTrip | frontend/scripts/publish-npm-baseline.ts:994-1003 | for all argument strings, the line runs the command with these arguments if and only if the command is not read as an assignment or reserved word |
| ShellQuote.PlainCommandRuns | frontend/scripts/publish-npm-baseline.ts:994-1003 | a command without `=` that is no reserved word always runs as written |
| ShellQuote.QuoteExact | frontend/scripts/publish-npm-baseline.ts:998-1003 | an argument of plain characters stands as it is; any other is put in single quotes, with every single quote in it replaced by the five characters that leave and enter the quotes |
| PathSteps.ParsePath | frontend/scripts/gen-config-catalog.ts:232-245 | splits at dots and turns each trailing bracket pair into one element step |
| PathSteps.PathRoundTrip | frontend/scripts/gen-config-catalog.ts:232-245 | parsing a printed key path gives its steps back if and only if no key has a dot or ends in a bracket pair |
| PathSteps.ParseExact | frontend/scripts/gen-config-catalog.ts:232-245 | every path is the printed form of what it is parsed into, and of no other clean key path |
| PathLookup.WalkDecl | frontend/scripts/gen-config-catalog.ts:319-361 | for every visited set and depth: the answer for a declaration agrees with the must/may meaning |
| PathLookup.WalkTy | frontend/scripts/gen-config-catalog.ts:362-402 | the same for every form of type |
| PathLookup.FieldIndex | frontend/scripts/gen-config-catalog.ts:335-343 | the first property signature of the name, and none exactly if no member has it |
| PathLookup.LookupMeaning | frontend/scripts/gen-config-catalog.ts:317-403 | "found" implies must-have, "missing" implies cannot-have, for recursive types and the shared visited set; both are equivalences where the guard never cut the walk off, which `PathExactness` characterises |
| PathTermination.LookupReturns | frontend/scripts/gen-config-catalog.ts:317-403 | on every path the walk returns unless a reachable cycle of references puts back more steps by indexed accesses than it takes by members and elements |
| PathTermination.ShortReturns | frontend/scripts/gen-config-catalog.ts:317-403 | a walk whose paths stay below some length returns, whatever the types |
| PathTermination.PayingReturns | frontend/scripts/gen-config-catalog.ts:336-387 | an example of a cycle through an indexed access whose member pays the step back: the walk returns on every path |
| PathDivergence.GrowingCycleNeverReturns | frontend/scripts/gen-config-catalog.ts:322-387 | for all types: along references that are followed on every path (through parentheses, operators, wrappers, branches and indexed accesses), a cycle of aliases that makes the path grow is never left, at no recursion depth and on no non-empty path |
| PathDivergence.ReturnsExactly | frontend/scripts/gen-config-catalog.ts:317-403 | where all references are of that kind, the walk of any non-empty path returns if and only if no reachable cycle of references makes the path grow |
| PathDivergence.GrowingNeverReturns | frontend/scripts/gen-config-catalog.ts:381-387 | an instance: the lookup of a non-empty path in `type A = A['x']` never returns |
| PathExactness.CutIffRepeats | frontend/scripts/gen-config-catalog.ts:322-326 | a finished walk was cut off by its guard if and only if the walk without the guard enters some declaration twice with as many steps left |
| PathExactness.ExactWithoutRepeats | frontend/scripts/gen-config-catalog.ts:317-403 | where no visit repeats, "found" means must-have and "missing" means cannot-have, both ways |
| PathExactness.MissingExact | frontend/scripts/gen-config-catalog.ts:317-403 | "missing", which is what the catalog reports, is answered if and only if the type cannot have the path and no visit repeats |
| PathExactness.ReturnsIfShort | frontend/scripts/gen-config-catalog.ts:317-403 | on a path without repeated visits the walk returns if and only if its paths stay below some length |
| PathExactness.UnsharedNeverRepeats | frontend/scripts/gen-config-catalog.ts:322-326 | where every cycle of references takes a step and branches lead to different declarations, no visit repeats on any path |
| PathExactness.UnsharedExact | frontend/scripts/gen-config-catalog.ts:317-403 | on such declarations the lookup returns on every path and is exact both ways |
| PathExactness.RecursiveUnshared | frontend/scripts/gen-config-catalog.ts:322-326 | an example of a recursive type that meets that condition |
| PathExactness.SharedGuardLosesFound | frontend/scripts/gen-config-catalog.ts:322-326 | an example where sharing the visited set between branches answers "unknown" for a declared member |
| PathExactness.DiamondHidesMiss | frontend/scripts/gen-config-catalog.ts:322-326 | an example without recursive types where it answers "unknown" for a member that is declared nowhere |
| PathFound.FoundExact | frontend/scripts/gen-config-catalog.ts:317-403 | where no declaration in reach uses a union or an indexed access, "found" is answered if and only if the type must have the path, however often the guard has cut the walk off |
| PathFound.IndexedBranchLost | frontend/scripts/gen-config-catalog.ts:322-387 | an example without unions where two branches enter a declaration with equally many but different steps, and the guard cuts off the one that has the member |
| SchemaFold.Fold | frontend/scripts/gen-config-catalog.ts:736-749 | one call visits packages reachable from its own, follows all that they compose, and adds their keys once |
| SchemaFold.AllKeys | frontend/scripts/gen-config-catalog.ts:735-750 | from the start, the keys of exactly the packages composed directly or indirectly, each package once; exactly the unknown names on the way are reported |
| PasteClosure.HandleViolates | frontend/scripts/gen-config-catalog.ts:663-717 | a violation is reported only where the closure really is ambiguous |
| PasteClosure.DrainedCovers | frontend/scripts/gen-config-catalog.ts:679-712 | with the queue drained and nothing reported, everything needed was handled |
| PasteClosure.ClosureIsClosed | frontend/scripts/gen-config-catalog.ts:679-715 | every non-global name a pasted declaration uses is pasted or imported, never both, and as it resolves from that file |
| PasteClosure.Collect | frontend/scripts/gen-config-catalog.ts:663-717 | the queue ends on mutually recursive declarations; no violation if and only if the closure is unambiguous, and then the result is exactly the closure, pasted breadth first in the order of mentions; every violation is true of the closure |
| ReferenceFaces.FaceExact | frontend/scripts/project-reference-faces.ts:88-103 | a config has a face exactly if its chain of `extends` inherits it, cyclic chains included |
| ReferenceFaces.Inspect | frontend/scripts/project-reference-faces.ts:40-59 | one config's references: conforming targets are pushed, the others reported |
| ReferenceFaces.CollectViolations | frontend/scripts/project-reference-faces.ts:30-63 | ends on cyclic references, visits exactly the reached configs once each, and returns in sorted order exactly the reports of references into a split project from a config without a face, or off the leaf of its face |
| ReferenceFaces.ReportsIgnoreOrder | frontend/scripts/project-reference-faces.ts:35-62 | the result does not depend on the visiting order |
| ReferenceFaces.ReportsExact | frontend/scripts/project-reference-faces.ts:30-63 | said by the inherited face and the leaf alone: a report is given exactly for such a reference of a config that other references lead to, and as often as there are such references |
| ReferenceFaces.VisitedMeaning | frontend/scripts/project-reference-faces.ts:30-58 | the configs visited are exactly those that references outside split projects, or to the leaf of the inherited face, lead to from the aggregates |
| WorkerPool.ConcurrencyBounds | frontend/scripts/publint-all.ts:62-75 | with targets there is at least one worker and never more workers than targets |
| WorkerPool.ConcurrencyExact | frontend/scripts/publint-all.ts:62-75 | a setting is accepted exactly if it is the plain numeral of a positive safe integer; the number of workers is the smaller of it, or of the available parallelism, and the number of targets |
| WorkerPool.PoolCompletes | frontend/scripts/publint-all.ts:221-239 | in every interleaving indices are claimed once and in order; once all workers stop, every slot holds its own target's result, so the missing-result error is unreachable |
| WorkerPool.PoolFinishes | frontend/scripts/publint-all.ts:224-232 | the pool stops after exactly one resumption for each target and one for each worker, in every interleaving |
| WorkerPool.Workers.Step | frontend/scripts/publint-all.ts:225-231 | a worker's stretch between two awaits: store the result, claim the next index or stop |
| WorkerPool.Workers.RunAll | frontend/scripts/publint-all.ts:221-239 | a whole run under any schedule returns the results in input order |
| ArchiveManifest.ValidateExtension | frontend/scripts/archived-agent-notes.ts:57-68 | reports exactly the removed and the changed entries, each once; nothing if and only if the current manifest extends the baseline |
| ArchiveManifest.Extend | frontend/scripts/archived-agent-notes.ts:172-190 | keeps every seal, seals the new files in order by their hash, reports exactly the lost and changed ones, each once |
| ArchiveManifest.ExtendedSeals | frontend/scripts/archived-agent-notes.ts:172-190 | an extension is free of errors if and only if its result seals exactly the tree |
| ArchiveManifest.ExtendAgain | frontend/scripts/archived-agent-notes.ts:172-190 | extending again adds nothing and finds the same faults |
| ArchiveManifest.Check | frontend/scripts/verify-archived-agent-notes.ts:75-114 | the command passes exactly the acceptable edits, reports exactly the faults there are, and leaves the manifest to commit |
| ArchiveManifest.AttemptOutcome | frontend/scripts/verify-archived-agent-notes.ts:86-105 | an edit passes exactly if the rules about the tree hold, the committed seals are kept, and the manifest it leaves seals exactly the tree |
| ArchiveManifest.SealsNeverChange | frontend/scripts/archived-agent-notes.ts:56-68 | along any history of attempted edits every earlier committed manifest is extended by every later one |
| ArchiveManifest.AcceptedTreesMatch | frontend/scripts/archived-agent-notes.ts:171-190 | every accepted tree hashes to all that was ever sealed before, and its manifest seals nothing else |
| ArchiveManifest.ArchivedContentIsFrozen | frontend/scripts/archived-agent-notes.ts:171-190 | a file in an accepted tree has the same content in every later accepted tree, up to hash collisions |
| ArchiveManifest.RenderRoundTrip | frontend/scripts/archived-agent-notes.ts:31-54 | what is rendered is parsed back, exactly if every hash has the sealed form, and rejected otherwise |
| ArchiveManifest.ParseExact | frontend/scripts/archived-agent-notes.ts:31-46 | a value is read as a manifest exactly if it has the fields `version`, which is 1, and `files`, whose entries, the last one for each path, are its seals of "sha256:" and 64 hexadecimal digits |
| ArchiveManifest.RenderExact | frontend/scripts/archived-agent-notes.ts:49-54 | what is written is the version and the seals, one for each path, in ascending order |
| ArchiveManifest.RenderIgnoresOrder | frontend/scripts/archived-agent-notes.ts:49-54 | under a collation that tells the paths apart, the rendered entries do not depend on the order in which they were made |
| ArtifactDigest.StreamExact | frontend/scripts/client-build-environment.ts:336-344 | a reader gives back the list of (path, content) pairs exactly for the stream that was written: the stream determines the list |
| ArtifactDigest.ClientArtifactDigest | frontend/scripts/client-build-environment.ts:329-345 | counts and digests exactly the regular files, in ascending order of code units with slashes for backslashes; fails exactly if there are none |
| ArtifactDigest.CompareMeaning | frontend/scripts/client-build-environment.ts:333 | a path stands before another exactly if it is a proper beginning of it or smaller in the first code unit in which they differ |
| ArtifactDigest.GlobOrderIrrelevant | frontend/scripts/client-build-environment.ts:330-333 | the order in which paths are globbed does not affect the stream |
| ArtifactDigest.DigestExact | frontend/scripts/client-build-environment.ts:315-325 | for builds without repeated paths, and an encoding that tells these paths apart: digests of two builds agree if and only if they have the same files with the same contents, as long as these two streams do not collide |
| MarkdownDestination.LabelEnd | frontend/scripts/markdown.ts:90-104 | returns the first bracket that closes the first one, unescaped brackets counted, or none |
| MarkdownDestination.DestinationRange | frontend/scripts/markdown.ts:106-140 | the range, or the error, that the first stopping character determines in each of the three forms |
| MarkdownDestination.LabelExact | frontend/scripts/markdown.ts:90-104 | the label ends where it was written if and only if its brackets balance |
| MarkdownDestination.DepthMeaning | frontend/scripts/markdown.ts:90-104 | the depth of the scan is the number of openers minus the number of closers that stand behind an even number of backslashes |
| MarkdownDestination.BareDestinationFound | frontend/scripts/markdown.ts:127-139 | after a label whose brackets balance, the range is exactly the written destination if and only if its parentheses balance and no white space stands outside them |
| MarkdownDestination.LastDestinationFound | frontend/scripts/markdown.ts:127-139 | the same for a definition that ends with its destination |
| MarkdownDestination.InlineDestinationExact | frontend/scripts/markdown.ts:106-140 | for links and images, whatever the label: the range is exactly the written bare destination if and only if the brackets of the label balance and the destination is in plain form |
| MarkdownDestination.AngleDestinationFound | frontend/scripts/markdown.ts:120-126 | after a label whose brackets balance: in angle brackets, exactly the text between them if and only if every closing one inside is escaped |
| MarkdownDestination.DestinationLens | frontend/scripts/markdown.ts:143-152 | after a label whose brackets balance, for destinations in plain form: a replaced destination is found again at the same place, and putting the old one back restores the node |
| MarkdownDestination.CodeSpanInLabel | frontend/scripts/markdown.ts:94-102 | an example where a bracket in a code span closes the label too early |
| MarkdownSplice.Project | frontend/scripts/project-doc-site.ts:197-202 | for disjoint ranges the loop's result is the simultaneous substitution |
| MarkdownSplice.SpliceIsSubstitution | frontend/scripts/project-doc-site.ts:197-201 | for disjoint ranges, every character outside the ranges is kept, every value stands at its shifted place, and nothing else is in the result |
| MarkdownSplice.CollectionOrderIrrelevant | frontend/scripts/project-doc-site.ts:182-198 | the order in which disjoint replacements are collected does not matter |
| MarkdownLinks.Visit | frontend/scripts/project-doc-site.ts:162-195 | on every tree the replacements of a subtree stand at the destinations found in their own nodes, in the order of the visit; it fails only on a node whose destination is not found |
| MarkdownLinks.RewrittenExact | frontend/scripts/project-doc-site.ts:190-196 | the nodes visited are exactly the nodes of the tree that get a new URL, in the order of the source, the outer before the inner |
| MarkdownLinks.DestinationsInside | frontend/scripts/project-doc-site.ts:162-195 | under that condition on the labels all ranges found in a subtree lie inside it and apart, because children end before the destination begins |
| MarkdownLinks.RewriteMarkdown | frontend/scripts/project-doc-site.ts:162-202 | on every tree the replacements are collected where they are found and spliced; where every rewritten node with rewritten nodes below has a balanced label around them they are disjoint, and wherever they are, the result is the source with all destinations replaced at once and nothing else changed |
| MarkdownLinks.CodeSpanCutsLabel | frontend/scripts/project-doc-site.ts:182-202 | an example where a bracket in a code span makes the destination found for a link cover the image in its label, and the splice cuts most of the label out |
| MarkdownProse.CommentsExact | frontend/scripts/markdown.ts:207-215 | the comments of an html node: each from an opening mark to the end of the first closing mark behind it, or to the end of the text if there is none; in order, apart, none missed |
| MarkdownProse.CommentsUnique | frontend/scripts/markdown.ts:207-215 | there is only one list of comments of that kind |
| MarkdownProse.CoveredInComment | frontend/scripts/markdown.ts:203-216 | an offset of the source is in the collected ranges exactly if it lies in a comment of some html node |
| MarkdownProse.HtmlCommentRanges | frontend/scripts/markdown.ts:203-235 | the loops fill the map with each line's ranges |
| MarkdownProse.ProjectionExact | frontend/scripts/markdown.ts:218-234 | a character at a line and column lies in a stored range if and only if its offset lies in a comment |
| MarkdownProse.LineRangesExact | frontend/scripts/markdown.ts:222-231 | ranges are stored exactly for the lines a comment touches, empty lines included, and stay within the line |
| MarkdownProse.HasRenderedText | frontend/scripts/markdown.ts:238-248 | true if and only if no range is stored or a visible character lies outside the union of the ranges, overlapping ones included |
| MarkdownProse.MarkdownProseLines | frontend/scripts/markdown.ts:255-271 | keeps exactly the lines outside code blocks that no comment touches or of which some visible character lies in no comment, verbatim and in order; said by the text of the nodes |
| MarkdownProse.ProseLinesExact | frontend/scripts/markdown.ts:263-270 | a line is in the result if and only if it is unfenced and untouched or visible outside comments, verbatim and in order |
| VendorRename.PassExact | frontend/scripts/rescope-vendor.ts:493-506 | a global replacement renames a token unless the token right before it has used up the common quote, and changes nothing else |
| VendorRename.PassDecreases | frontend/scripts/rescope-vendor.ts:506 | a pass changes the line exactly if an old token is left, and then strictly fewer are |
| VendorRename.PassIdempotent | frontend/scripts/rescope-vendor.ts:506 | idempotent for one name if and only if no two of its tokens share a quote; after two passes none is left |
| VendorRename.FoldExact | frontend/scripts/rescope-vendor.ts:502-510 | the passes for different names, none of them a path below another, do not disturb each other in any order |
| VendorRename.FoldReverses | frontend/scripts/rescope-vendor.ts:483-510 | the reverse passes restore the tokens of a line without new names |
| VendorRewrite.TokenMeaning | frontend/scripts/rescope-vendor.ts:493 | the token expression matches at a quote exactly if the text up to the next quote is the name or a path below it and that quote is the same |
| VendorText.TokenReplaced | frontend/scripts/rescope-vendor.ts:493-506 | where a quote, the name, nothing or a path below it, and the same quote begin the text, the new name takes the place of the old one, path and quotes stay, and the search goes on behind the token |
| VendorText.NoTokenKept | frontend/scripts/rescope-vendor.ts:493-506 | where no such token begins, the character stays and the search goes on behind it |
| VendorText.EntryReplaced | frontend/scripts/rescope-vendor.ts:494-507 | in a `name:` entry, written out with its dash, blanks and comment, the new name takes the place of the old one and all around it stays |
| VendorText.NameExact | frontend/scripts/rescope-vendor.ts:494-507 | a text is taken for a `name:` entry if and only if it is one; any other is left alone |
| VendorRewrite.ReplacePieces | frontend/scripts/rescope-vendor.ts:506 | replacing in the raw line is one pass over the texts between its quotes |
| VendorRewrite.NameLocal | frontend/scripts/rescope-vendor.ts:494 | a YAML name match never reaches past the first quote except into a comment |
| VendorRewrite.NameReplaced | frontend/scripts/rescope-vendor.ts:507 | the new name stands where the old one stood, and the reverse replacement restores the line |
| VendorRewrite.FoldHeadExact | frontend/scripts/rescope-vendor.ts:504-508 | in any order of the patterns, the one whose name stands in the entry acts, once |
| VendorLines.RewriteLine | frontend/scripts/rescope-vendor.ts:502-510 | the loop applies both replacements for every pattern in turn |
| VendorLines.TokensApart | frontend/scripts/rescope-vendor.ts:493-506 | no token reaches past white space: replacing works on both sides by itself |
| VendorLines.RewriteApart | frontend/scripts/rescope-vendor.ts:494-510 | where `$` also matches before a line terminator inside the line, each stretch between terminators is rewritten by itself |
| VendorStretches.RewriteIsFold | frontend/scripts/rescope-vendor.ts:502-510 | `rewriteLine` on a raw stretch is the rewrite of its pieces |
| VendorLines.LineUnchanged | frontend/scripts/rescope-vendor.ts:502-510 | a line is left alone exactly if it names no old package |
| VendorLines.LineIdempotent | frontend/scripts/rescope-vendor.ts:502-510 | a second rewrite changes nothing if and only if no two tokens of a name share a quote; a third never does |
| VendorLines.LineReverses | frontend/scripts/rescope-vendor.ts:483-510 | the reverse mode restores every line that named no new package |
| VendorStretches.SharedQuoteMissed | frontend/scripts/rescope-vendor.ts:506 | an example where the first pass misses the second of two tokens |
| VendorLines.FenceKept | frontend/scripts/rescope-vendor.ts:530-537 | rewriting neither makes a fence of a line nor stops it from being one |
| VendorText.FenceExact | frontend/scripts/rescope-vendor.ts:530 | a line is a fence if and only if it is white space, three backquotes and anything |
| VendorFile.EligibleExact | frontend/scripts/rescope-vendor.ts:523-535 | a line is rewritten if and only if the file is no Markdown, or the line is no fence and stands under `docs/` or behind an odd number of fences |
| VendorFile.Rewrite | frontend/scripts/rescope-vendor.ts:523-541 | every eligible line becomes its rewrite, every other stays, and the count is the number of lines that differ |
| VendorFile.PatternsExact | frontend/scripts/rescope-vendor.ts:483-496 | the table holds exactly the renames, turned round in reverse, with longer names first |
| VendorFile.StructureKept | frontend/scripts/rescope-vendor.ts:526-539 | line count, fences and eligible lines are the same before and after |
| VendorFile.FileUnchanged | frontend/scripts/rescope-vendor.ts:523-541 | a file is left alone exactly if no eligible line names an old package |
| VendorFile.FileIdempotent | frontend/scripts/rescope-vendor.ts:523-541 | applying again changes nothing if and only if no eligible line has two tokens of a name that share a quote; a third time never does |
| VendorFile.PatternsReverse | frontend/scripts/rescope-vendor.ts:483-496 | the forward and the reverse table undo each other although each is sorted by its own names |
| VendorFile.CodemodReverses | frontend/scripts/rescope-vendor.ts:498-541 | applying and reversing restores every file whose eligible lines named no new package, whatever names are skipped for it |
| VendorEdits.OccurrencesFound | frontend/scripts/rescope-vendor.ts:573-574 | the count is positive exactly if the text includes the part |
| VendorEdits.ReverseDual | frontend/scripts/rescope-vendor.ts:572-585 | an edit is applied in one direction exactly if it is pending in the other, insertions and deletions included |
| VendorEdits.StateMeansText | frontend/scripts/rescope-vendor.ts:552-558 | an applied edit's new text is there, a pending edit's old text is there |
| VendorEdits.ReplacedLands | frontend/scripts/rescope-vendor.ts:627-631 | every occurrence replaced is an occurrence of the new text afterwards |
| VendorEdits.NeverAppliedTwice | frontend/scripts/rescope-vendor.ts:552-558 | a pending edit that has been applied is not pending again, unless it only deletes |
| VendorEdits.PendingAgainExactly | frontend/scripts/rescope-vendor.ts:572-585 | over all texts, an edit can be pending again after it was applied if and only if its old text includes the new one, and leaves something or is not a run of one character |
| VendorLanding.LandsExactly | frontend/scripts/rescope-vendor.ts:572-632 | an edit wanted once that does not delete counts as applied afterwards if and only if the text around its place neither completes a second copy of the new text nor revives the old one |
| VendorLanding.DeletionLandsExactly | frontend/scripts/rescope-vendor.ts:572-632 | a deletion wanted once counts as applied afterwards if and only if what it leaves stands nowhere else and is not completed a second time, and the old text does not close up again |
| VendorLanding.DistinguishableLands | frontend/scripts/rescope-vendor.ts:572-632 | for any count and text, an edit whose texts cannot run into each other always counts as applied afterwards |
| VendorLanding.DeletionMisses | frontend/scripts/rescope-vendor.ts:572-632 | for every deletion that leaves something, and every count, some text where it is pending ends invalid |
| VendorLanding.DoubledMisses | frontend/scripts/rescope-vendor.ts:572-632 | an example of an edit that is pending, is applied, and is then invalid |

## Left out

- `loadPackageGraph`: reading manifests; the model starts from the list of packages.
- Locale comparison: `localeCompare` is any total order that tells different strings apart (only a total preorder where that suffices).
- Component members: the search stack holds short names instead of package objects, which the map `remaining` turns into each other.
- The registry: `npm publish` sets the given tag only (not an automatic `latest` on a first publication), listing tags fails for a package without any, and one publisher is at work; identity and interactive confirmation never fail by themselves, and a failing read counts as a cut-off.
- `parseDistTagListing`, tarball inspection and dependency pins: inputs of the publisher and the bundle.
- `resolveTypeName` and `declForTypeName`: import chasing is a given map from (file, name) to a declaration.
- PathLookup.LookupMeaning: the walk carries a recursion bound; `PathTermination.LookupReturns` says when some bound is enough. One declaration per name; type operators are `readonly` only; unions have at least one branch.
- PathTermination.LookupReturns: one direction only; a growing cycle may still return on a path that never follows it. Exact where all references are followed on every path (`PathDivergence.ReturnsExactly`), and path by path where no visit repeats (`PathExactness.ReturnsIfShort`).
- PathExactness.UnsharedExact: one direction only, as it speaks of all paths at once; branches that lead to one declaration at different depths may do no harm. Path by path `PathExactness.CutIffRepeats` is exact.
- Wording of diagnostics: violations carry what they are about, not their text.
- File system, JSON syntax and path arithmetic of the reference faces: targets and parents of a config are given as resolved paths.
- Object keys: manifest and catalog objects are maps without inherited properties and without special treatment of numeric keys.
- `validateArchiveArtifacts`: header and triplet rules are one input of an attempt.
- Hash functions are arbitrary functions; where two hashes are compared they are assumed not to collide.
- The Markdown parser: node offsets, html text and code blocks are inputs; an html node's text is taken to be a verbatim slice of the source. Text is modelled in Unicode characters, not UTF-16 code units.
- `resolveRepositoryTarget`, `routeTarget` and `githubTarget`: the value put in place of a destination is an input.
- MarkdownDestination.DestinationLens: for inline destinations in plain form with something after them; the other forms have their own exactness lemmas.
- The table of vendor names: a parameter; names are free of quotes, white space and comment signs, and none is another one or a path prefix of another.
- The list of exact edits: each edit is given by its two texts and its expected count; the count is positive, and what is searched for is not empty.
- PathFound.FoundExact: one direction only, as it speaks of all paths at once; a union or an indexed access need not cost an answer.
- VendorLanding.LandsExactly: for edits wanted once, as `VendorLanding.DeletionLandsExactly` is; for other counts `VendorLanding.DistinguishableLands` is one direction only.
- MarkdownLinks.RewriteMarkdown: balanced labels are a sufficient condition for disjoint ranges, and disjoint ranges one for a simultaneous substitution; a misread label may also do no harm.
- VendorRename.FoldReverses: one direction; a line that already has new names may or may not be restored.
- WorkerPool.PoolCompletes: the result of a target is a function of its index; a `runPublint` that never settles is a schedule that stops resuming its worker.
- The remaining commands of these scripts and all other scripts: no further property of this depth.
