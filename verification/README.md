# Verified models of the platform server

Dafny models of the stateful and recursive cores of `packages/platform-server`, with proofs of
what they guarantee. `dafny verify dfyconfig.toml` checks everything; no file needs another
project or library.

| area | files |
|---|---|
| graph store | `GraphModel` (entities, validator), `UriComponent` (percent-encoding, section 2.1 of RFC 3986), `FsTree` (one directory tree: writing and reading), `FsGraphRepository` (one process, failing I/O), `StoreProtocol`, `StoreSafety`, `StoreTheorems` (many processes, crashes, recovery) |
| live runtime | `GraphDiff` (edge keys, diff), `EdgeIndex` (executed edges and inverted indexes), `LiveGraph` (the runtime class), `LiveGraphRuns` (runs that leave its guarantees) |
| references | `References` (heap, walk, resolver class), `ReferencesStructure` (depth and cycles), `ReferencesReport` (accounting), `ReferencesMemo` and `ReferencesCollisions` (caches), `ReferencesOutput` (the output as a relation), `ReferencesStrict` (completeness), `JsonPointer` (RFC 6901) |
| reference migration | `Json`, `RefMigration` (the two walks), `MigrationClean` (idempotence without the check), `MigrationAccounting`, `Migration` |
| paging | `KeysetPaging` |
| threads | `ThreadCascade` |
| call-agent links | `LinkMetadata` |
| shared | `Wrappers`, `Collections`, `Text` |

**Graph store.** `StoreProtocol` is a state machine. The parent directory holds the root, staging
and backup trees and a lock; each directory creation, file write, file read, rename and
deletion step is one action, any process may move next, and a process or a start-up may crash
between any two actions. Readers go file by file without a lock, meta first. `StoreSafety` proves
one invariant over all runs, `StoreTheorems` what follows from it. No operation of that machine
reports an I/O error; failing operations are in the class `FsGraphRepository`, which runs one
upsert at a time. Start-up recovery runs while no process is live, as the source assumes by
taking no lock there; a stale lock goes away only then. A read torn by a commit may also end in
"Working tree read error" or in a validation error before it reaches the version check.

Two things are not as one might expect. Edge ids join names with separators the names may contain,
so the validator admits two edges with one id and the store keeps one of them
(`CollidingEdgesLost`); reading back returns all edges exactly when ids are distinct
(`StoreRoundTrip`). And a staging directory that could not be completed stays behind until the
next start-up, because it is created outside the block that discards it.

**Live runtime.** Calls into node classes and edge operations succeed or fail arbitrarily; port
resolution throws or yields a method, so an edge between live nodes is wired or fails. What a
successful apply does to nodes and edges is stated of every state (`NodesApplied`,
`EdgesApplied`). As long as no reversal has failed, executed keys are keys of the last graph,
whatever else has happened. That the runtime matches the graph is an invariant until something
disturbs it, which history fields record: a shutdown or a repeated node id disturbs nodes and
edges; a failed reversal, a dangling edge or a kept edge that the new graph does not have disturb
the edges only.

An edge shares its key with another edge of separator-free names exactly when a name of its own
contains the separator that follows it in the key (`UnsafeKeysCollide`). Such a collision matters
when an executed edge, whose key is in the next graph and which no recreation takes down, is not
an edge of that graph: an apply of a well-formed graph leaves the right edges exactly when there is
none (`EdgesConvergeExactly`), which a caller can check before the apply. It fails in two ways, both
shown on the class: the executed edge goes with a leaving node and the new graph's edge is never
wired (`CollidingApply`), or it stays and the keys look right (`CollidingSwap`).

Only after a failed reversal can an executed edge outside the last graph hold the key of a new edge
(`UnfailedKeysFit`). If that edge has other ends it is registered over, and index entries can be
wrong from then on (`RegisterExact`; recorded by the history field `mixed`); in every other state
the indexes agree with the edges.

A shutdown keeps the last graph: a later apply brings up only nodes that are new or change
template, and the same graph nothing (`ShutdownThenApply`). Applies run one after the other, as in
the source, and a shutdown is assumed not to overlap one; `ShutdownDuringEdge` is an overlap that
leaves index entries for nodes that are gone.

**References.** The input is a finite heap of arrays and records, so sharing and cycles are real.
The two resolve functions of the source differ in the key, the provider and one error code, and
are one function here, as are their two caches (with tagged keys). Providers are functions of the
reference. The cache keys join mount, path and key with colons. For an input within the depth
limit memoised and plain runs agree for all providers exactly when no two different reached secrets
share a key (`MemoisationExact`); `CollidingSecretServed` is an input where they do. A strict output
holds no reference, whatever values the providers give, exactly when no reached plain record could
be completed to one by references directly under kind, path, key or name (`StrictPlainExact`).

**Migration.** `collectPostTransformErrors` is what makes a migration idempotent: unwrapping a
nested static can build a legacy reference one level up (`UnwrappingManufacturesLegacy`), and a
legacy reference that does not convert stays. The transform alone is idempotent exactly for
documents where neither happens (`Clean`). Pointers are printed with "/" for the root, so two
different pointers can print alike; within one document those of its references never do
(`TextsDistinct`).

**Paging.** Ids are non-empty. Event limits are clamped to 1..1000, those of context items are used
as given: with a limit below 1 the first page is empty and the last (`ItemPageIs`,
`ContextPagingComplete`).

**Threads.** The search assumes that the root is not its own ancestor; otherwise no level of the
search is ever empty (`SearchDivergesOnCycle`).

**Links.** A child run's state is stored nested and again in flat fields. Flat fields may be absent, null
or set. Writing may fail silently. Missing start times sort first, as PostgreSQL orders them
descending.

## Model

| member | source | states |
|---|---|---|
| GraphModel.ValidatePersistedGraph | packages/platform-server/src/graph/graphSchema.validator.ts:3-39 | accepts exactly the requests with unique non-empty node ids, known templates, existing edge ends and handles, and unique non-empty variable keys with non-empty values; otherwise the error names the first fault in checking order |
| UriComponent.DecodeEncode | packages/platform-server/src/graph/fsGraph.repository.ts:291 | decoding an encoded id returns it, for every string of Unicode scalar values, through UTF-8 |
| FsTree.FileNameInjective | packages/platform-server/src/graph/fsGraph.repository.ts:247-253 | two ids with the same file name are the same id |
| FsTree.BuildContents | packages/platform-server/src/graph/fsGraph.repository.ts:183-196 | the staging writes leave exactly one file per node and edge name, the variables and the meta record |
| FsTree.BuildValid | packages/platform-server/src/graph/fsGraph.repository.ts:176-203 | staging a graph that passes the validator gives a complete, valid tree |
| FsTree.ReadValid | packages/platform-server/src/graph/fsGraph.repository.ts:157-174 | any undisturbed read of a valid tree, in whatever listing order, passes the validator with deterministic edge ids |
| FsTree.RestoreRebuilds | packages/platform-server/src/graph/fsGraph.repository.ts:444-471 | restoring from memory gives the tree staging would have given, whatever was there before |
| FsTree.RebuildSame | packages/platform-server/src/graph/fsGraph.repository.ts:444-471 | writing back what was read from a valid tree leaves a valid tree with the same version, nodes, edges and variables |
| FsTree.NextGraphValid | packages/platform-server/src/graph/fsGraph.repository.ts:91-121 | whatever an upsert decides to commit passes the validator and has deterministic edge ids |
| FsGraphRepository.FsGraphRepository.ReadFromWorkingTree | packages/platform-server/src/graph/fsGraph.repository.ts:157-174 | a healthy root is read in full; a missing meta file reads as no graph |
| FsGraphRepository.FsGraphRepository.CreateStagingTree | packages/platform-server/src/graph/fsGraph.repository.ts:176-203 | success leaves the whole graph in the new staging directory; no other one changes |
| FsGraphRepository.FsGraphRepository.SwapWorkingTree | packages/platform-server/src/graph/fsGraph.repository.ts:205-231 | success puts the staged tree at the root; failure leaves the old root or, after a failed rename back, none; staging and backup are gone either way |
| FsGraphRepository.FsGraphRepository.RestoreWorkingTree | packages/platform-server/src/graph/fsGraph.repository.ts:444-471 | if its writes succeed the root is the given graph's tree, even when the root was gone |
| FsGraphRepository.FsGraphRepository.Upsert | packages/platform-server/src/graph/fsGraph.repository.ts:68-135 | a committed upsert leaves the decided graph on disk; a refused one leaves the disk alone and reports the decision's own error; a failed persist whose restore succeeds leaves the version, nodes, edges and variables read before |
| StoreSafety.RunKeeps | packages/platform-server/src/graph/fsGraph.repository.ts:47-231 | the store invariant (one lock holder, complete staged trees, root or backup holding the current tree, readers faithful or overtaken) holds in every state of every run |
| StoreSafety.CheckDetectsTearing | packages/platform-server/src/graph/fsGraph.repository.ts:72-89 | under the lock, the version read first without the lock equals the current one exactly when the whole unlocked read was of the current tree |
| StoreTheorems.TornReadsConflict | packages/platform-server/src/graph/fsGraph.repository.ts:137-145 | in every reachable state, an upsertNodeState at its check gets VERSION_CONFLICT exactly when its file-by-file base is not an undisturbed read of the locked tree |
| StoreTheorems.PatchCommit | packages/platform-server/src/graph/fsGraph.repository.ts:137-145 | no lost update: an upsertNodeState that commits replaces the tree by itself with one node's state patched, one version later |
| StoreTheorems.CrashAtomicity | packages/platform-server/src/graph/fsGraph.repository.ts:384-409 | after a crash anywhere and any number of interrupted recoveries, a finished one leaves the root with the old tree of every upsert before its second rename and the new tree of every later one, and no staging or backup directory |
| StoreTheorems.VersionCountsCommits | packages/platform-server/src/graph/fsGraph.repository.ts:111-121 | over any run the version grows by exactly the number of commits, and without a commit the stored tree does not change |
| StoreTheorems.StoredGraphsValid | packages/platform-server/src/graph/fsGraph.repository.ts:68-70 | in every reachable state of a started store, what is on disk passes the validator with deterministic edge ids |
| StoreTheorems.CommitKeepsState | packages/platform-server/src/graph/fsGraph.repository.ts:91-98 | in every reachable state, the tree an upsert commits holds for each of its nodes the given state, or if the request omits it the state the replaced tree holds for that id |
| StoreTheorems.StoreRoundTrip | packages/platform-server/src/graph/fsGraph.repository.ts:157-203 | reading a committed graph returns meta, nodes and variables up to file order, and the edges exactly when their ids are distinct |
| StoreTheorems.CollidingEdgesLost | packages/platform-server/src/graph/fsGraph.repository.ts:272-274 | two different valid edges can share an id, and then one file holds them both |
| GraphDiff.EdgeKeyInjective | packages/platform-server/src/graph/liveGraph.types.ts:61 | edges with separator-free names are equal when their keys are |
| GraphDiff.SafeKeysTellApart | packages/platform-server/src/graph/liveGraph.types.ts:61 | so keys tell any set of such edges apart |
| GraphDiff.UnsafeKeysCollide | packages/platform-server/src/graph/liveGraph.types.ts:61 | an edge shares its key with another, separator-free edge exactly when its own names are not separator-free |
| GraphDiff.EdgeKeysCollide | packages/platform-server/src/graph/liveGraph.types.ts:61 | two different edges of one key |
| GraphDiff.ComputeDiff | packages/platform-server/src/graph-core/liveGraph.manager.ts:324-370 | the diff lists exactly the added, removed, recreated (other template) and reconfigured ids and, each key once, the added and removed edges |
| GraphDiff.DiffIsPatch | packages/platform-server/src/graph-core/liveGraph.manager.ts:324-370 | the previous graph patched by the diff agrees with the next on ids, templates, configs and edge keys |
| GraphDiff.SelfDiffEmpty | packages/platform-server/src/graph-core/liveGraph.manager.ts:324-370 | a graph differs from itself in nothing |
| EdgeIndex.RegisterKeeps | packages/platform-server/src/graph-core/liveGraph.manager.ts:565-570 | registering an edge between live nodes keeps indexes and edges in agreement, and complete if they were, unless an edge with other ends has its key |
| EdgeIndex.RegisterExact | packages/platform-server/src/graph-core/liveGraph.manager.ts:565-570 | complete indexes stay in agreement exactly when both ends are live and an edge executed under the key has the same ends |
| EdgeIndex.RegisterNeedsLiveEnds | packages/platform-server/src/graph-core/liveGraph.manager.ts:565-570 | with a fitting key, agreement is kept exactly when both ends are live, whether or not the indexes were complete |
| EdgeIndex.UnregisterKeeps | packages/platform-server/src/graph-core/liveGraph.manager.ts:572-576 | so does unregistering |
| EdgeIndex.WithoutNodeKeeps | packages/platform-server/src/graph-core/liveGraph.manager.ts:543-545 | dropping a node's entries keeps agreement with the remaining live nodes, and completeness once no edge touches it |
| EdgeIndex.IndexedTouching | packages/platform-server/src/graph-core/liveGraph.manager.ts:519-523 | complete indexes list exactly the executed edges with an end at the node |
| LiveGraph.LiveGraphRuntime.RegisterEdgeRecord | packages/platform-server/src/graph-core/liveGraph.manager.ts:565-570 | the three maps become the registered wiring, which keeps every invariant when both ends are live and the key fits, and breaks the index when an end is not live |
| LiveGraph.LiveGraphRuntime.UnregisterEdgeRecord | packages/platform-server/src/graph-core/liveGraph.manager.ts:572-576 | the three maps become the unregistered wiring and stay in agreement |
| LiveGraph.LiveGraphRuntime.TryReverseAndUnregister | packages/platform-server/src/graph-core/liveGraph.manager.ts:549-552 | a successful reversal unregisters the edge, a failed one keeps the record and its index entries |
| LiveGraph.LiveGraphRuntime.DisposeNode | packages/platform-server/src/graph-core/liveGraph.manager.ts:506-547 | removes the node and its index entries and reverses exactly the edges touching it, up to failed reversals |
| LiveGraph.LiveGraphRuntime.BeginEdge | packages/platform-server/src/graph-core/liveGraph.manager.ts:578-581 | there is a create call to make exactly when both ends are live |
| LiveGraph.LiveGraphRuntime.FinishEdge | packages/platform-server/src/graph-core/liveGraph.manager.ts:604-624 | after the call the edge is registered without a further look at its ends |
| LiveGraph.LiveGraphRuntime.ExecuteEdge | packages/platform-server/src/graph-core/liveGraph.manager.ts:578-625 | wires the edge when both ends are live and its create call succeeds, and changes nothing otherwise |
| LiveGraph.LiveGraphRuntime.UpdateNodeConfig | packages/platform-server/src/graph-core/liveGraph.manager.ts:157-165 | sets the config of one live node and one definition and keeps the runtime converged |
| LiveGraph.LiveGraphRuntime.Apply | packages/platform-server/src/graph-core/liveGraph.manager.ts:180-183 | any graph, in any state: versions count successes and nothing runs after a failure; every success brings up exactly the new and recreated nodes, removes the leaving ones and, if no reversal failed, executes exactly the predicted keys, all of them keys of the graph; live nodes then match the graph, also after failed reversals, and executed edges are edges of it exactly under the stated condition |
| LiveGraph.LiveGraphRuntime.ApplyInternal | packages/platform-server/src/graph-core/liveGraph.manager.ts:204-322 | the account of one apply from any state, converged or not |
| LiveGraph.LiveGraphRuntime.UnfailedKeysFit | packages/platform-server/src/graph-core/liveGraph.manager.ts:204-322 | unless a reversal has failed, no graph brings a new edge whose key is taken by an edge with other ends |
| LiveGraph.LiveGraphRuntime.ApartKeysFit | packages/platform-server/src/graph-core/liveGraph.manager.ts:204-322 | nor does one whose keys tell its edges and the executed ones apart |
| LiveGraph.EdgesConverge | packages/platform-server/src/graph-core/liveGraph.manager.ts:265-297 | if the executed edges of the next graph's keys, unless taken down, are its edges, then executed edges are edges of it afterwards: the new ones and the old ones no recreation dropped, all of them when no node changed template |
| LiveGraph.EdgesConvergeExactly | packages/platform-server/src/graph-core/liveGraph.manager.ts:265-297 | for a well-formed graph they are so exactly under that condition |
| LiveGraph.ApartEdgesStay | packages/platform-server/src/graph-core/liveGraph.manager.ts:265-297 | it holds when keys tell the executed and the next edges apart |
| LiveGraph.NodesConverge | packages/platform-server/src/graph-core/liveGraph.manager.ts:222-281 | from nodes matching the last graph an apply leaves nodes matching the next one, and exchanges instances exactly of the recreated nodes |
| LiveGraph.LiveGraphRuntime.Shutdown | packages/platform-server/src/graph-core/liveGraph.manager.ts:631-651 | if every deprovision succeeds every map is empty; otherwise some node stays and agreement still holds |
| LiveGraphRuns.ShutdownThenApply | packages/platform-server/src/graph-core/liveGraph.manager.ts:204-322 | after a complete shutdown an apply leaves exactly the new and recreated nodes, which match the graph exactly if these are all its nodes; the same graph again starts nothing |
| LiveGraphRuns.ShutdownDuringEdge | packages/platform-server/src/graph-core/liveGraph.manager.ts:604-651 | a shutdown that completes while an edge's create call is awaited leaves index entries for nodes that are gone |
| LiveGraphRuns.CollidingApply | packages/platform-server/src/graph-core/liveGraph.manager.ts:204-322 | two applies of well-formed graphs whose edges share a key, after which the second graph's edge is not executed though its ends are live and no template changed |
| LiveGraphRuns.CollidingSwap | packages/platform-server/src/graph-core/liveGraph.manager.ts:204-322 | two applies between graphs of the same nodes, after which the executed keys are the graph's and yet the replaced edge is wired in place of the new one |
| JsonPointer.ParseEncode | packages/platform-server/src/utils/references.ts:128-137 | parsing a pointer text by section 3 of RFC 6901 returns the tokens it was built from |
| JsonPointer.UnescapeEscape | packages/platform-server/src/utils/references.ts:128-130 | unescaping undoes escaping |
| References.Resolver.TraverseValue | packages/platform-server/src/utils/references.ts:406-466 | the walk with in-place counters, caches and ancestors computes the specified step, terminates on every heap, and its ancestors are exactly the objects on the current path |
| References.Resolver.ResolveReference | packages/platform-server/src/utils/references.ts:168-377 | one reference is resolved as specified: cache, provider, missing, refused and lenient cases with their counts and events |
| References.Resolver.ResolveReferences | packages/platform-server/src/utils/references.ts:468-510 | the result and final report are the specified ones |
| ReferencesStructure.StructuralErrorsExact | packages/platform-server/src/utils/references.ts:406-452 | an input within the depth limit never raises cycle_detected or max_depth_exceeded, one beyond it never returns, and lenient runs return exactly when it fits |
| ReferencesStructure.CyclesNeverReturn | packages/platform-server/src/utils/references.ts:406-452 | when the walk can reach an object from itself it always ends in an error |
| ReferencesStructure.DepthBoundedByHeap | packages/platform-server/src/utils/references.ts:406-452 | with cycle detection a limit of the number of objects is never exceeded |
| ReferencesStructure.AncestorsRestored | packages/platform-server/src/utils/references.ts:425-466 | a normal return leaves the ancestors as they were |
| ReferencesReport.CountsBalance | packages/platform-server/src/utils/references.ts:155-377 | every normal return has total = resolved + unresolved, one event a reference when reporting is on, and none unresolved in strict mode |
| ReferencesReport.EventPointersExact | packages/platform-server/src/utils/references.ts:401-466 | with no base path every event's path, evaluated by section 4 of RFC 6901, leads to a reference of the reported kind, and paths are distinct |
| ReferencesMemo.MemoRefinesPlain | packages/platform-server/src/utils/references.ts:168-377 | memoised and plain runs give the same output or error and reports that differ in cache hits only, whenever reached references of one cache key have one answer |
| ReferencesMemo.MemoisationIsTransparent | packages/platform-server/src/utils/references.ts:168-377 | in particular when mounts and keys are free of colons |
| ReferencesMemo.KeyInjective | packages/platform-server/src/utils/references.ts:173-176 | colon-free mounts and keys are determined, with the path, by the cache key |
| ReferencesCollisions.MemoisationExact | packages/platform-server/src/utils/references.ts:168-377 | for an input within the depth limit memoised and plain runs agree, for all providers that always answer and for all providers, exactly when no two different reached secrets share a cache key |
| ReferencesCollisions.CollidingSecretServed | packages/platform-server/src/utils/references.ts:468-510 | a list of two secrets of one key resolves to the first value twice with the cache, and to both values without |
| ReferencesStrict.StrictPlainExact | packages/platform-server/src/utils/references.ts:406-466 | for a strict run of an input within the depth limit: whatever values the providers give the output holds no reference, exactly when no reached plain record is completable |
| ReferencesStrict.StrictResolutionComplete | packages/platform-server/src/utils/references.ts:406-466 | if none is, a strict return holds no reference, keeps all other structure, and resolving it again, however laid out, is the identity with total 0, whatever the providers and caches answer |
| ReferencesStrict.ShieldedNoneCompletable | packages/platform-server/src/utils/references.ts:113-126 | in particular none is completable when no reference sits directly under kind, path, key or name |
| ReferencesStrict.StrictReplaces | packages/platform-server/src/utils/references.ts:406-466 | every strict return is the input with each reference replaced by a text and nothing else changed |
| ReferencesStrict.StrictResolves | packages/platform-server/src/utils/references.ts:406-466 | the text is the provider's value, without a cache or when reached references of one cache key have one answer |
| ReferencesStrict.ResolvedKindManufacturesReference | packages/platform-server/src/utils/references.ts:113-126 | without the condition a resolved kind field can build a new reference |
| RefMigration.TransformValue | packages/platform-server/tools/graph-ref-migrate/transform.ts:135-203 | the loops over items and fields compute the specified transform |
| RefMigration.CollectPostTransformErrors | packages/platform-server/tools/graph-ref-migrate/transform.ts:205-248 | appends exactly the specified errors to the shared list |
| Migration.MigrateValue | packages/platform-server/tools/graph-ref-migrate/transform.ts:250-260 | the report names each topmost legacy reference once; an error-free validated run leaves no legacy reference and a second one does nothing; without validation that is so exactly for clean documents |
| RefMigration.QuietIffNoLegacy | packages/platform-server/tools/graph-ref-migrate/transform.ts:135-203 | a transform that reports nothing is exactly one of a document without legacy references, and returns it unchanged |
| RefMigration.ValidatedMigrationIdempotent | packages/platform-server/tools/graph-ref-migrate/transform.ts:250-260 | an error-free validated migration leaves no legacy reference, and a second one reports nothing |
| MigrationClean.CleanExact | packages/platform-server/tools/graph-ref-migrate/transform.ts:135-203 | the transform leaves no legacy reference exactly when each one of the input converts and no other record becomes one once static wrappers directly below it are gone |
| MigrationClean.UnvalidatedMigrationIdempotent | packages/platform-server/tools/graph-ref-migrate/transform.ts:250-260 | without validation a second run is quiet exactly for those inputs |
| RefMigration.UnwrappingManufacturesLegacy | packages/platform-server/tools/graph-ref-migrate/transform.ts:180-199 | a document whose transform reports no error and still leaves a legacy reference |
| MigrationAccounting.MigrationAccounts | packages/platform-server/tools/graph-ref-migrate/transform.ts:135-203 | conversions and errors together name each topmost legacy reference once, with distinct pointers; changed exactly when something was converted, and unchanged means the input itself |
| MigrationAccounting.TextsDistinct | packages/platform-server/tools/graph-ref-migrate/transform.ts:18-21 | printed pointers of one document's references never coincide |
| MigrationAccounting.PositionsLead | packages/platform-server/tools/graph-ref-migrate/transform.ts:135-203 | each listed position leads to a legacy reference of the document |
| MigrationAccounting.PositionsCover | packages/platform-server/tools/graph-ref-migrate/transform.ts:135-203 | every legacy reference lies at or below a listed position |
| MigrationAccounting.VaultConvertsExactly | packages/platform-server/tools/graph-ref-migrate/transform.ts:62-133 | which vault strings convert: no leading slash, and three segments or more, or two with an unknown first one and a default mount |
| MigrationAccounting.VaultRejoined | packages/platform-server/tools/graph-ref-migrate/transform.ts:62-133 | a vault string of three or more segments without a leading slash converts to mount/path/key, which rejoined are the string up to outer white space and repeated slashes |
| KeysetPaging.ListRunEvents | packages/platform-server/src/events/run-events.service.ts:959-1039 | returns the page of matching events past the cursor in (time, id) order; a cursor without an id restarts past its time |
| KeysetPaging.ListLlmContextItems | packages/platform-server/src/events/run-events.service.ts:1284-1363 | null exactly when the run has no such call; otherwise the page of input items past the cursor in descending (idx, id) order, and an empty last page for a limit below 1 |
| KeysetPaging.ItemPageIs | packages/platform-server/src/events/run-events.service.ts:1325-1360 | what the query and slice of one page amount to for each limit |
| KeysetPaging.PageIs | packages/platform-server/src/events/run-events.service.ts:1015-1034 | a page holds the least matching rows past the cursor, sorted, at most limit many, and has a cursor exactly when more follow |
| KeysetPaging.PagesListTheTable | packages/platform-server/src/events/run-events.service.ts:959-1039 | following the cursors to null over an unchanging table yields the matching rows sorted, each once |
| KeysetPaging.PagingEnds | packages/platform-server/src/events/run-events.service.ts:959-1039 | a page with a cursor is full and a row follows, so the pages are finitely many |
| KeysetPaging.NoRepeats | packages/platform-server/src/events/run-events.service.ts:959-1039 | rows appended between pages never make a row appear twice |
| KeysetPaging.NothingMissed | packages/platform-server/src/events/run-events.service.ts:959-1039 | nor make a row that was there at the start disappear |
| KeysetPaging.ContextPagingComplete | packages/platform-server/src/events/run-events.service.ts:1284-1363 | following the cursors from the first page lists all matching items in order exactly when the limit is positive or none matches |
| ThreadCascade.CollectNodes | packages/platform-server/src/agents/threadCleanup.coordinator.ts:103-135 | the level-by-level search ends and collects exactly the descendants of the root |
| ThreadCascade.SearchDivergesOnCycle | packages/platform-server/src/agents/threadCleanup.coordinator.ts:119-135 | if the root is its own ancestor, no level of the search is empty |
| ThreadCascade.PostOrder.GroupChildren | packages/platform-server/src/agents/threadCleanup.coordinator.ts:141-147 | each node is listed once, under its parent |
| ThreadCascade.PostOrder.Visit | packages/platform-server/src/agents/threadCleanup.coordinator.ts:149-162 | appends a subtree, each node once, children before parents and the root last; a visited node adds nothing |
| ThreadCascade.CollectThreadNodes | packages/platform-server/src/agents/threadCleanup.coordinator.ts:103-163 | the root and each descendant exactly once, every child before its parent, the root last; nothing for a missing root |
| ThreadCascade.Coordinator.EnsureThreadClosed | packages/platform-server/src/agents/threadCleanup.coordinator.ts:97-101 | closes an open thread or fails without effect |
| ThreadCascade.Coordinator.CloseThreadWithCascade | packages/platform-server/src/agents/threadCleanup.coordinator.ts:45-67 | all closures come before any cleanup, cleanups run in post-order of the subtree and only if every thread is closed, and no other thread changes |
| LinkMetadata.BuildInitialMetadata | packages/platform-server/src/agents/call-agent-linking.service.ts:79-96 | a mirrored link to a run that has not started |
| LinkMetadata.AliasesAreCanonical | packages/platform-server/src/agents/call-agent-linking.service.ts:68-77 | a tool name is searched for exactly under the tool it stands for |
| LinkMetadata.ParseMetadata | packages/platform-server/src/agents/call-agent-linking.service.ts:295-332 | the field-by-field parser computes the stated precedence of nested and flat fields |
| LinkMetadata.ParseUndoesSerialize | packages/platform-server/src/agents/call-agent-linking.service.ts:267-283 | parsing undoes printing exactly for mirrored links with non-empty thread ids |
| LinkMetadata.SerializedMeaning | packages/platform-server/src/agents/call-agent-linking.service.ts:267-332 | what is read back of any link, with absent or disagreeing flat fields |
| LinkMetadata.RewriteKeepsMeaning | packages/platform-server/src/agents/call-agent-linking.service.ts:295-332 | writing back what was parsed from any stored value keeps its meaning |
| LinkMetadata.RecordedRunId | packages/platform-server/src/agents/call-agent-linking.service.ts:169-223 | a row found by its flat run id ends up under that id exactly when the nested id is empty or equal |
| LinkMetadata.RunStaysLinked | packages/platform-server/src/agents/call-agent-linking.service.ts:169-223 | over any sequence of messages and completions, on any row, a set run id never changes and the link flag is never cleared |
| LinkMetadata.RowReportsLastRun | packages/platform-server/src/agents/call-agent-linking.service.ts:136-223 | after any run of updates from registration the row reports the run started last, its last completion status and last message, with nested and flat fields in agreement |
| LinkMetadata.CallAgentLinking.RegisterParentToolExecution | packages/platform-server/src/agents/call-agent-linking.service.ts:98-134 | the latest matching tool execution gets the initial metadata, or nothing is written |
| LinkMetadata.CallAgentLinking.OnChildRunStarted | packages/platform-server/src/agents/call-agent-linking.service.ts:136-167 | only the latest row of the child thread is rewritten, unless it does not parse or the write fails; every row keeps following its history |
| LinkMetadata.CallAgentLinking.OnChildRunMessage | packages/platform-server/src/agents/call-agent-linking.service.ts:169-195 | the same for the latest row of the run, with the message taken over |
| LinkMetadata.CallAgentLinking.OnChildRunCompleted | packages/platform-server/src/agents/call-agent-linking.service.ts:197-223 | the same for the latest row of the run, with the status taken over |
| LinkMetadata.CallAgentLinking.RegisteredRowsAgree | packages/platform-server/src/agents/call-agent-linking.service.ts:98-223 | in every state the service reaches, nested and flat fields of every registered row agree |

## Left out

- Disk: fsync order, temporary files inside a directory, `.git` preservation, deletions that fail silently, case-insensitive names, YAML text, lock timeouts and retries.
- Recovery while another process is live: it takes no lock, so nothing is claimed for it.
- The lock in the class `FsGraphRepository`: one upsert runs at a time there; the protocol machine has it.
- UriComponent.DecodeEncode: strings with lone surrogates, for which encoding throws, cannot be written as Dafny strings.
- LiveGraph.LiveGraphRuntime.Shutdown: deprovisions complete in some order one after the other; overlapping with an apply is not modelled.
- Aliasing of graph definitions and live configs: they are values, so a caller that changes a definition object after applying it is not modelled. `computeDiff` compares configs by their JSON text, here by equality.
- Live runtime: port resolution, unknown-key stripping, reference resolution of configs and node classes are arbitrary outcomes; loading the persisted graph at start, node state snapshots and status forwarding are left out.
- References: an infinite `maxDepth`; `cloneReference` (a reference is kept by address, so its failure on cyclic extra fields is not modelled); a default or mount that is not a string counts as absent; `__proto__` keys; coercion of provider results that are not strings.
- Providers whose answers change over time.
- Migration: inputs holding `undefined`, the command line around it and the files it rewrites.
- Limits that are not integers, for both lists.
- Run events: creating, appending and completing events, and event serialization.
- ThreadCascade.Coordinator.CloseThreadWithCascade: the cleanup pipeline of a thread is one action, its inner errors being logged and swallowed; changes of the thread table by others during a cascade are not modelled.
- LinkMetadata.CallAgentLinking.RegisterParentToolExecution: a failed save inside the transaction counts as swallowed or as a failed transaction; other writers of event metadata and `resolveLinkedAgentNodes` are left out.
- Nest, Prisma, sockets, gRPC, containers and the user interface.
