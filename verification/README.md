# typokat verification

A Dafny model of the parts of typokat on whose exactness everything else leans: the assignability
engine and its caches, the strongly connected component search and the replay index built on it, and
the machinery around the checker that decides what counts as a regression, a divergence or a valid
input.

| area | modules |
|---|---|
| assignability | RelationRules, RelationCache, RelationEngine, RelationQuery, QueryJournal, AssignabilityRules, AssignabilityLaws, ShapeLaws |
| component search and replay index | Graphs, FinishOrder, Components, ComponentOrder, ReplayIndex, ReplayAdmission, ReplayOrder, ReplayAdmit, ReplayScheduler |
| library profile | LibraryClosure, DigestFraming |
| benchmark transcripts | Transcript |
| official suite | Scoreboard, ScoreboardText, ScoreboardSave, Frames, BatchSupervisor |
| differential harness | ProgramTree, ProgramReductions, ProgramSteps, Shrinker, Differential, AllowlistOrder |
| driver and frontend | ReportAssembly, CollisionPreflight, ConfigAudit, LineIndex, SummaryIdentities |
| shared | Wrappers, Bytes, Counting, Delimited, Text |

**Assignability.** A relation key asks whether one type relates to another. The structural rules turn a
key into a tree of conjunctions and disjunctions over further keys, and recursive types make these
cyclic. `Related` is defined without any algorithm as the greatest relation consistent with the rules.
The engine, with its assume-true cycle stack, provisional successes, two verdict caches, demands and
exhaustion, is proved to decide exactly that relation, from any sound cache and under any nesting of
speculation, over whole sessions. The undo journal that implements speculation without copies is proved
against the copies it avoids. For each pair of shapes assignability is characterized by that of the parts.

**Component search and replay index.** The two-pass component search returns the one canonical listing of
the strongly connected components: dependencies first, least ready component next. Admission of a
generated index re-checks a listing by other means (two searches per component, then a replay against a
heap) and is proved to admit exactly that canonical listing. On an admitted index the sparse scheduler
emits exactly the owners that depend on a seed, agrees with the full-scan oracle, and touches only
affected components and edges.

**Around the checker.** Each remaining module proves an if-and-only-if or a round trip of one tool:
closure resolution with its error reports, the reason-chain automaton, the regression ratchet and its
file format, the bounded frame reader and the supervisor that feeds it, the shrinker, the allowlist
comparator, report assembly, the collision preflight, the configuration audit, the digest framing and
the line index.

## Where the code and its description part

- Dropping a speculative transaction is described as leaving no trace. It leaves one when a nested
  transaction reset the semantic context and was committed into it: the relation cache then comes back
  one layer too high. `QueryJournal.QueryState.Rollback` states exactly when the cache is restored, and
  `QueryJournal.CommittedResetLeaks` is a session that shows it.
- A union source is described as assignable exactly when every member is. The rule fails both ways. A
  deferred member also passes when the target lists it verbatim, although it is not assignable by itself
  (`AssignabilityLaws.DeferredMemberPassesOnlyInUnion`). A deferred target is consulted before the members
  are, and refuses a union of parameters that reach it one by one
  (`AssignabilityLaws.BoundedMembersPassOnlyApart`). `AssignabilityLaws.UnionSourceLaw` is the law the code
  follows on every target, and `AssignabilityLaws.WhenEachMemberDecides` says exactly when it is the
  described one.
- `unknown` is described as the top type; deferred mapped, `keyof` and unevaluated instantiation sources
  are refused before it is consulted. `AssignabilityLaws.UnknownIsNotTop` is a mapped one, and
  `AssignabilityLaws.UnknownTop` the exact condition.
- `finish_planned` tests for exhaustion, but a pass has already taken its exhaustion report; what keeps
  the cache sound is the caller's commit flag (`RelationEngine.Relater.FinishPlanned`). In
  `RelationEngine.SpentReportLeaks` a pass runs out of budget below a key that holds, and a commit would
  record that key as unrelated.
- The surface-id check of the scoreboard is described as keeping the file's columns intact, yet its end
  anchor lets one final line feed through (`ScoreboardSave.CheckAdmitsFinalNewline`). The transcript parser
  splits at line feeds, so only a direct caller of `write_scoreboard` can supply such an id. The file is read
  with universal newlines, so a carriage return in a path breaks it too (`ScoreboardSave.CarriageReturnIsLost`). `ScoreboardSave.SaveIsExact`
  is the exact condition.
- The supervisor is described as raising the first failure. A worker that cannot be ended, or a
  replacement that does not start, is raised instead (`BatchSupervisor.StuckWorkerHidesFirst`,
  `BatchSupervisor.StartFailureHidesFirst`); `BatchSupervisor.RunBatch` states the exact condition.
- Appending an allowlist rule never enlarges a residue, but inserting one earlier can
  (`AllowlistOrder.InsertingCanEnlarge`). It is safe for a one-sided rule and for a pair each of whose
  rivals is covered: a rival is a later pair, not idle anyway, that shares exactly one code with it, and it
  is covered when a one-sided rule names its other code. That is also necessary
  (`AllowlistOrder.WhenInsertingIsSafe`), unless a covered rival passes its loss on to further pairs; then
  the codes left in excess along the whole chain have to be covered (`AllowlistOrder.CoveredInsertion`).
- `shrink_text` describes every step as guarded by the oracle; the final newline is not
  (`Shrinker.FinalNewlineIsUnguarded`). The answer is sure to be guarded exactly when the lines are polished
  from a text that ends in a newline (`Shrinker.FinalNewlineIsGuarded`), which is when the source does
  (`Shrinker.WhenPolishIsGuarded`).
- Roots that are declaration files are refused by their spelling, so one with a separator behind its name is
  accepted (`ConfigAudit.AcceptedDeclaration`, exact condition in `ConfigAudit.WhenIdentityIsDeclaration`).

## Model

| member | source | states |
|---|---|---|
| RelationRules.HoldsMonotone | crates/typokat-relate/src/relate/relation/mod.rs:834-843 | no structural rule is antitone: a rule that holds keeps holding when more keys do |
| RelationRules.Discharge | crates/typokat-relate/src/relate/relation/mod.rs:848-855 | a rule that holds with the help of an assumption about its own key holds without it; remaining assumptions stay |
| RelationRules.RelatedIsFixpoint | crates/typokat-relate/src/relate/relation/mod.rs:651-667 | the greatest relation consistent with the rules is a fixpoint of them, both directions |
| RelationRules.RelatedIsGreatest | crates/typokat-relate/src/relate/relation/mod.rs:651-667 | and it contains every relation consistent with the rules |
| RelationRules.PlansAgree | crates/typokat-relate/src/relate/relation/mod.rs:605-628 | two plans that expose different amounts of the same rules relate the same keys |
| RelationCache.Lookup | crates/typokat-relate/src/relate/cache.rs:185-208 | the layer walk finds what the flattened view of all layers holds, and visits no more layers than there are |
| RelationCache.WritesAreVisible | crates/typokat-relate/src/relate/cache.rs:211-227 | an insertion or promotion changes the view at the written keys and nowhere else |
| RelationCache.LayersAreInvisible | crates/typokat-relate/src/relate/cache.rs:230-255 | opening a layer and committing it leave the visible verdicts alone; each changes the depth by exactly one |
| RelationCache.Len | crates/typokat-relate/src/relate/cache.rs:259-270 | the count kept without materializing the view is the size of the view |
| RelationEngine.Relater.Planned | crates/typokat-relate/src/relate/relation/mod.rs:560-585 | a planned relater starts with an empty stack and no query-local verdicts over the given cache |
| RelationEngine.Relater.Interrupt | crates/typokat-relate/src/relate/relation/mod.rs:894-899 | the first demand is kept, and the surfaces missing before it, each once and in order |
| RelationEngine.Relater.Relate | crates/typokat-relate/src/relate/relation/mod.rs:668-892 | under any enclosing frames: a success is justified by the reported assumptions, a failure of an undisturbed query is genuine, and every stored verdict is ground truth; identity, a key in flight and a cached verdict are answered without the rules |
| RelationEngine.Relater.Frame | crates/typokat-relate/src/relate/relation/mod.rs:820-892 | one uncached frame: the cycle stack is restored, its own key is discharged, a provisional success is not stored and a recomputed failure is clamped to its cached verdict |
| RelationEngine.Relater.Evaluate | crates/typokat-relate/src/relate/relation/mod.rs:1237-1582 | the evaluation of a rule tree: yes implies it holds under the reported assumptions, an undisturbed no implies it does not hold |
| RelationEngine.Relater.EvaluateAll | crates/typokat-relate/src/relate/relation/mod.rs:1237-1582 | a conjunction gathers the assumptions of all its parts |
| RelationEngine.Relater.EvaluateAny | crates/typokat-relate/src/relate/relation/set_types.rs:60-97 | an alternative reports the assumptions of the accepted member only |
| RelationEngine.Relater.EvaluateProbe | crates/typokat-relate/src/relate/relation/objects.rs:777-805 | a probe keeps the assumptions of rejected parts, which is sound |
| RelationEngine.Relater.IsAssignableAttempt | crates/typokat-relate/src/relate/relation/mod.rs:605-628 | a decided pass answers exactly the greatest relation, with no assumption left; a pass over fully exposed rules always decides; an undecided one asks for its first demand, or for the surfaces missing before any demand |
| RelationEngine.Relater.FinishPlanned | crates/typokat-relate/src/relate/relation/mod.rs:632-637 | a commit is sound whenever no pass ran out of budget, and otherwise exactly when the query-local verdicts are; without a commit the durable cache is untouched |
| RelationEngine.SpentReportLeaks | crates/typokat-relate/src/relate/relation/mod.rs:605-637 | a concrete pass that reports exhaustion, leaves a failure for a key that holds, and whose commit writes it to the durable cache |
| RelationQuery.Pass | crates/typokat-check/src/check/query/mod.rs:1905-1926 | one planning pass keeps the cache sound for the full rules and commits only decided, untainted passes |
| RelationQuery.Coordinator.IsAssignable | crates/typokat-check/src/check/query/mod.rs:1869-1956 | remembered answers are given again; otherwise the plans are tried in order until one decides, the reply is that decision, and it is undecided only when every plan was interrupted; decisions without taint, and no others, are remembered and cached |
| RelationQuery.ExposedPlanDecides | crates/typokat-check/src/check/query/mod.rs:1903-1935 | a plan that exposes everything is enough for an answer, and for the right one when it is the plan that decides |
| RelationQuery.Coordinator.Drop | crates/typokat-check/src/check/query/mod.rs:703-716 | dropping a transaction restores what was remembered when it began |
| RelationQuery.Coordinator.Remember | crates/typokat-check/src/check/query/mod.rs:2195-2217 | a success is remembered at once, a failure only when it recurs, and nothing is overwritten |
| RelationQuery.RunSession | crates/typokat-check/src/check/query/mod.rs:681-717 | over every sequence of queries with any nesting of kept and dropped speculation, every decided reply is the one the rules alone determine, and every query is answered from memory or by its plans |
| RelationQuery.SessionDecides | crates/typokat-check/src/check/query/mod.rs:1869-1956 | in a session a query with a fully exposed plan is always answered, and exactly when that plan is its first and untainted |
| QueryJournal.UnwindSplit | crates/typokat-check/src/check/query/mod.rs:703-716 | replaying a journal newest first can be split at any mark, for the memos and for the cache |
| QueryJournal.QueryState.Open | crates/typokat-check/src/check/query/mod.rs:681-686 | opening copies nothing and makes the present memos and cache recoverable |
| QueryJournal.QueryState.Record | crates/typokat-check/src/check/query/mod.rs:770-774 | a journaled write keeps every open savepoint recoverable |
| QueryJournal.QueryState.RememberProjection | crates/typokat-check/src/check/query/mod.rs:780-803 | a memo write changes one entry and keeps every open savepoint recoverable |
| QueryJournal.QueryState.RememberEvaluation | crates/typokat-check/src/check/query/mod.rs:780-803 | the same for the evaluation memo |
| QueryJournal.QueryState.RememberRelation | crates/typokat-check/src/check/query/mod.rs:810-817 | the same for completed relations |
| QueryJournal.QueryState.InsertNoCandidate | crates/typokat-check/src/check/query/mod.rs:827-831 | the same for a first failure; a repeated insertion is not journaled |
| QueryJournal.QueryState.TakeNoCandidate | crates/typokat-check/src/check/query/mod.rs:819-825 | the same for a removal, which reports whether the key was there |
| QueryJournal.QueryState.MarkClean | crates/typokat-check/src/check/query/mod.rs:833-842 | the same for a publication found clean |
| QueryJournal.QueryState.PromoteVerdicts | crates/typokat-relate/src/relate/cache.rs:219-227 | verdicts promoted into the top layer need no journal entry to be recoverable |
| QueryJournal.QueryState.ResetContext | crates/typokat-check/src/check/query/mod.rs:847-871 | a context reset empties every memo and the cache and moves the old context into the journal |
| QueryJournal.QueryState.Commit | crates/typokat-check/src/check/query/mod.rs:690-701 | a commit keeps memos and verdicts and hands the journal to the enclosing transaction |
| QueryJournal.OldestResetWins | crates/typokat-check/src/check/query/mod.rs:703-716 | replaying a stretch of the journal ends with the cache of its oldest reset, and without a reset leaves the cache alone |
| QueryJournal.QueryState.Rollback | crates/typokat-check/src/check/query/mod.rs:703-716 | the memos are always those of the savepoint; the cache is exactly when the oldest reset journaled since the savepoint, if any, holds one layer for each open transaction |
| QueryJournal.QueryState.Replay | crates/typokat-check/src/check/query/mod.rs:710-768 | undoing the journal down to a mark is the backward fold of its entries |
| QueryJournal.CommittedResetLeaks | crates/typokat-check/src/check/query/mod.rs:690-716 | a concrete session in which a dropped transaction leaves a verdict behind that its savepoint did not hold: a nested transaction reset the context and committed |
| AssignabilityRules.PairProperties | crates/typokat-relate/src/relate/relation/objects.rs:443-491 | pairing properties with one monotone cursor is the lookup of the first property with each key |
| AssignabilityRules.PairUnionMembers | crates/typokat-relate/src/relate/relation/set_types.rs:22-44 | the monotone cursor over a sorted union target finds exactly the members the target lists |
| AssignabilityRules.StoreIsClosed | crates/typokat-relate/src/relate/relation/mod.rs:1237-1582 | every key the structural rules query stays within the finite store, so the engine terminates on every pair |
| AssignabilityRules.StoreIsExposed | crates/typokat-relate/src/relate/relation/mod.rs:1237-1582 | the structural rules hide nothing from the engine |
| AssignabilityLaws.Check | crates/typokat-relate/src/relate/relation/mod.rs:605-628 | on every pair of a well-formed store and from any sound cache the engine decides assignability |
| ShapeLaws.ObjectPair | crates/typokat-relate/src/relate/relation/objects.rs:403-663 | two objects are assignable exactly when every target property is met by the first source property of its key, every call signature by some call signature, and the index signatures by what they govern |
| ShapeLaws.MissingPropertyRefused | crates/typokat-relate/src/relate/relation/objects.rs:541-558 | an object without a required property is refused |
| ShapeLaws.IntrinsicTarget | crates/typokat-relate/src/relate/relation/mod.rs:1431-1448 | what reaches an intrinsic: everything, `undefined`, its literals, the heap, or nothing |
| ShapeLaws.ObjectTarget | crates/typokat-relate/src/relate/relation/mod.rs:1450-1508 | which sources that are no objects reach an object type |
| ShapeLaws.FunctionTarget | crates/typokat-relate/src/relate/relation/mod.rs:1548-1562 | a callable object reaches a function exactly through some signature |
| ShapeLaws.ArrayTarget | crates/typokat-relate/src/relate/relation/collections.rs:58-190 | arrays are assignable by element, and a tuple to an array when each element and the rest are |
| ShapeLaws.FixedTuple | crates/typokat-relate/src/relate/relation/collections.rs:92-147 | a tuple of fixed length is assignable exactly position by position to a tuple that admits its length |
| ShapeLaws.VariadicTuple | crates/typokat-relate/src/relate/relation/collections.rs:92-147 | a tuple with a rest is assignable exactly part by part to one with a rest in the same place |
| ShapeLaws.ReadonlyTarget | crates/typokat-relate/src/relate/relation/mod.rs:1524-1540 | a readonly target asks for its operand |
| ShapeLaws.NothingElse | crates/typokat-relate/src/relate/relation/mod.rs:1579-1582 | no other shape reaches a literal, a bare parameter, an instance or a tuple |
| ShapeLaws.Absorbing | crates/typokat-relate/src/relate/relation/mod.rs:1246-1269 | the error type, `never` and `any` end the question, with the one boundary of `any` and `never` |
| ShapeLaws.DeferredSource | crates/typokat-relate/src/relate/relation/mod.rs:1340-1389 | a deferred source passes by both closed branches or as a string marker, and not otherwise |
| ShapeLaws.CompoundTarget | crates/typokat-relate/src/relate/relation/mod.rs:1391-1416 | a union target takes what some member takes, an intersection target what all members take |
| ShapeLaws.IntersectionSource | crates/typokat-relate/src/relate/relation/set_types.rs:146-216 | an intersection source passes by some member, or as a merged object |
| ShapeLaws.ConstrainedSource | crates/typokat-relate/src/relate/relation/mod.rs:1271-1299 | a constrained parameter passes by its constraint or as the bare parameter would |
| AssignabilityLaws.UnionSourceLaw | crates/typokat-relate/src/relate/relation/set_types.rs:8-58 | for every target: a union source is assignable exactly when the target is an error or `any`, or is not deferred and each member is assignable or listed verbatim by a union target |
| AssignabilityLaws.ListedMemberAssigns | crates/typokat-relate/src/relate/relation/mod.rs:1340-1380 | a member the target lists is assignable on its own exactly when it is not stuck: a deferred tag judged first, a branch or a nested member that fails |
| AssignabilityLaws.DeferredTarget | crates/typokat-relate/src/relate/relation/mod.rs:1286-1353 | a deferred target accepts exactly what reaches it or an absorbing type along constraints and through both branches of closed conditionals |
| AssignabilityLaws.WhenEachMemberDecides | crates/typokat-relate/src/relate/relation/set_types.rs:4-44 | for every union source and every target, exactly when "assignable iff every member is" holds |
| AssignabilityLaws.UnionSourceIsEveryMember | crates/typokat-relate/src/relate/relation/set_types.rs:4-44 | with no deferred and no nested union member the rule holds exactly unless the target is deferred and bars none of the members |
| AssignabilityLaws.DeferredMemberPassesOnlyInUnion | crates/typokat-relate/src/relate/relation/mod.rs:1317-1380 | one way it fails: a deferred member passes inside a union and fails alone |
| AssignabilityLaws.BoundedMembersPassOnlyApart | crates/typokat-relate/src/relate/relation/mod.rs:1286-1353 | the other way: two parameters bounded by one `keyof` reach it one by one, and their union does not |
| AssignabilityLaws.UnknownTop | crates/typokat-relate/src/relate/relation/mod.rs:1237-1582 | `unknown` accepts a type exactly when unfolding unions, intersections and closed conditionals never meets a deferred type that is refused |
| AssignabilityLaws.UnknownIsNotTop | crates/typokat-relate/src/relate/relation/mod.rs:1370-1430 | a store in which a deferred mapped type is not assignable to `unknown` |
| FinishOrder.FinishPass | crates/typokat-check/src/check/checker/classes/construction.rs:1200-1224 | the iterative depth-first pass finishes every node once, and every edge out of a node leads to one finished before it or still open |
| FinishOrder.SearchFrom | crates/typokat-check/src/check/checker/classes/construction.rs:1206-1223 | one start: the stack invariant of the search is kept until the stack is empty |
| Components.Reverse | crates/typokat-check/src/check/checker/classes/construction.rs:1225-1231 | the reversed adjacency has exactly the reversed edges |
| Components.Flood | crates/typokat-check/src/check/checker/classes/construction.rs:1238-1252 | one flood of the reversed graph in finish order yields exactly the nodes mutually reachable with its root |
| Components.CanonicalUnique | crates/typokat-check/src/check/checker/classes/construction.rs:1257-1298 | a graph has exactly one dependency-first, least-ready-first listing of its classes |
| ComponentOrder.Classify | crates/typokat-check/src/check/checker/classes/construction.rs:1232-1255 | the second pass yields the classes of mutual reachability, each sorted, covering the graph |
| ComponentOrder.AllNeeds | crates/typokat-check/src/check/checker/classes/construction.rs:1259-1277 | the condensation: what each component still waits for |
| ComponentOrder.Emit | crates/typokat-check/src/check/checker/classes/construction.rs:1278-1297 | emission always finds a ready component and takes the one with the least first member |
| ComponentOrder.DependencyFirstSccs | crates/typokat-check/src/check/checker/classes/construction.rs:1197-1299 | the whole search returns the canonical listing of the strongly connected components |
| ReplayIndex.CheckRows | crates/typokat-check/src/check/checker/replay_index.rs:3141-3159 | edge rows pass exactly when they are strictly sorted, irreflexive and between known owners |
| ReplayIndex.AssignOwners | crates/typokat-check/src/check/checker/replay_index.rs:3223-3253 | the component table is accepted exactly when the listed components are non-empty, sorted, disjoint and cover the owners |
| ReplayAdmission.SplitRows | crates/typokat-check/src/check/checker/replay_index.rs:3254-3277 | rows split into edges inside a component and edges between components exactly when no dependency is listed later than its consumer |
| ReplayAdmission.SortDedup | crates/typokat-check/src/check/checker/replay_index.rs:3279-3280 | sorting and deduplicating keeps exactly the component edges, once each |
| ReplayAdmission.Compact | crates/typokat-check/src/check/checker/replay_index.rs:3282-3314 | each slice of the flat array lists the consumers of one component, and each count is the number of components waited for |
| ReplayOrder.CheckCohesion | crates/typokat-check/src/check/checker/replay_index.rs:3315-3344 | two searches per component from its first member |
| ReplayOrder.CohesiveAreClasses | crates/typokat-check/src/check/checker/replay_index.rs:3315-3344 | if both searches find exactly the component, it is a class of mutual reachability |
| ReplayOrder.ClassesAreCohesive | crates/typokat-check/src/check/checker/replay_index.rs:3315-3344 | and on every class both searches do |
| ReplayOrder.Release | crates/typokat-check/src/check/checker/replay_index.rs:3357-3375 | after a component is replayed its consumers wait for one component less, and exactly those that wait for none are ready |
| ReplayOrder.Replay | crates/typokat-check/src/check/checker/replay_index.rs:3345-3379 | the heap replay agrees with the listing exactly when each component was the least ready one at its turn |
| ReplayOrder.LeastAgrees | crates/typokat-check/src/check/checker/replay_index.rs:3345-3379 | the order the heap enforces is the canonical order |
| ReplayAdmit.Admit | crates/typokat-check/src/check/checker/replay_index.rs:3141-3379 | an index is admitted exactly when its rows are in order, its components are the canonical listing of the dependency graph and its counters fit 32 bits; the compact index then says what the rows say |
| ReplayAdmit.GenerateAndAdmit | crates/typokat-check/src/check/checker/replay_index.rs:3141-3379 | the listing the generator computes is admitted and no other listing is |
| ReplayScheduler.ProbeSeeds | crates/typokat-check/src/check/checker/replay_index.rs:1825-1837 | the first unknown seed is reported; otherwise the distinct components of the seeds |
| ReplayScheduler.Walk | crates/typokat-check/src/check/checker/replay_index.rs:1839-1854 | the breadth-first walk pops exactly the fed components, once each, and counts every edge it probes |
| ReplayScheduler.ScheduleSparse | crates/typokat-check/src/check/checker/replay_index.rs:1821-1868 | the emitted owners are the least set that contains the seeds and is closed under component membership and consumers, in replay order; pops and probes equal the affected components and edges |
| ReplayScheduler.FullScanOracle | crates/typokat-library/src/collision_epoch_scheduler_spec.rs:176-197 | the scanning loop terminates with that least set |
| ReplayScheduler.FedIsLeast | crates/typokat-library/src/collision_epoch_scheduler_spec.rs:176-197 | for any partition the least set is the union of the components reachable over component edges |
| ReplayScheduler.LeastIsDependents | crates/typokat-library/src/collision_epoch_scheduler_spec.rs:176-197 | on a canonical listing the least set is every owner that depends on a seed |
| ReplayScheduler.SchedulerMatchesOracle | crates/typokat-check/src/check/checker/replay_index.rs:1821-1868 | on every admitted index the sparse scheduler emits what the oracle finds: exactly the owners that depend on the seed |
| LibraryClosure.Resolver.Visit | tooling/library-profile/profile.py:245-275 | one visit: the path is restored, resolved files stay, a success resolves the file and a rejection names a real fault of a reachable file |
| LibraryClosure.Resolver.Enter | tooling/library-profile/profile.py:253-273 | a file resolves exactly when it loads, parses and each of its references follows in order |
| LibraryClosure.ResolveClosure | tooling/library-profile/profile.py:234-278 | resolution succeeds exactly when everything reachable is good and acyclic; it records exactly the reachable files, each once and after its targets |
| LibraryClosure.ExplainedIsUnresolvable | tooling/library-profile/profile.py:245-273 | every reported error shows the library is not resolvable |
| LibraryClosure.ValidateRecordGraph | tooling/library-profile/profile.py:494-514 | the worklist check accepts exactly recorded graphs with known targets whose reachable set is the name set |
| Graphs.Worklist | tooling/library-profile/profile.py:505-512 | a worklist that may carry duplicates visits exactly the reachable nodes |
| LibraryClosure.PackageWalk.Visit | tooling/library-package/verify.py:749-758 | the second walk: what it finishes is closed, reachable and acyclic; it fails only on a reachable cycle |
| LibraryClosure.VerifyPackageGraph | tooling/library-package/verify.py:715-762 | the package verifier accepts exactly the graphs with known targets that are acyclic from the root and whose closure is the whole name set |
| LibraryClosure.ResolveAndCheck | tooling/library-profile/profile.py:234-278 | whatever the resolver records, both checks accept |
| Transcript.ParsesIsGrammatical | tooling/full-lib-bench/full_lib_bench.py:767-850 | parsing line by line decides the block grammar, both directions |
| Transcript.Continue | tooling/full-lib-bench/full_lib_bench.py:804-845 | one continuation line is accepted exactly when the open chain stays completable, and the automaton state tracks the chain |
| Transcript.PartialIsViable | tooling/full-lib-bench/full_lib_bench.py:804-845 | a chain that still requires a line can always be completed |
| Transcript.NormalizeTypokat | tooling/full-lib-bench/full_lib_bench.py:751-850 | a transcript is accepted exactly when it consists of well-formed blocks; the result is the sorted multiset of block heads; a rejection points at the first line after which no continuation would do; an unexpected path is blamed only on a head |
| Transcript.NormalizeTsgo | tooling/full-lib-bench/full_lib_bench.py:751-792 | a reference transcript is accepted exactly when every line is a known diagnostic or a continuation |
| Transcript.EqualTextsAgree | tooling/full-lib-bench/full_lib_bench.py:788-791 | diagnostics have equal texts exactly when file, row, column and code agree |
| Transcript.IncompleteText | tooling/full-lib-bench/full_lib_bench.py:806-811 | the text of an incomplete record holds the whole line and is not that of a diagnostic |
| Scoreboard.DiffDiagnostics | tooling/official-suite/tsofficial.py:609-638 | matched, missed and extra diagnostics are the intersection and the two differences of the multisets, in any order of lines |
| Scoreboard.DiffConserves | tooling/official-suite/tsofficial.py:609-638 | matched and missed make up the expectation, matched and extra the output |
| Scoreboard.DiagDelta | tooling/official-suite/tsofficial.py:1669-1703 | a diffed pair regresses exactly when a matched identity loses multiplicity or a false positive gains some; rows without identities are held to their counts |
| Scoreboard.IncompleteDelta | tooling/official-suite/tsofficial.py:1706-1716 | an unsupported pair regresses exactly when a surface identity loses multiplicity |
| Scoreboard.CompareRow | tooling/official-suite/tsofficial.py:1820-1857 | the branch structure is the ratchet relation of one test |
| Scoreboard.CompareScoreboard | tooling/official-suite/tsofficial.py:1784-1873 | the comparison passes exactly when both sides know the same tests and every test is kept; the missing counts are exact |
| Scoreboard.PassesReflexive | tooling/official-suite/tsofficial.py:1784-1873 | a run passes against its own saved board |
| Scoreboard.PassesTransitive | tooling/official-suite/tsofficial.py:1784-1873 | passing against a passing run's saved board is passing against the original board, with or without recorded identities |
| Scoreboard.ChainKeeps | tooling/official-suite/tsofficial.py:1784-1873 | along any chain of accepted baselines an in-scope test stays in scope, a diffed one stays diffed, no matched identity loses multiplicity and no false positive gains any |
| Scoreboard.SwapIsCaught | tooling/official-suite/tsofficial.py:1784-1794 | the same number of other matches is a regression |
| Scoreboard.CountsDecide | tooling/official-suite/tsofficial.py:1784-1794 | a row without identities passes exactly on its counts |
| Scoreboard.CountsAreWeaker | tooling/official-suite/tsofficial.py:1784-1794 | what keeps the identities of a row keeps its counts |
| Scoreboard.SwapEscapesCounts | tooling/official-suite/tsofficial.py:1784-1794 | a swap of diagnostics is caught by identities and escapes counts |
| ScoreboardText.RowSurvives | tooling/official-suite/tsofficial.py:1740-1781 | a clean row is one line that reads back as its saved row, including empty identity lists |
| ScoreboardText.FieldSurvives | tooling/official-suite/tsofficial.py:1639-1666 | the identity column is recovered as multisets for each kind of row |
| ScoreboardText.ReadScoreboard | tooling/official-suite/tsofficial.py:1757-1781 | the reading loop computes the fold of its lines, later rows overriding earlier ones |
| ScoreboardText.OldFormatReads | tooling/official-suite/tsofficial.py:1745-1756 | a line without the identity column reads as a row whose identities were not recorded |
| ScoreboardText.KebabSpelled | tooling/official-suite/tsofficial.py:1613-1627 | surface ids are what joining two or more kebab-case segments gives |
| ScoreboardText.BoardSurvives | tooling/official-suite/tsofficial.py:1740-1781 | reading back a written board of clean rows recovers every row |
| ScoreboardSave.WriteScoreboard | tooling/official-suite/tsofficial.py:1719-1754 | rows are written by path, stably, with sorted identities; writing is refused exactly when a surface id fails the shape check |
| ScoreboardSave.KeysAreClean | tooling/official-suite/tsofficial.py:1757-1781 | no path that is ever read holds a tab, line feed or carriage return |
| ScoreboardSave.UncleanIsLost | tooling/official-suite/tsofficial.py:1740-1781 | a row whose surface id ends in a line feed never comes back with its identities |
| ScoreboardSave.SaveIsExact | tooling/official-suite/tsofficial.py:1719-1781 | with distinct paths and checked ids a saved board reads back as the run exactly when no path holds a delimiter and every surface id is strictly kebab-case |
| ScoreboardSave.CheckAdmitsFinalNewline | tooling/official-suite/tsofficial.py:1619-1627 | the shape check accepts an id that ends in a line feed |
| ScoreboardSave.CarriageReturnIsLost | tooling/official-suite/tsofficial.py:1740-1781 | a board whose one path holds a carriage return does not read back |
| ScoreboardSave.SaveAndRead | tooling/official-suite/tsofficial.py:1719-1781 | saving and reading back clean results in any order gives the saved run |
| Frames.ReadFrame | src/main.rs:207-236 | one frame depends on the remaining bytes alone: data up to the newline, end of input, an unterminated frame or an exceeded bound |
| Frames.ReadSession | src/main.rs:207-236 | repeated reads yield exactly the frames of the byte stream and its end |
| Frames.DeliveryDoesNotMatter | src/main.rs:207-236 | two deliveries of the same bytes in different chunks give the same frames and the same end |
| Frames.SentIsReceived | tooling/official-suite/tsofficial.py:448-460 | payloads within the sender's cap arrive exactly, and then the stream ends cleanly |
| Frames.ReceivedWasSent | tooling/official-suite/tsofficial.py:448-460 | conversely a stream that ends cleanly is one a sender produced |
| BatchSupervisor.Validate | tooling/official-suite/tsofficial.py:434-461 | cases pass exactly when names are non-empty and distinct and frames fit |
| BatchSupervisor.Serve | tooling/official-suite/tsofficial.py:554-564 | a worker serves cases in order until its first failure; each is asked once |
| BatchSupervisor.RunBatch | tooling/official-suite/tsofficial.py:536-583 | at most one worker at a time and two in all, the second exactly when the first died of a case with others left to check; a worker is left alive exactly when it could not be ended; results are exactly the answers of a wholly successful session; after a failed case what is raised is determined, and is the first failure exactly when its worker died and a wanted replacement started and, if it failed too, died; no case is skipped or repeated |
| BatchSupervisor.StartFailureHidesFirst | tooling/official-suite/tsofficial.py:565-573 | a run in which a case fails, its replacement does not start, and that is what is raised |
| BatchSupervisor.StuckWorkerHidesFirst | tooling/official-suite/tsofficial.py:565-583 | a run in which a case fails, its worker cannot be ended, and that is what is raised while the worker stays alive |
| ProgramTree.Strengthen | tooling/differential/grammar.py:570-572 | a callback parameter nothing mentions can be dropped |
| ProgramReductions.SimplifyKeeps | tooling/differential/grammar.py:596-633 | every simplification of a node is lighter, renderable and closed wherever the node was |
| ProgramReductions.FlattenKeeps | tooling/differential/grammar.py:636-647 | splicing a callback body whose parameter is unused keeps the block closed and makes it lighter |
| ProgramReductions.ReducedIsOneStep | tooling/differential/grammar.py:525-567 | a candidate differs from the tree in one slot, by one of that slot's simplifications |
| ProgramReductions.BodyStepsAreTried | tooling/differential/grammar.py:669-685 | conversely every such step of the body is tried |
| ProgramSteps.SimplifyTrims | tooling/differential/grammar.py:596-647 | the simplifications of a node are exactly its trims, kind by kind: a statement, item, key or binding less, a narrower leaf, an unwrapped or spliced callback |
| ProgramSteps.ReductionsShrink | tooling/differential/grammar.py:669-685 | the candidates are exactly the programs with one thing less at one place, the class or a signature less, pruned of what the body no longer mentions |
| ProgramSteps.MentionedSomewhere | tooling/differential/grammar.py:570-572 | a name is mentioned exactly when some place of the tree has it |
| ProgramReductions.ReductionChanges | tooling/differential/grammar.py:669-685 | a candidate is the program with one slot or the class wrapper changed and unused declarations pruned |
| ProgramReductions.PruneKeeps | tooling/differential/grammar.py:650-657 | pruning keeps every called function declared |
| ProgramReductions.ReductionsAreSound | tooling/differential/grammar.py:669-685 | every candidate of a well-formed program is well-formed and strictly lighter |
| Shrinker.FirstAccepted | tooling/differential/shrink.py:49-58 | one pass finds the first smaller candidate the oracle accepts, within the budget |
| Shrinker.ShrinkProgram | tooling/differential/shrink.py:41-59 | for every program: at most the budgeted calls; the result is the pruned input or an accepted, strictly smaller program; under budget no smaller program with one thing less is accepted; a well-formed program stays so and loses weight |
| Shrinker.ShrinkText | tooling/differential/shrink.py:65-93 | the polish terminates; up to the final newline the result is the source or accepted, and no single line that is not blank can be removed; it is the source or accepted outright when the lines are polished from a text that ends in a newline and the empty text is refused |
| Shrinker.RemovalKeepsNewline | tooling/differential/shrink.py:83-91 | removing a line that is not blank keeps a final newline or leaves nothing |
| Shrinker.OtherLinesStay | tooling/differential/shrink.py:84-88 | the lines of what is left are the others |
| Shrinker.FinalNewlineIsGuarded | tooling/differential/shrink.py:81-93 | over every oracle that refuses the empty text, the polish of lines answers with its input or an accepted text if and only if that input ends in a newline |
| Shrinker.WhenPolishIsGuarded | tooling/differential/shrink.py:65-93 | over every oracle that refuses the empty text, the whole polish answers with the source or an accepted text if and only if the source ends in a newline |
| Shrinker.FinalNewlineIsUnguarded | tooling/differential/shrink.py:93-93 | an oracle that accepts only the source, and the refused text that is returned |
| Differential.ResidueConserves | tooling/differential/differential.py:316-337 | for every code and side the surplus is what the rules cancelled plus the residue |
| Differential.SurplusMeans | tooling/differential/differential.py:315-322 | the surplus of a side is how much more often it shows a code on a line |
| Differential.UnnamedSurvives | tooling/differential/differential.py:316-337 | a code no rule names on its side survives in full |
| Differential.AppendingNeverEnlarges | tooling/differential/differential.py:316-337 | appending a rule never enlarges the residue of a line |
| AllowlistOrder.SafeInsertion | tooling/differential/differential.py:316-337 | inserting a one-sided rule, or a pair without a rival among the later pairs, never enlarges a residue |
| AllowlistOrder.UnsafeInsertion | tooling/differential/differential.py:316-337 | a pair inserted before a rival enlarges some residue, unless a one-sided rule names the code the rival loses |
| AllowlistOrder.CoveredInsertion | tooling/differential/differential.py:316-337 | inserting a pair is safe when every code that can be left in excess along a chain of later pairs is named by a one-sided rule |
| AllowlistOrder.WhenInsertingIsSafe | tooling/differential/differential.py:316-337 | where covered rivals do not pass their loss on, inserting is safe for every line exactly for a one-sided rule or a pair each of whose rivals is covered |
| AllowlistOrder.InsertingCanEnlarge | tooling/differential/differential.py:316-337 | a concrete insertion that turns an empty residue into one on both sides |
| Differential.CancelLine | tooling/differential/differential.py:321-337 | decrementing the two counters rule by rule gives the residue and counts how often each rule cancelled |
| Differential.NoHitNoChange | tooling/differential/differential.py:321-337 | no rule is hit exactly when nothing was cancelled |
| Differential.CompareTsc | tooling/differential/differential.py:299-344 | every line's residue is reported exactly when it is not empty, hits are counted by rule over all lines, and incomplete records are never cancelled |
| Differential.VerdictMeans | tooling/differential/differential.py:430-435 | a match is line-by-line agreement without incompletes; a divergence is a residue or an incomplete |
| Differential.CompareFrozen | tooling/differential/differential.py:1071-1076 | without incompletes, comparing frozen id lists gives the live comparison |
| ReportAssembly.Assemble | crates/typokat-driver/src/driver.rs:949-1018 | assembly succeeds exactly when the units permute the inputs and each result is in step; report i carries input i, its parse errors and its one result; nothing is lost or doubled; the last two errors never occur; otherwise the first fault decides which error is reported |
| ReportAssembly.Distribute | crates/typokat-driver/src/driver.rs:976-996 | every result lands in the slot of its input |
| CollisionPreflight.PreflightProject | crates/typokat-library/src/collision_preflight.rs:166-271 | route, reasons and merged candidates are exactly what the files' censuses call for |
| CollisionPreflight.MergeAll | crates/typokat-library/src/collision_preflight.rs:213-227 | candidates are merged by name: slots united, contribution or-ed |
| CollisionPreflight.OrderDoesNotMatter | crates/typokat-library/src/collision_preflight.rs:166-271 | route, capability, reasons and candidates do not depend on the order of the files |
| CollisionPreflight.SharedFileByFile | crates/typokat-library/src/collision_preflight.rs:166-271 | a project is shared exactly when each of its files alone would be |
| CollisionPreflight.PreflightFileInputs | crates/typokat-library/src/collision_preflight.rs:99-121 | the rejection for a missing capability never occurs |
| DigestFraming.RegistryInjective | tooling/library-profile/profile.py:315-323 | lists of named sources that feed the digest the same bytes are equal |
| DigestFraming.EntryLayout | tooling/library-profile/profile.py:317-322 | an entry is two big-endian lengths, the name and the source |
| DigestFraming.BigEndianValue | tooling/library-profile/profile.py:319-320 | the length bytes spell the length, most significant first |
| DigestFraming.FeedRegistry | tooling/library-profile/profile.py:315-323 | the loop feeds exactly the length-prefixed stream |
| DigestFraming.IdentitiesInjective | crates/typokat-library/src/compiler.rs:355-370 | under one domain, identity lists that feed the digest the same bytes are equal |
| ConfigAudit.AuditOptions | crates/typokat-frontend/src/project.rs:502-609 | nothing is noticed exactly for the four accepted options in any order; otherwise exactly the faulty, repeated and missing options are noticed, each as what it is |
| ConfigAudit.AuditFiles | crates/typokat-frontend/src/project.rs:433-500 | nothing is noticed exactly for a non-empty array of accepted roots; otherwise exactly the faults of its items are, and the schema is broken exactly when there is no array or an item is no string |
| ConfigAudit.AuditRootObject | crates/typokat-frontend/src/project.rs:372-431 | scalars are admitted exactly when the object is precisely the accepted files and compiler options, in any order; otherwise exactly the faults of its properties are noticed |
| ConfigAudit.GoodRootHasIdentity | crates/typokat-frontend/src/project.rs:654-664 | every root of an accepted configuration has a normalised identity |
| ConfigAudit.GoodRootSpelled | crates/typokat-frontend/src/project.rs:474-500 | a root is accepted exactly when it is relative, does not climb and names a file `stem.ts` that is not spelt as a declaration |
| ConfigAudit.IdentityNamesTheRoot | crates/typokat-frontend/src/project.rs:654-664 | the identity of a root is made of its naming segments, all and in order; none exactly for an absolute, climbing or nameless root |
| ConfigAudit.SameIdentity | crates/typokat-frontend/src/project.rs:654-664 | two roots share an identity exactly when they name the same |
| ConfigAudit.WhenIdentityIsDeclaration | crates/typokat-frontend/src/project.rs:493-494 | the identity of an accepted root is a declaration file exactly when its file name is, and then the root is spelt with a separator behind the name |
| ConfigAudit.AcceptedDeclaration | crates/typokat-frontend/src/project.rs:493-494 | one such root |
| ConfigAudit.NormalizeRoots | crates/typokat-frontend/src/project.rs:611-651 | each identity is returned once, in order; accepted roots are never dropped; missing and escaping roots are noticed in order; the walk fails exactly when a root cannot be resolved |
| ConfigAudit.RootsNoticed | crates/typokat-frontend/src/project.rs:626-644 | exactly the missing and the escaping roots are noticed |
| ConfigAudit.IdentityIsStable | crates/typokat-frontend/src/project.rs:654-664 | an identity is its own identity |
| LineIndex.Build | crates/typokat-core/src/span.rs:50-62 | the line starts are 0 and every offset after a newline, for every source shorter than 2^32 bytes |
| LineIndex.PartitionPoint | crates/typokat-core/src/span.rs:70-71 | the binary search counts the starts up to the offset |
| LineIndex.LineCol | crates/typokat-core/src/span.rs:66-77 | the line is one plus the newlines before the clamped offset, and line start plus column minus one recovers that offset |
| LineIndex.PositionsIncrease | crates/typokat-core/src/span.rs:66-77 | positions increase strictly with offsets up to the end of the source |
| LineIndex.PositionsAreUnique | crates/typokat-core/src/span.rs:66-77 | a position determines its offset |
| LineIndex.OffsetOrderIsPositionOrder | crates/typokat-core/src/span.rs:66-77 | offsets in order have positions in line and column order |
| SummaryIdentities.DiagnosticIdentities | src/main.rs:744-781 | the summary lists one identity for each diagnostic of each report, sorted by file, offset, code and text |
| SummaryIdentities.SummaryIsInPositionOrder | src/main.rs:744-781 | within each file that order is line and column order |
| SummaryIdentities.SummarizedAtStart | src/main.rs:752-761 | a diagnostic is placed at the start of its span unless it is a missing module with a location of its own |
| SummaryIdentities.SummarizedByFirst | src/main.rs:752-761 | a missing module is placed by its first location |
| SummaryIdentities.EqualTextsAgree | src/main.rs:763-774 | identities have equal texts exactly when file, position and code agree |

## Left out

- RelationEngine.Relater.Relate: binder contexts and contextual type parameters, as inside a comparison of generic signatures; a query runs with none of them.
- RelationEngine.Relater.Frame: the memo of contextual successes and the specialization epoch that guards it, which belong to those contexts.
- Relation engine: reason chains are not built; only whether a reason is wanted is modelled, because it decides whether a cached failure is recomputed.
- Relation engine: goals are named by the keys of already normalized types; the normalizer itself and the class projection planner appear as the successive plans a request offers.
- Relation engine: the entry point that forbids demands and the guard for in-flight source members of merged intersections.
- RelationEngine.Relater.IsAssignableAttempt: a relater serves one top-level pass after exhaustion, as the coordinator uses it; reuse of an exhausted relater is not modelled.
- AssignabilityRules.StoreIsClosed: function and construct signatures, template patterns, the merged object of an intersection source, the library surfaces of sources that are not objects and the library's top object are a parameter that must stay within the store.
- Assignability rules: an intersection source is asked member by member as stored; nested intersections are not flattened first, and the `this` operands the checker skips on either side are not told apart.
- AssignabilityRules.StoreIsExposed: the same rules are a parameter, assumed exposed.
- RelationQuery.Coordinator.IsAssignable: the shortcut for a mismatch in one covariant class argument, publication checks and completed identities are not modelled; the number of planning rounds is bounded by the plans a request offers.
- ReplayAdmit.Admit: owners are named by their rank and looked up in a map rather than by binary search; owner, root, site, statement, baseline, health-counter and manifest checks and the stored replay ordinals are not modelled.
- ReplayScheduler.ScheduleSparse: observation hooks other than the pop and edge counts.
- LibraryClosure.ResolveClosure: loading and parsing of one file and the file-name pattern are parameters; the canonical file order and source contents are not modelled.
- LibraryClosure.VerifyPackageGraph: totals, digests and the asset inventory.
- Transcript.NormalizeTypokat: lines arrive classified by the regular expressions; path resolution is a map.
- Scoreboard.CompareScoreboard: progress messages and report printing; a row with a status but no counts and no identities counts as a regression where the tool would raise a type error.
- ScoreboardText.ReadScoreboard: numbers are plain decimal digits; other spellings the integer parser admits are read as malformed.
- ScoreboardSave.WriteScoreboard: the statistics in the header lines are given; a refused write does not model the truncated file it leaves.
- Frames.ReadFrame: read errors of the underlying stream; request decoding.
- BatchSupervisor.RunBatch: processes, pipes and timeouts are arbitrary but deterministic outcomes of each step.
- ProgramTree.Strengthen: leaf texts are represented by the identifiers they mention; signature texts are opaque.
- ProgramReductions.ReductionsAreSound: slots are addressed by paths in immutable trees instead of setters into a deep copy.
- Shrinker.ShrinkProgram: rendering is not modelled; size and oracle are arbitrary functions of the program.
- Differential.CompareTsc: the wording of residue tokens (hits are counted by rule, of which the token is the spelling), the comparison of two typokat binaries and the oracle's memo.
- ReportAssembly.Assemble: diagnostics are opaque; project notices are always empty here.
- CollisionPreflight.PreflightProject: parsing and the syntax census are inputs; module classifications, import-edge counts and work counters are not modelled.
- DigestFraming.RegistryInjective: the digest itself is not modelled, only what it is fed.
- ConfigAudit.AuditRootObject: the line numbers inside one notice; letter case in another.
- ConfigAudit.NormalizeRoots: the file system is a function from identities to what is found there; joined paths are not modelled, and path components follow the Unix rules.
- SummaryIdentities.DiagnosticIdentities: the list of incomplete identities, which is built the same way.
- AllowlistOrder.WhenInsertingIsSafe: where a covered rival passes its loss on, or a copy of the inserted pair stands behind one, only the safe direction is stated, by AllowlistOrder.CoveredInsertion.
- Shrinker.WhenPolishIsGuarded: the removal of the origin comment and of the name prefix are functions of which only this is used: they keep the final newline of a text they do not empty.
- The binder, flow graph, type interner, evaluator and diagnostics rendering of the checker, and the benchmark statistics.
