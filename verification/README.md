# Vermyth: verified core

Vermyth composes *aspects* into sigils, casts them against intents, and runs
graphs of casts as *semantic programs*. This project models the parts of Vermyth
whose behaviour is decided by an algorithm rather than by plumbing, and proves
what they promise over every input and every run.

- **Semantic programs** (`Schema`, `Graph`, `TopologicalOrder`, `Conditions`,
  `Programs`, `ProgramLaws`, `Execution`, `OrderIndependence`, `ExecutionLaws`, `NodeLaws`,
  `Validation`, `Banishment`). Kahn's algorithm over a sorted queue; the run loop
  with its blocked set, results, receipts and rollback queue. The run is first
  stated as a fold over an order (`Execution.Run`), and then without any order: a
  family of local equations, one per node, that has exactly one solution on a DAG
  (`OrderIndependence`).
- **Causal subgraphs** (`Causal`, `CausalLaws`). The breadth-first search over the edge table
  against bounded-length walks and chains of edges.
- **Vectors, drift and casting** (`Vectors`, `SemanticVectors`, `Drift`,
  `Casting`, `CastingLaws`). Cauchy-Schwarz and Minkowski over zero-padded vectors of reals, and
  what they say about similarity, drift classification, lineage drift and the
  refinement loop.
- **Top-k search** (`Heap`, `SemanticSearch`). The bounded heap against filter,
  sort, take; `heapq`'s push and replace are modelled down to their sift loops.
- **Running statistics** (`Channel`, `Swarm`, `Seeds`, `SeedStore`). Counters that the code
  updates step by step against the histories they summarise.
- **Aspects** (`Aspects`, `Composition`). The registry, the memoised key and the
  composition table.
- **Policy** (`Policy`, `PolicyLaws`, `CriticalInputs`) and **frames** (`Framing`).

`Order` is Python's ordering of strings, `Reals` the arithmetic the proofs share, `Wrappers` the result types that stand
for returning or raising. Code that mutates its variables is a method with loop
invariants or a class with those fields, proved against a specification function;
the laws are lemmas about that function.

Numbers are exact reals. `math.sqrt` is a function parameter constrained only by
`Vectors.IsSqrt`: non-negative, and squaring back to its argument. A casting
engine is a function from node and attempt number to an answer or a raised error.
Ids and branch ids are parameters.

Where the code and its own documentation differ, or the code does what its callers may not
expect, the model follows the code:

- `auto_cast` is described as refining the vector iteratively
  (`vermyth/contracts/_legacy.py:168`). Blending toward the interpolated sigil never
  leaves the ray of the start vector, so no step can score differently from the first
  (`Casting.AutoCast`).
- Stricter wards are promised to shrink the ALLOW region (`docs/specs/ontology.md:82`), with the
  numeric bounds as examples. For those bounds the promise holds (`Policy.WardsTighten`).
  The fields it does not name can loosen: a drift bound set to DRIFTING over STABLE or
  DIVERGED (`Policy.WardsTightenExactly`), and scorer weights, which change the aggregate
  (`Policy.WeightsCanLoosen`) or switch the effect gate off (`Policy.DenialsStandExactly`).
  `CriticalInputs.CriticalInputsDecide` decides for any ward. A weight of 0 counts as 1
  (`vermyth/engine/policy/scorers/resonance.py:11`).
- Seeds are kept per pattern, but looked up by the order in which a set of names happens to list
  (`vermyth/grimoire/repositories/seeds.py:25` and `:117`). A cast that lists its pattern
  otherwise than the row was written misses the row: it starts a second one or, if it is
  incoherent, counts nowhere (`SeedStore.OneRowExactly`, `SeedStore.TwoRows`).
- A swarm cast with a consensus threshold outside [0, 1] fails only after it has rewritten
  every member's streak (`Swarm.SwarmStore.Cast`).
- The subgraph search asks for at most 1000 edges of a node before it applies its type
  and direction filters, so it can miss edges they would admit (`Causal.FilteredEdgeLost`).
  `Causal.CausalRepository.CausalSubgraph` is stated with the limit;
  `Causal.SearchIsComplete`, `Causal.DirectedSearchIsExact` and `Causal.LimitIsExact` say when
  the limit does not show.
- The memoised key outlives `AspectRegistry.reset` and later registrations. It stays
  right for a set exactly when at most one of its aspects was unregistered when it was
  computed (`Aspects.StableExactly`, `Aspects.ResetStalesKeys`).
- Blocking reaches one hop: a node behind a blocked node still runs
  (`NodeLaws.BlockedExactlyBySkipped`).
- Banishment also puts its rollback on gates, which the validation never warns about.

## Model

| member | source | states |
|---|---|---|
| `TopologicalOrder.TopologicalOrder` | vermyth/engine/operations/programs.py:29-46 | the sorted-queue loop raises exactly when the successor graph has a cycle; otherwise it returns a permutation of the nodes in which every edge, repeated ones included, points forwards, and which is lexicographically at most every other such order |
| `TopologicalOrder.ReleaseSuccessors` | vermyth/engine/operations/programs.py:39-43 | the inner loop keeps each counter equal to the number of listed predecessors not yet placed, and the ready list sorted and holding exactly the unplaced nodes with counter zero |
| `TopologicalOrder.StuckIsCyclic` | vermyth/engine/operations/programs.py:44-45 | when nothing is ready, the nodes that were not placed contain a cycle |
| `Graph.NoSourceIsCyclic` | vermyth/engine/operations/programs.py:44-45 | a non-empty finite set in which every node has a predecessor in the set contains a cycle |
| `Graph.AcyclicExactlyOrdered` | vermyth/engine/operations/programs.py:29-46 | a graph has an order that respects its edges exactly when it has no cycle |
| `Graph.GreedyIsLeast` | vermyth/engine/operations/programs.py:34-43 | always placing the least available node gives the lexicographically least topological order |
| `Order.LessExactly` | vermyth/engine/operations/programs.py:34-43 | one string sorts before another exactly when it ends, or has the lesser character, where the two first differ |
| `ProgramLaws.LeastExactly` | vermyth/engine/operations/programs.py:34-43 | the order a program runs in is an order of its nodes, each before its successors, that comes first of all such orders: where two first differ, the id chosen ends first or has the lesser character |
| `TopologicalOrder.PredecessorListsMirror` | vermyth/engine/operations/programs.py:54-59 | the predecessor lists name each node as often as it names the other as its successor, so the counters start right |
| `Programs.BuildPredecessors` | vermyth/engine/operations/programs.py:53-59 | succeeds exactly when every listed successor is a node of the program, with the predecessor table of the program |
| `Programs.CompileProgram` | vermyth/engine/operations/programs.py:49-72 | a program compiles exactly when validation finds no error, every successor is known and there is no cycle; only its status changes |
| `ProgramLaws.CompilesExactly` | vermyth/engine/operations/programs.py:49-72 | a program compiles exactly when no node has a timeout above an hour or more than 20 attempts, every successor is the id of a node, and some order puts every node before its successors |
| `Programs.ExecuteProgram` | vermyth/engine/operations/programs.py:75-87 | refused exactly when a program not yet COMPILED does not compile, warnings are denied and present, or a successor is unknown or a cycle present (a COMPILED program is not refused for validation errors); otherwise it is the run of the program along its least topological order, or raises as that run does |
| `ProgramLaws.RefusedExactly` | vermyth/engine/operations/programs.py:75-87 | the refusals told by the nodes' fields: errors, where the program is not COMPILED yet; any warning, where warnings are denied; a missing successor; no order |
| `Conditions.CheckConditions` | vermyth/engine/operations/programs.py:147-157 | the verdicts of a condition list in order, or the error of the first comparison that raises |
| `Conditions.ComparisonLaws` | vermyth/engine/operations/programs.py:99-124 | exactly one of lt, eq and gt holds between comparable values, lte and gte are their disjunctions, neq is the complement of eq; incomparable values raise and a missing value is in no order |
| `Conditions.NumbersCompare` | vermyth/engine/operations/programs.py:99-124 | what each operator says of two numbers, a bool counting as 0 or 1 |
| `Conditions.StringsCompare` | vermyth/engine/operations/programs.py:99-124 | what each operator says of two strings: ordering where they first differ, contains by a position |
| `Conditions.MissingAndPresent` | vermyth/engine/operations/programs.py:99-124 | exists asks for the key only; no expression holds, an empty key does not; a missing key equals None only and is in no order |
| `Conditions.VerdictsExactly` | vermyth/engine/operations/programs.py:147-157 | a condition list raises exactly when one of its comparisons does; otherwise its verdicts are those of its conditions, in order, and all hold exactly when every condition is true |
| `Execution.BestIndex` | vermyth/engine/operations/programs.py:131-135 | the parent result is the first of those with the greatest adjusted resonance |
| `Execution.TryCast` | vermyth/engine/operations/programs.py:185-274 | the retry loop is the specified sequence of attempts |
| `Execution.RollBack` | vermyth/engine/operations/programs.py:296-314 | the rollback loop writes the specified receipts |
| `Execution.RunLoop` | vermyth/engine/operations/programs.py:126-348 | the main loop, which mutates the blocked set, the results, the receipts and the rollback queue and breaks on failure, ends in the state of the specified run |
| `OrderIndependence.DagHasOneMeaning` | vermyth/engine/operations/programs.py:126-348 | on every DAG the local equations (a node's outcome from the outcomes of its direct predecessors) have exactly one solution |
| `OrderIndependence.MeaningSolves` | vermyth/engine/operations/programs.py:126-348 | the outcomes computed along any topological order solve them |
| `OrderIndependence.SolutionIsUnique` | vermyth/engine/operations/programs.py:126-348 | two solutions agree on every prefix of a topological order |
| `OrderIndependence.RunComputesSolution` | vermyth/engine/operations/programs.py:126-348 | along any valid order, a run completes exactly when no outcome of the solution stops it, and then its results, blocked set, receipts and rollback queue are those of the solution |
| `OrderIndependence.RunStops` | vermyth/engine/operations/programs.py:278-315 | a run that does not complete halts at the first node whose outcome stops it, in the state that the outcomes before it determine |
| `OrderIndependence.BlockedOutcomes` | vermyth/engine/operations/programs.py:127-128 | a completed run leaves exactly those nodes blocked whose outcome in the solution is to be blocked |
| `OrderIndependence.OrderIndependence` | vermyth/engine/operations/programs.py:87-348 | any two valid orders of a program complete alike, with the same results and the same blocked set, and receipts that differ in order only |
| `OrderIndependence.MeaningIsOrderIndependent` | vermyth/engine/operations/programs.py:87-348 | the solution computed along any two valid orders is the same |
| `ExecutionLaws.FailedRun` | vermyth/engine/operations/programs.py:278-315 | a failed run's receipts are OK or SKIPPED ones, then one FAILED, then one ROLLED_BACK for each completed cast, in reverse order of completion, labelled with its rollback strategy; the FAILED one reports the last error raised, or "execution_failed" if that is empty |
| `ExecutionLaws.CompletedRunIsClean` | vermyth/engine/operations/programs.py:278-315 | a run that does not fail has no FAILED and no ROLLED_BACK receipt |
| `ExecutionLaws.QueueMatchesReceipts` | vermyth/engine/operations/programs.py:317-348 | while a run goes on, the rollback queue is exactly the casts its receipts report completed, in that order |
| `ExecutionLaws.RollbackRespectsDescendants` | vermyth/engine/operations/programs.py:296-315 | every completed cast is rolled back once, and never before a completed descendant |
| `ExecutionLaws.TryLaw` | vermyth/engine/operations/programs.py:183-274 | a cast is given up exactly when all its attempts raise; otherwise the retries counted are the failures before the first success |
| `ExecutionLaws.ReceiptsCountRetries` | vermyth/engine/operations/programs.py:185-348 | in every run, however it ends, an OK cast's receipt counts fewer retries than its attempts, that many attempts raised and the next one returned; a FAILED receipt's node raised on all its attempts; other receipts count none |
| `ExecutionLaws.VisitsInOrder` | vermyth/engine/operations/programs.py:126-348 | in every run, halted or not, the receipts other than rollbacks come in visiting order |
| `ExecutionLaws.OneReceiptPerNode` | vermyth/engine/operations/programs.py:126-348 | every node has at most one receipt that is not a rollback |
| `ExecutionLaws.BlockedNeverExecutes` | vermyth/engine/operations/programs.py:127-128 | however a run ends, a blocked node has neither a receipt nor a result |
| `ExecutionLaws.MissingReceipts` | vermyth/engine/operations/programs.py:126-250 | in a completed run a node has no receipt exactly when it was blocked or is a merge without predecessor results whose preconditions hold |
| `NodeLaws.BlockedExactlyBySkipped` | vermyth/engine/operations/programs.py:158-193 | in a completed run a node is blocked exactly when a direct predecessor has a SKIPPED receipt |
| `NodeLaws.ResultsMean` | vermyth/engine/operations/programs.py:214-322 | a merge's result is the first coherent predecessor result, or the first, or the first best, by strategy; a cast's result is the engine's first answer, at the attempt its receipt counts: unchanged without predecessor results, else as the child of the best of them |
| `NodeLaws.GatesMean` | vermyth/engine/operations/programs.py:188-213 | an unblocked gate whose preconditions hold is OK exactly when some predecessor result has the verdict it waits for, and SKIPPED otherwise |
| `NodeLaws.SkippedExactly` | vermyth/engine/operations/programs.py:147-158 | in a completed run, a node that is not blocked is SKIPPED with "precondition_failed" exactly when one of its preconditions is false of the number of predecessor results |
| `NodeLaws.ReceiptsTell` | vermyth/engine/operations/programs.py:136-348 | every receipt of a completed run carries the verdicts of the node's preconditions and, for a cast that succeeded, of its postconditions on its result |
| `NodeLaws.PredResultsConcat` | vermyth/engine/operations/programs.py:130 | the predecessor results come in the order of the predecessor list |
| `NodeLaws.PredecessorsConcat` | vermyth/engine/operations/programs.py:54-59 | the predecessor list follows the order of the nodes |
| `Validation.ValidateProgram` | vermyth/engine/operations/program_validation.py:36-69 | the report's errors and warnings, in order, and ok exactly when there are no errors |
| `Validation.DestructiveWarnings` | vermyth/engine/operations/program_validation.py:50-60 | a program is warned about an effect of a node exactly when it is a destructive effect of a node that is no gate and has no rollback |
| `Validation.ErrorsCollect` | vermyth/engine/operations/program_validation.py:41-55 | the errors of a program are the errors of its nodes |
| `Validation.ErrorsExactly` | vermyth/engine/operations/program_validation.py:41-49 | the errors, exactly: a timeout above 3600000 ms, more than 20 attempts |
| `Validation.WarningsExactly` | vermyth/engine/operations/program_validation.py:41-67 | the warnings, exactly: a backoff above 600000 ms, a destructive effect without rollback on a node that is no gate, two postconditions of one name, a gate without successors |
| `Validation.DiagnosticsConcat` | vermyth/engine/operations/program_validation.py:36-69 | errors and warnings come in the order of the nodes |
| `Validation.NodeInPlace` | vermyth/engine/operations/program_validation.py:41-65 | within a node, the timeout comes before the attempts, and the backoff before the effects and those before duplicate postconditions |
| `Validation.DeadEndsLast` | vermyth/engine/operations/program_validation.py:66-69 | gates without successors are reported behind all other warnings |
| `Banishment.ApplyBanishment` | vermyth/arcane/compiler.py:54-68 | a program that is not strictly banished is unchanged; otherwise each node is replaced in place by its banished form |
| `Banishment.BanishedExactly` | vermyth/arcane/compiler.py:54-68 | a node gets the default rollback exactly if the banishment is strict, the node has none and has a quarantined effect; nothing else of it changes |
| `Banishment.BanishIsIdempotent` | vermyth/arcane/compiler.py:54-68 | banishing twice is banishing once |
| `Banishment.BanishKeepsErrors` | vermyth/arcane/compiler.py:58-67 | banishment changes no validation error |
| `Banishment.BanishKeepsOtherWarnings` | vermyth/arcane/compiler.py:58-67 | banishment keeps every warning that is not about a destructive effect, in order |
| `Banishment.DestructiveAfterBanishment` | vermyth/arcane/compiler.py:61-66 | a destructive-effect warning survives exactly where it stood and the node is not quarantined or the default rollback is none |
| `Banishment.StrictBanishmentCovers` | vermyth/arcane/compiler.py:58-67 | with WRITE, EXEC and NETWORK quarantined and a default that is a rollback, no such warning is left |
| `Banishment.BanishKeepsCompilation` | vermyth/arcane/compiler.py:54-68 | the banished program has the same graph and the same least topological order, and compiles exactly when the original does |
| `Banishment.BanishKeepsExecution` | vermyth/arcane/compiler.py:54-68 | a run of the banished program equals the run of the original except for the labels of its rollback receipts |
| `Causal.CausalRepository.QueryCausalEdges` | vermyth/grimoire/repositories/causal.py:60-101 | the first rows, up to the limit, that touch the node with enough weight |
| `Causal.CausalRepository.CausalSubgraph` | vermyth/grimoire/repositories/causal.py:103-142 | terminates on every table; returns, sorted and without repetition, exactly the nodes that end a walk of at most max_depth steps from the root, and exactly the edges followed from nodes within max_depth - 1, with their mean weight |
| `Causal.SearchIsExact` | vermyth/grimoire/repositories/causal.py:109-131 | when the queue is empty, visited nodes and collected edges are exactly those within the bound |
| `CausalLaws.SearchFindsChains` | vermyth/grimoire/repositories/causal.py:103-131 | where the limit cuts off no row that passes the filters, the search finds exactly the nodes that chains of at most max_depth edges reach, each edge in the table, of enough weight and of a type asked for, leading from its source to its target (forward), from target to source (backward) or either way; and exactly the edges that lead on from the ends of shorter chains |
| `CausalLaws.SmallTableSearch` | vermyth/grimoire/repositories/causal.py:103-131 | so it does in every table of at most 1000 edges |
| `CausalLaws.SearchTurnsRound` | vermyth/grimoire/repositories/causal.py:121-124 | a backward search finds exactly what a forward search finds in the table with every edge's source and target exchanged, nodes and edges, limit included; and the other way round |
| `Causal.Narrative` | vermyth/grimoire/repositories/causal.py:133-142 | the coherence is the mean weight, 0 without edges, and its clamp never fires |
| `CausalLaws.SumWeightsConcat` | vermyth/grimoire/repositories/causal.py:133-135 | the weights add up over parts |
| `Causal.SearchIsComplete` | vermyth/grimoire/repositories/causal.py:103-131 | if, at every node the search expands, the rows cut off by the limit all fail the filters, it finds exactly the nodes within max_depth admissible steps and exactly the admissible edges leaving nodes within max_depth - 1 |
| `Causal.DirectedSearchIsExact` | vermyth/grimoire/repositories/causal.py:103-131 | a forward or backward search finds all of them exactly then |
| `Causal.SearchIsSound` | vermyth/grimoire/repositories/causal.py:103-131 | whatever the limit cuts off, the search finds no node and no edge outside them |
| `Causal.LimitIsExact` | vermyth/grimoire/repositories/causal.py:113-125 | for every query, all admissible edges of a node are followed exactly when every row of the node beyond the first 1000 fails the type and direction filters, which are applied after the limit |
| `Causal.FilteredEdgeLost` | vermyth/grimoire/repositories/causal.py:113-125 | a forward search for one edge type misses an edge of that type out of its root, and the node it leads to, behind 1000 or more newer edges of another type |
| `Vectors.CauchySchwarz` | vermyth/schema/_legacy.py:286-302 | the square of a dot product over padded components is at most the product of the sums of squares |
| `Vectors.Triangle` | vermyth/schema/_legacy.py:701-708 | the L2 distance between vectors of any lengths obeys the triangle inequality |
| `Vectors.UnitIsIdempotent` | vermyth/engine/composition.py:104-117 | normalising a normalised vector changes nothing |
| `Vectors.UnitHasNormOne` | vermyth/engine/operations/intent.py:41-51 | a normalised vector has norm 1, unless the original was null |
| `SemanticVectors.CosineInRange` | vermyth/schema/_legacy.py:298-302 | the unclamped cosine lies in [-1, 1] |
| `SemanticVectors.LawOfCosines` | vermyth/schema/_legacy.py:275-302 | the squared distance of two vectors is the sum of their squared norms less twice the product of the norms and the cosine |
| `SemanticVectors.CosineOnRay` | vermyth/schema/_legacy.py:275-302 | the cosine of a vector that is not null with its positive multiples is 1 |
| `SemanticVectors.CosineOnOppositeRay` | vermyth/schema/_legacy.py:275-302 | and with its negative multiples -1 |
| `SemanticVectors.PaddingKeepsCosine` | vermyth/schema/_legacy.py:259-302 | zero-padding either vector changes no cosine |
| `SemanticVectors.PaddingKeepsDistance` | vermyth/schema/_legacy.py:259-264 | zero-padding either vector changes no L2 distance |
| `SemanticVectors.CosineSimilarity` | vermyth/schema/_legacy.py:275-302 | raises exactly on different basis versions; otherwise returns the unclamped cosine |
| `SemanticVectors.Classify` | vermyth/schema/_legacy.py:679-743 | the exact L2 and cosine distance of the stored components, independent of any upsampling, with no clamp firing, graded by the worse of the two |
| `Drift.WalkLineage` | vermyth/mcp/tools/drift.py:161-169 | the lineage of a cast, stopping below max_depth only at a root; fails only with the id of a parent that is not stored |
| `Drift.LineageIsUnique` | vermyth/mcp/tools/drift.py:161-169 | a cast has one lineage of a given maximal depth |
| `Drift.BrokenHasNoLineage` | vermyth/mcp/tools/drift.py:161-169 | a lineage and a missing ancestor exclude each other, so the walk fails exactly when an ancestor within the depth is missing |
| `Drift.SummariseChain` | vermyth/mcp/tools/drift.py:170-220 | the loop's cumulative and largest values are the sums and maxima over the hops of the chain |
| `Drift.LineageDrift` | vermyth/mcp/tools/drift.py:149-220 | the summary, before rounding, of the lineage of the queried cast |
| `Drift.HopExactly` | vermyth/mcp/tools/drift.py:167-200 | a hop counts its stored report, else the distances from its stored parent, else nothing |
| `Drift.HopsExactly` | vermyth/mcp/tools/drift.py:167-200 | the hops are the casts of the chain that have a parent |
| `Drift.LargestExactly` | vermyth/mcp/tools/drift.py:198-199 | the largest is at least every value and 0, and one of them |
| `Drift.CumulativeDominatesEndToEnd` | vermyth/mcp/tools/drift.py:196-198 | when each hop counts the distance to its parent, as classify reports it, cumulative L2 is at least the distance from the first hop's parent to the queried cast |
| `Drift.CumulativeAndLargestHop` | vermyth/mcp/tools/drift.py:196-200 | the cumulative L2 and the cumulative cosine distance are each at least the largest hop's and at most the number of hops times it, whichever hops have stored reports |
| `Casting.ComputeResonance` | vermyth/engine/operations/cast.py:90-132 | the score of the stored components, whatever the bases; upsampling does not change it |
| `CastingLaws.RawOnRays` | vermyth/engine/operations/cast.py:105-106 | the raw score is 1 on the ray of the intent, 0 on the opposite ray and 0.5 against a null vector |
| `CastingLaws.AlignedCast` | vermyth/engine/operations/cast.py:105-140 | a cast on the ray of its intent is coherent exactly if the contradiction is not hard and the ceiling at least 0.75 |
| `CastingLaws.NeverCoherent` | vermyth/engine/operations/cast.py:107-140 | under a hard contradiction or a ceiling below 0.75, no cast is coherent |
| `CastingLaws.SoftNeedsCosine` | vermyth/engine/operations/cast.py:105-140 | under a soft contradiction and a ceiling of at least 0.75, a cast is coherent exactly with a cosine of at least 0.86 |
| `Casting.BlendToward` | vermyth/engine/operations/cast.py:208-216 | the normalised convex combination with the clamped factor |
| `Casting.BlendStaysOnRay` | vermyth/engine/operations/cast.py:208-216 | blending a vector toward its own unit vector and normalising gives that unit vector again |
| `CastingLaws.BlendEnds` | vermyth/engine/operations/cast.py:208-216 | a blend of weight 0 is the one vector and of weight 1 the other, up to padding |
| `Casting.AutoCast` | vermyth/engine/operations/casting.py:30-127 | every element of the chain has the unit vector, score and verdict of the first; element i has depth i, element i - 1 as its parent and a zero divergence vector; the loop stops after one step or after max_depth; it fails exactly without anchors, on a basis mismatch or when max_depth allows no step |
| `CastingLaws.ChainExactly` | vermyth/engine/operations/casting.py:46-113 | the chain's ids in order, one vector, score and verdict; a root, then each cast the child of the one before it, one deeper, with the difference of the two vectors as divergence |
| `CastingLaws.ChainScores` | vermyth/engine/operations/casting.py:46-113 | every cast of the chain scores what its vector scores against the intent; started on the ray of the intent, it is coherent exactly if the anchors near its direction give no hard contradiction and a ceiling of at least 0.75 |
| `Heap.HeapPush` | vermyth/grimoire/repositories/casts.py:357-358 | adds the item and keeps the heap |
| `Heap.HeapReplace` | vermyth/grimoire/repositories/casts.py:360-361 | exchanges the root for the item and keeps the heap |
| `Heap.HeadIsLeast` | vermyth/grimoire/repositories/casts.py:360 | the head of a heap is its least item |
| `SemanticSearch.ScanRows` | vermyth/grimoire/repositories/casts.py:342-361 | raises exactly when some row's basis differs from the target's; otherwise the heap and what was let go together are all matches, nothing let go beats anything kept, and as many are kept as the limit allows |
| `SemanticSearch.KeptIsPrefix` | vermyth/grimoire/repositories/casts.py:356-363 | the similarities of the kept items, sorted, are the first of the similarities of all matches, sorted |
| `SemanticSearch.DescendingIsUnique` | vermyth/grimoire/repositories/casts.py:363 | a non-increasing list is determined by its multiset, so ties cannot change the similarities returned |
| `SemanticSearch.Search` | vermyth/grimoire/repositories/casts.py:333-376 | raises exactly without target or threshold or on a foreign basis; otherwise returns distinct matching rows whose similarities are those of filter, sort, take, and every match left out is at most as similar as every row returned |
| `SemanticSearch.TopMeans` | vermyth/grimoire/repositories/casts.py:334-376 | what is found matches, comes in order of falling cosine, and is empty for a limit below one; a matching row is left out only from a full result, none of whose rows has a smaller cosine |
| `SemanticSearch.OwnVectorFirst` | vermyth/grimoire/repositories/casts.py:334-376 | a row with the target's own vector, not null, has cosine 1 and nothing ranks above it; a search that admits one row and cosine 1 finds one of cosine 1 first |
| `Channel.ChainedCast` | vermyth/engine/operations/swarm.py:58-135 | refused exactly on a decoherent channel without force or when composing fails; otherwise the cast against the steered intent vector and the state after it |
| `Channel.SyncChannel` | vermyth/engine/operations/drift.py:6-30 | resets the streak and the status, keeps the counters and anchors to the first best seed if it crystallizes; raises exactly when that seed is ripe and does not compose |
| `Channel.RunsAreConsistent` | vermyth/engine/operations/swarm.py:99-134 | over every legal run the cumulative resonance is the sum of the scores, the count the number of casts, mean times count the sum, the mean in [0, 1], the streak exactly the trailing coherent casts since the last sync, and the sum at least 0.75 times the streak |
| `Channel.UnforcedNeedsMean` | vermyth/engine/operations/swarm.py:68-71 | an unforced cast directly after another cast meets a mean of at least 0.40 |
| `Channel.LetThroughExactly` | vermyth/engine/operations/swarm.py:68-71 | directly after a cast, an unforced cast is let through exactly when the mean score so far is at least 0.40; a first cast, a forced one and one directly after a sync always are |
| `Channel.StatusExactly` | vermyth/engine/operations/swarm.py:118-123 | directly after a cast, the channel is coherent exactly when the mean score is at least 0.65 and decoherent exactly when it is below 0.40 |
| `Channel.CastShows` | vermyth/engine/operations/swarm.py:124-134 | after a cast, the branch is the channel's first, the constraint the cast's vector, and the last id and verdict those of the cast |
| `Channel.SyncShows` | vermyth/engine/operations/drift.py:6-30 | any number of syncs after a cast keep what it shows, but for the constraint, which is the last anchor a sync found |
| `Channel.SteeredExactly` | vermyth/engine/operations/swarm.py:76-87 | the steered intent is four parts intent to one part constraint, normalised |
| `Swarm.AggregateMembers` | vermyth/engine/operations/swarm.py:27-37 | the accumulator loops compute the weighted mean of the members' vectors |
| `Swarm.ShareBound` | vermyth/engine/operations/swarm.py:27-37 | no member's share of the weight exceeds 2 / (n + 1) |
| `Swarm.ComponentBetween` | vermyth/engine/operations/swarm.py:27-37 | each component of the aggregate lies between any bounds on the members' components |
| `Swarm.SumsConcat` | vermyth/engine/operations/swarm.py:27-34 | the weights and weighted components add up over parts of the members |
| `Swarm.AggregateOfOne` | vermyth/engine/operations/swarm.py:27-37 | a swarm of one member casts that member's vector |
| `Swarm.StreakCounts` | vermyth/engine/operations/swarm.py:42-54 | over every run, a member's streak is the number of coherent casts since the start of its present run: the later of its last join, its first submission and the last decoherent cast |
| `Swarm.StreaksExactly` | vermyth/engine/operations/swarm.py:42-54 | a streak grows exactly with a score of at least 0.75 and the threshold, ends below 0.45 and is kept otherwise |
| `Swarm.RunStart` | vermyth/engine/operations/swarm.py:42-54 | every member has such a start |
| `Swarm.SwarmStore.RowCountsRun` | vermyth/mcp/tools/swarm.py:96-113 | so every row of the member table holds that number |
| `Swarm.SwarmStore.Join` | vermyth/mcp/tools/swarm.py:53-73 | puts the session in the table with a zero vector and streak 0, creating the swarm if it is new; fails, changing nothing, exactly on a new swarm with a threshold outside [0, 1] |
| `Swarm.SwarmStore.Cast` | vermyth/mcp/tools/swarm.py:76-122 | a short vector, an unknown swarm or an engine without anchors fails and changes nothing; otherwise the cast of the weighted aggregate over the members in session order, and the table with every streak updated by the consensus; a threshold outside [0, 1] then still fails, with the streaks rewritten and the swarm's threshold and status as they were |
| `Seeds.Accumulate` | vermyth/engine/operations/seeds.py:8-48 | the first matching seed updated, a new seed, or none for an incoherent result of a new pattern |
| `Seeds.ReplayIsExact` | vermyth/engine/operations/seeds.py:8-48 | after any history of one pattern, the seed's count, mean and coherence rate are exactly those of the history without its leading incoherent results, and there is a seed exactly when some result counts |
| `Seeds.ReplayShows` | vermyth/engine/operations/seeds.py:25-48 | the seed of a history has the pattern and effect class of the first result that counts, which scored at least 0.45 |
| `Seeds.FirstMatchIsFirst` | vermyth/engine/operations/seeds.py:11-14 | the seed accumulated is the first of its pattern |
| `SeedStore.SeedRepository.QuerySeeds` | vermyth/grimoire/repositories/seeds.py:106-128 | the rows whose list of names is the one asked for, in table order |
| `SeedStore.SeedRepository.WriteSeed` | vermyth/grimoire/repositories/seeds.py:64-91 | the row of that id is replaced and comes last |
| `SeedStore.SeedRepository.Record` | vermyth/mcp/tools/casting/_legacy.py:357-404 | a cast queries by its pattern's list, accumulates the first row found, writes the result under the id of the last one, and, if it crystallizes, writes it again restarted; raises exactly when the seed may crystallize and its pattern does not compose; the table stays the one its whole history of casts, of any patterns and lists, gives |
| `SeedStore.LifeIsExact` | vermyth/mcp/tools/casting/_legacy.py:357-404 | at every generation, a row's count, mean and coherence rate are exactly those of the observations it took since it last crystallized, its generation is 1 plus the number of its crystallizations, and each crystallization at generation g was backed by observations that clear the bar of g, none counted twice or lost |
| `SeedStore.LifeIsPrompt` | vermyth/mcp/tools/casting/_legacy.py:376-404 | if the pattern composes, every crystallization of a row comes with the first result that backs its generation, and the present generation is not backed yet; with LifeIsExact this fixes which results each generation took |
| `SeedStore.LifeWithoutPattern` | vermyth/mcp/tools/casting/_legacy.py:376-404 | if it does not compose, the row never crystallizes |
| `SeedStore.LifeKeeps` | vermyth/engine/operations/seeds.py:25-38 | a row keeps the pattern and effect class of its first observation all its life |
| `SeedStore.OneRowExactly` | vermyth/grimoire/repositories/seeds.py:106-128 | some row has taken every observation of a pattern, from its first result that is not incoherent on, if and only if every cast asked for the list under which the one before it was written; and then it is the pattern's only row |
| `SeedStore.TwoRows` | vermyth/grimoire/repositories/seeds.py:25 | two casts of one pattern, the second listing it differently from how the first was written, leave two rows of one observation each |
| `SeedStore.TwoListings` | vermyth/grimoire/repositories/seeds.py:25 | every pattern of two names admits such casts |
| `SeedStore.TwoRowsFound` | vermyth/mcp/tools/casting/_legacy.py:357-404 | of two rows with the list asked for, a cast continues what the first took and writes it in place of the second |
| `SeedStore.FirstResult` | vermyth/engine/operations/seeds.py:15-17 | a pattern's first result leaves a row exactly if it scores at least 0.45 |
| `SeedStore.TenthCrystallizes` | vermyth/mcp/tools/casting/_legacy.py:376-404 | ten results of 0.8 whose pattern composes leave the row at count, mean and coherence 0 and generation 2 |
| `SeedStore.RowsTrackCoherence` | vermyth/engine/operations/seeds.py:21-24 | 0.75 c <= mean <= 0.75 + 0.25 c for every row with something counted, at any generation |
| `Seeds.MeanTracksCoherence` | vermyth/engine/operations/seeds.py:21-24 | 0.75 c <= mean <= 0.75 + 0.25 c for the coherence rate c, after every history |
| `Seeds.CrystallizationBar` | vermyth/engine/operations/seeds.py:51-65 | at no generation does a seed crystallize with fewer than 10 observations, a mean below 0.70 or a coherence rate below 0.65 |
| `Seeds.BarExactly` | vermyth/engine/operations/seeds.py:51-65 | the bar of generation g: min(50, 10 + 5 (g - 1)) observations, a mean of min(0.95, 0.70 + 0.05 (g - 1)), a coherence rate of min(0.90, 0.65 + 0.05 (g - 1)), a known effect class, and not crystallized yet |
| `Seeds.BacksExactly` | vermyth/engine/operations/seeds.py:52-60 | the same bar, told by the sums over the observations |
| `Seeds.CrystallizesExactly` | vermyth/engine/operations/seeds.py:56-65 | a seed with exact statistics and an effect class clears the bar exactly when its observations do |
| `Seeds.CrystallizesBacked` | vermyth/engine/operations/seeds.py:51-65 | a seed with exact statistics crystallizes at generation g only if the observations it counts are as many, as coherent and on average as high as g asks, and at least 10 |
| `Seeds.CrystallizedHistory` | vermyth/engine/operations/seeds.py:8-65 | a first generation can crystallize only if at least 10 results count, at least 65% of them coherent and with an average of at least 0.70 |
| `Aspects.CanonicalOrderIsValid` | vermyth/schema/_legacy.py:70-71 | the canonical aspects have plain, distinct names, so the registry starts valid |
| `Aspects.ValidNameExactly` | vermyth/schema/_legacy.py:42 | a valid name has 1 to 30 capital letters, digits and underscores, a letter first |
| `Aspects.AspectState.Register` | vermyth/schema/_legacy.py:39-94 | refuses exactly a malformed or taken name; otherwise appends the aspect and keeps every cached key right |
| `Aspects.AspectState.Resolve` | vermyth/registry.py:44-45 | finds a name exactly when an aspect of the full order has it, and then that aspect |
| `Aspects.AspectState.Reset` | vermyth/registry.py:31-34 | forgets the registrations and keeps the cache; which cached keys may now be stale |
| `Aspects.AspectState.CanonicalAspectKey` | vermyth/engine/keys.py:9-13 | the cached key, computed at most once, is a key under the present order for every set that is not loose |
| `Aspects.ListingSurvives` | vermyth/engine/keys.py:11-12 | a listing of a set with at most one unregistered aspect stays sorted whatever is registered later |
| `Aspects.StableExactly` | vermyth/engine/keys.py:9-13 | a listing stays right under every later registration exactly when at most one of its aspects is unregistered |
| `Aspects.JoinIsInjective` | vermyth/engine/keys.py:13 | names without '+' are recovered from their join |
| `Aspects.JoinConcat` | vermyth/engine/keys.py:13 | the names come in order with one '+' between any two |
| `Aspects.ListingFollows` | vermyth/engine/keys.py:11-12 | a listing follows the order of registration |
| `Aspects.UnregisteredLast` | vermyth/engine/keys.py:11-12 | an unregistered aspect is listed behind all registered ones |
| `Aspects.KeyIsInjective` | vermyth/engine/keys.py:9-13 | two sets of registered aspects with the same key are the same set |
| `Aspects.KeyOfRegistered` | vermyth/engine/keys.py:9-13 | a set of registered aspects has exactly one key, whatever the set's iteration order |
| `Aspects.ResetStalesKeys` | vermyth/registry.py:31-34 | two aspects registered the other way round after a reset have a fresh key different from the cached one |
| `Composition.OneEntryOneSet` | vermyth/engine/composition.py:253-261 | under fresh keys, an entry changes what its own aspect set composes to and no other set's composition |
| `Composition.GrowthKeepsCompositions` | vermyth/engine/composition.py:119-139 | registering aspects changes no composition of aspects registered before |
| `Composition.CompositionEngine.Compose` | vermyth/engine/composition.py:119-139 | for a set whose memoised key is sound, the entry under the set's fresh key, with its severity; no key becomes unsound |
| `Composition.ComposedExactly` | vermyth/engine/composition.py:119-139 | one to three aspects whose key has an entry compose, to the entry under its own severity, else the contradiction's, else none |
| `Composition.CompositionEngine.RegisterSigilEntry` | vermyth/engine/composition.py:253-261 | refuses to replace an entry unless told to, and otherwise sets that one entry; no key becomes unsound |
| `Composition.CompositionEngine.ComposeAround` | vermyth/engine/composition.py:119-261 | on the memoised engine, registering an entry for one set changes what that set composes to and no other set's composition |
| `Policy.MergeWard` | vermyth/arcane/compiler.py:20-43 | the field-by-field update merges as specified and stays within the thresholds' constraints |
| `PolicyLaws.MergedExactly` | vermyth/arcane/compiler.py:20-43 | each merged bound is the least above the base's and the ward's; the drift bound is the ward's where it sets one |
| `PolicyLaws.MergedWeights` | vermyth/arcane/compiler.py:39-42 | each merged weight is the ward's where it sets it, else the base's |
| `Policy.ScoreEffectRisk` | vermyth/engine/policy/scorers/effect_risk.py:9-29 | the loop over the effects scores one minus their clamped risk, under the weight in force |
| `PolicyLaws.RiskConcat` | vermyth/engine/policy/scorers/effect_risk.py:11-20 | risks add up over parts of an effect list |
| `PolicyLaws.RiskOfOne` | vermyth/engine/policy/scorers/effect_risk.py:12-20 | 0.35 for a WRITE, EXEC or NETWORK, 0.10 for a COMPUTE, nothing for others, and 0.25 more if irreversible |
| `PolicyLaws.AggregateIsMean` | vermyth/engine/operations/decisions.py:73-94 | the aggregate is the mean of the four scores under the four weights, 0 where no score weighs |
| `PolicyLaws.DecisionExactly` | vermyth/engine/policy/rule_based.py:28-54 | the decision from the numbers: none exactly where a weight exceeds 5; DENY exactly for effects below the bound under a positive weight, a resonance below 0.45 or a DIVERGED cast; ALLOW exactly for a resonance of at least 0.75 and the bound, a divergence that is absent, STABLE or the one tolerated, and an aggregate at the bound; RESHAPE otherwise |
| `PolicyLaws.StableAsUnmeasured` | vermyth/engine/policy/rule_based.py:28-31 | a STABLE cast is decided as one whose divergence is not known, under all thresholds |
| `PolicyLaws.BetterIsNoStricter` | vermyth/engine/policy/rule_based.py:28-54 | a cast with at least the resonance, no farther from its parent, no less coherent a narrative and no other effect is never decided more strictly |
| `PolicyLaws.DriftingToStable` | vermyth/engine/policy/rule_based.py:28-54 | an allowed drifting cast stays allowed once its divergence is STABLE |
| `Policy.WardsTightenExactly` | vermyth/engine/operations/decisions.py:73-103 | a ward that leaves every scorer its weight never makes a decision more permissive, if and only if it does not both set the drift bound to DRIFTING over another value and leave the merged bound within reach of a drifting cast's best aggregate |
| `Policy.WardsTighten` | vermyth/engine/operations/decisions.py:73-103 | a ward that leaves the drift bound and the scorer weights unset only tightens, over every cast, context and effect list |
| `Policy.DenialsStandExactly` | vermyth/engine/policy/rule_based.py:32-45 | whatever a ward does to the weights, every DENY stands, if and only if the ward does not switch an effect gate off by a negative effect_risk weight |
| `Policy.WeightsCanLoosen` | vermyth/engine/operations/decisions.py:75-94 | a ward that only raises the resonance weight to 5, over the default thresholds, turns the RESHAPE of one cast into an ALLOW |
| `CriticalInputs.CriticalInputsDecide` | vermyth/engine/operations/decisions.py:73-103 | a ward, whatever it sets, weights included, never makes a decision more permissive if and only if it does not on 330 inputs computed from the merged thresholds |
| `CriticalInputs.GreedyIsBest` | vermyth/engine/operations/decisions.py:93-94 | of all resonance and narrative scores that reach a bound under one pair of weights, a greedy point is lowest under another pair |
| `CriticalInputs.ValueIsCatalogued` | vermyth/engine/policy/scorers/effect_risk.py:9-29 | every effect list has the effect score of one of 55 lists |
| `Policy.MergeIsIdempotent` | vermyth/arcane/compiler.py:20-43 | merging a ward twice is merging it once |
| `Policy.NumericWardsAct` | vermyth/arcane/compiler.py:22-38 | numeric wards merge commutatively, associatively and idempotently |
| `Policy.WardsCommuteExactly` | vermyth/arcane/compiler.py:30-42 | the order of merging two wards matters exactly when they set the drift bound or a scorer's weight differently |
| `Framing.DecodeFrame` | vermyth/mcp/binary_transport.py:42-57 | one call on the buffer answers as specified and consumes exactly what the specification consumes |
| `Framing.EncodingBytes` | vermyth/mcp/binary_transport.py:13-39 | an encoding is 86 77 84 72, the version 1, the type, the payload's length with its most significant byte first, and the payload |
| `Framing.EncodeExactly` | vermyth/mcp/binary_transport.py:36-39 | every type is encoded by its low byte; exactly a payload of 2^32 bytes or more is refused |
| `Framing.DecodeExactly` | vermyth/mcp/binary_transport.py:42-57 | every answer and every rest of the decoder by the bytes it meets: nothing, a short header, a wrong magic, a wrong version, a payload shorter than announced, a frame |
| `Framing.DecodedIsEncoding` | vermyth/mcp/binary_transport.py:42-57 | a decoded frame is valid, and the bytes consumed are its encoding |
| `Framing.StreamRoundTrip` | vermyth/mcp/binary_transport.py:36-57 | decoding the concatenated encodings of any list of valid frames gives that list and a clean end |
| `Framing.TruncatedStream` | vermyth/mcp/binary_transport.py:45-56 | a stream cut inside its last frame gives the frames before it and then the error for an incomplete frame |
| `Framing.CleanStreamIsEncoding` | vermyth/mcp/binary_transport.py:42-57 | a byte string that decodes to a clean end is the encoding of what it decodes to |

## Left out

- Floating-point rounding and non-finite values: numbers are reals, `math.sqrt` is exact, and the branches on `isfinite` and on rounding noise do not occur.
- Rounding of reported values to 6 digits, and of a crystallized ceiling to 2.
- SQLite storage, migrations, JSON rows, the HTTP, MCP and A2A servers and the command line.
- Causal edge writes and deletes: the table is a list of edges in the order the query returns it, newest first, with ids and weights as the table's constraints demand.
- The divergence report table's writes, and the cast table's writes and deletes.
- Projection of an intent to a vector (`vermyth/engine/operations/intent.py`): an intent is the vector it projects to.
- The k nearest anchors, softmax weights, ceiling and severity inside `interpolate`: a function of the unit vector.
- Rationales, proofs, names of fluid sigils, fingerprints and casting notes.
- Timestamps and ULIDs: ids are parameters, and times and durations are absent.
- Effect summaries, provenance, signing and correlation of execution receipts.
- `entry_node_ids`: `execute_program` does not consult it.
- Sleeping between retries.
- `compile_ritual`, divination and format templates (`vermyth/arcane/compiler.py`).
- Where a decision's divergence status and narrative coherence come from: they are inputs, and so are the effects.
- A search in both directions may find an edge that the limit cuts off at one end from its other end: DirectedSearchIsExact is about the other two directions.
- Top contributors and per-hop records of a lineage drift report.
- Loading of sigil and contradiction files: the composition table and the contradictions are fields.
- Genesis, bundles, recommendation rules, session replay and the TypeScript port.
- The table of crystallized sigils, and crystallized sigils beyond their vector; a seed's pattern is a set of opaque names.
- Seeds written by gossip synchronisation: rows come from casts.
- Which order a set of names lists in: each cast brings the order it asks with and the order it writes with.
- The swarm row's aggregated vector and last cast id, and the writing of the cast itself.
- `set_basis_version`: the basis version is the number of registrations.
- Polarity, entropy and symbol of a registered aspect: aspects are compared by name.
- `contains` on values that are lists or maps: conditions compare the values an execution context can hold.
