# Ground truth, baselines and harness of a retrieval benchmark, verified

The repository compares search engines, vector indexes and graph stores. Every comparison is against
answers it works out itself, so everything it publishes rests on a few pieces of code being right: a Go
reference that walks a graph, separate implementations of the same answers in Rust and over SQL, an exact
nearest neighbour scan in each language, the harness that scores answers, and the readers, samplers and
worker pools in between. The repository tests these on small examples. Here they are modelled and the
claims behind them are proved for every input, every schedule and every run.

## The main results

1. **Graph answers mean what they say.** Two-hop counts, hop counts, reachable sets and depths are tied to
   walks in the raw edge list (`Digraph`, `EdgeList`), with repeated edges and self loops allowed. The Go
   reference (`Reference`), the Rust engine (`CsrEngine`) and the traversals over a table (`SqliteEngine`)
   each keep their own loops over levels and are proved against the same walks, so they agree on every
   graph. Both builds produce the one compressed form an edge list has (`Csr`, `CountThenFill`).
2. **The correctness table means what it says.** `Harness` shows that a full score means the answers are a
   non-empty prefix of the truth, and that a report has exactly one row for every operation asked for, in
   order. `EndToEnd` proves the Rust engine truthful and runs build, answer, store, reopen, ask and score as
   one program, with zero mismatches on all five operations for every graph, plan and seed list the reference
   accepts.
3. **PageRank is where a random surfer is.** In exact arithmetic the rank of a node after k iterations is the
   chance that a surfer who starts anywhere, follows edges with the damping factor's chance and jumps
   otherwise is there after k steps (`Surfing`). Ranks add up to one and stay above a floor, the push loops
   compute the pull formula, and the result depends on the multiset of edges and not on the order of rows
   (`PageRank`, `Pushing`).
4. **A visited set that is never cleared.** Any sequence of resets and marks on a stamp array answers as a
   plain set does, across any number of counter wrap-arounds (`Stamping`).
5. **The exact scan is exact.** Early abandoning in blocks of eight never changes the answer, the Go and
   Rust scans return the same identifiers under all three metrics although they rank by different numbers,
   recall against the truth that the concurrent computation leaves behind is exactly one under every
   schedule, and the audit of ties is sound and complete over the whole query set (`ExactScan`,
   `VectorTruth`, `Baseline`, `Metrics`, `TopList`, `FirstK`). The scores are an inner product, the distance
   it induces and a cosine that ignores length.
6. **Parallel work is done exactly once.** Shared-cursor and channel-fed pools are step systems; every
   index is taken once under every schedule, rows are written by one worker each, and every run ends after
   a known number of steps, with or without a progress callback (`CursorPool`, `RowPool`). Cutting a file
   at any byte offsets gives every line once and in order (`Corpus`).
7. **Inputs.** Seeds are distinct nodes and smaller samples are prefixes of larger ones (`Sampling`);
   induced subgraphs keep symmetry and never shorten distances (`Induced`); plan fitting takes away no more
   than it must (`Plans`); edge, seed, vector and store files round trip and cut files are refused
   (`EdgeFile`, `VectorFile`, `CsrFile`).

## Where the code does less than its documentation says

- The size check on an edge file is meant to catch a file that does not hold the edges it claims. It is
  done in 64-bit arithmetic and compares the count modulo 2 to the 61: `EdgeFile.SizeCheckWraps` is a
  32 byte file that claims 2 to the 61 edges and passes, and `EdgeFile.SizeCheckMeansSize` says exactly
  when the check means what it says. Reading the edges afterwards stops for want of room unless the count
  wraps to a negative number with the right low bits (`EdgeFile.ReadEdges`). No file a writer here produces
  is affected (`EdgeFile.PrefixesAreRefused`, `EdgeFile.EdgesRoundTrip`).
- The engines agree on identifiers that are in the graph. Outside it the Rust engine says -1 and the table
  walks on: `SqliteEngine.EnginesAgreeExactlyWhen` gives the condition for each operation.
- The store the Rust engine opens sizes its buffers in 64-bit arithmetic that wraps in the release profile.
  `CsrFile.OpeningWraps` is a 32 byte file that claims 2 to the 62 nodes and opens as a graph without any;
  `CsrFile.OpeningMeansSize` says exactly when opening a file means that it holds its counts. A store that was
  written is not affected, whole or cut (`CsrFile.WrittenIsOpened`, `CsrFile.CutStoreIsRefused`).
- An integer vector file that the writer accepts reads back exactly if and only if there is something in it
  and its rows hold at most 2 to the 20 values: an empty file has no first record to take a shape from, and a
  wider row is written and then refused by both readers (`VectorFile.IvecsRoundTrip`,
  `VectorFile.WideRowIsRefused`).

## How it is modelled

Loops that change arrays, lists and maps in the source are methods with loop invariants; the stamp array,
the Rust scratch space and the database are classes. The graph after a build is an immutable value. Ghost
parameters named `es` are the raw edge list an answer is about; they exist only in contracts. The
count-then-fill loops, the expansion of one frontier and PageRank over rows are the same statements in Go and
Rust, so each is written once (`CountThenFill`, `RowWalk`, `Pushing`) and used by both, while each language
keeps its own identifier lookup, frontier handling and level loop. The pools are transition systems whose
states change by one worker taking one atomic step. A method that runs a pool takes the schedule of its workers
as a parameter, any one for each amount of work, and what it promises holds for all of them.

Scores and ranks are exact reals. The square root is any function that is zero at zero and positive above.
Sorting, binary search and set iteration order are library behaviour; `Library.Sort` and
`Reference.ListInAnyOrder` have bodies only so that their contracts are proved.

Check everything with `dafny verify dfyconfig.toml`.

## Model

| member | source | states |
|---|---|---|
| Digraph.HopsIsShortestWalk | graphs/reference.go:301-305 | a hop count is the length of a shortest directed walk, and -1 exactly when there is no walk |
| Digraph.ReachAndRadiusMeaning | graphs/reference.go:330-331 | the reachable set is what walks lead to; the depth is the greatest shortest-walk distance in it and is attained |
| Digraph.AnswersRenamed | graphs/reference.go:89-92 | replacing identifiers by dense indexes changes no hop count, reachable count or depth |
| Digraph.FewerArcsNeverShorten | graphs/subgraph.go:18-20 | removing arcs never makes any distance shorter |
| EdgeList.TwoHopMeaning | graphs/reference.go:279-280 | the two-hop set is the nodes other than the seed at the end of a walk of one or two edges |
| EdgeList.RowMeans | graphs/reference.go:109-125 | a degree is the number of positions at which an edge leaves the node; each far end stands behind as many as edges left it before |
| EdgeList.HopCountMeans | graphs/reference.go:301-305 | over the edge list itself: the edges on a shortest walk, -1 exactly where there is none |
| EdgeList.TraversalMeans | graphs/reference.go:330-331 | the count is the number of nodes walks lead to, the seed included; the depth is the longest shortest walk |
| EdgeList.TwoHopCountMeans | graphs/reference.go:279-280 | the count is the number of nodes other than the seed at the end of a walk of one or two edges |
| Csr.CsrIsUnique | runners/rust/csr/src/main.rs:215-246 | two compressed forms of one edge list are equal in all three arrays, so the Go and Rust builds agree |
| Csr.RowsAreInputRows | graphs/reference.go:144-147 | row i names the far ends of the edges leaving identifier i, in input order |
| Csr.BuildLosesNothing | graphs/reference.go:87-127 | read back row by row the graph is exactly the input multiset of edges |
| Csr.CsrAnswers | graphs/reference.go:87-92 | every degree, two-hop, hop, reach and depth question has the same answer on the dense graph as on the edge list |
| CountThenFill.CursorInRow | graphs/reference.go:117-125 | while filling, a cursor stays inside its own row and inside the target array |
| CountThenFill.FillStep | graphs/reference.go:121-125 | placing one edge at its cursor keeps every row holding exactly the edges read so far |
| CountThenFill.CountRows | graphs/reference.go:109-115 | after counting and accumulating, entry i of the offsets is where row i starts |
| CountThenFill.FillRows | graphs/reference.go:119-126 | the filled target together with the offsets is the compressed form; the offsets survive |
| Levels.LevelProgress | graphs/reference.go:306-328 | each level either finds nothing new or strictly shrinks the unreached nodes: the termination measure |
| Levels.MetAtNextLevel | graphs/reference.go:315-319 | an unmarked node met while expanding distance d is at distance exactly d + 1 |
| Stamping.RunsLikeASet | graphs/reference.go:248-277 | from any valid state, any sequence of resets and marks answers as a plain set emptied at each reset |
| Stamping.EarlierUseIsForgotten | runners/rust/csr/src/main.rs:172-209 | after a reset two stamp arrays with different histories answer every later sequence alike |
| Stamping.StampsTellFirstVisits | graphs/reference.go:271-277 | a visit is answered as new exactly when the node was not visited since the last reset |
| Stamping.Stamps.Reset | graphs/reference.go:258-269 | the new state is the 32-bit step with its wrap-around, and nothing is marked |
| Stamping.Stamps.Mark | graphs/reference.go:271-277 | marks one node, says whether it was new, leaves every other mark alone |
| RowWalk.SearchLevel | graphs/reference.go:314-325 | expanding a frontier finds the target exactly at the next distance, else yields the next frontier and marks |
| RowWalk.ExpandLevel | graphs/reference.go:337-345 | expanding a frontier yields the next one and counts the nodes newly reached |
| RowWalk.CountBeyond | graphs/reference.go:291-297 | counts the distinct nodes beyond a row that were not marked yet |
| Reference.DistinctIds | graphs/reference.go:94-102 | the identifiers come out strictly increasing and complete, in whatever order the map gives them |
| Reference.Build | graphs/reference.go:93-127 | the result is the compressed form of the edge list |
| Reference.Index | graphs/reference.go:135-142 | finds the index of an identifier, or -1 exactly when it is not there |
| Reference.TwoHop | graphs/reference.go:279-299 | the two-hop count of the edge list, whatever the stamps held before |
| Reference.ShortestPath | graphs/reference.go:301-328 | the hop count of the edge list or -1, and the loop terminates |
| Reference.Traverse | graphs/reference.go:330-352 | the size of the reachable set and the greatest distance in it |
| Reference.DenseSeeds | graphs/reference.go:197-203 | succeeds exactly when every seed is a node; otherwise names the first that is not |
| Reference.Answer | graphs/reference.go:188-246 | refuses in the order and for the reasons of the code; otherwise every list is the truth about the edge list |
| CsrEngine.Dedup | runners/rust/csr/src/main.rs:218-220 | removing repeats from sorted identifiers leaves them strictly increasing and complete |
| CsrEngine.IndexOf | runners/rust/csr/src/main.rs:321-324 | the position of an identifier that is present |
| CsrEngine.Build | runners/rust/csr/src/main.rs:216-246 | the result is the compressed form of the edge list, so equal to the Go graph |
| CsrEngine.Index | runners/rust/csr/src/main.rs:256-259 | the index of an identifier, none exactly when it is absent |
| CsrEngine.Scratch.Reset | runners/rust/csr/src/main.rs:184-199 | sized for the graph, nothing marked, both frontiers empty, whatever was left behind |
| CsrEngine.Neighbours | runners/rust/csr/src/main.rs:327-332 | the degree in the edge list, -1 for an unknown node |
| CsrEngine.TwoHop | runners/rust/csr/src/main.rs:334-360 | the two-hop count for any reused scratch, -1 for an unknown node |
| CsrEngine.ShortestPath | runners/rust/csr/src/main.rs:362-405 | the hop count for any reused scratch, -1 if an end is unknown |
| CsrEngine.Bfs | runners/rust/csr/src/main.rs:407-442 | the reachable count and depth with swapped frontiers, -1 and -1 for an unknown node |
| SqliteEngine.Flush | runners/sqlitegraph/main.go:104-117 | one flush inserts exactly the batched edges, with as many tuples as arguments ask for |
| SqliteEngine.Load | runners/sqlitegraph/main.go:89-142 | every edge is inserted once in input order whatever the batch boundaries, and the node table is complete |
| SqliteEngine.ShortestPath | runners/sqlitegraph/main.go:213-239 | the hop count of the edge list for any row order the database returns |
| SqliteEngine.Bfs | runners/sqlitegraph/main.go:241-266 | the reachable count and depth for any row order |
| SqliteEngine.TwoHopQueryCounts | runners/sqlitegraph/main.go:176-186 | the union of one hop and the self join without the seed counts the two-hop set |
| SqliteEngine.OutIsSucc | runners/sqlitegraph/main.go:168-175 | the neighbour query returns the successors and as many rows as the degree |
| SqliteEngine.EnginesAgreeExactlyWhen | runners/rust/csr/src/main.rs:334-337 | for any identifiers, when the Rust engine's answer and the table's are equal, operation by operation |
| SqliteEngine.FillDegrees | runners/sqlitegraph/main.go:299-311 | the grouped counts placed by index are the out degrees narrowed to int32, zero where a node has no edges |
| SqliteEngine.NarrowedDegrees | runners/sqlitegraph/main.go:310 | the narrowed counts are the degrees exactly when no node has 2 to the 31 edges |
| SqliteEngine.SpreadTable | runners/sqlitegraph/main.go:365-382 | reading the table in any order pushes the same shares as the pull formula |
| SqliteEngine.PageRanked | runners/sqlitegraph/main.go:292-363 | the same ranking as the reference, with ties left to the stable sort |
| FirstK.FirstIsUnique | graphs/reference.go:397-398 | the order by score then identifier leaves one possible answer |
| FirstK.FirstTruncates | runners/rust/benchrs/src/vector/data.rs:125-131 | a ranking to a greater depth cut to k is the ranking to depth k |
| FirstK.FirstIsPrefixOfSorted | vectors/metric.go:174-178 | being the first k is the same as being the first k of everything sorted |
| PageRank.RanksAreADistribution | graphs/reference.go:354-358 | after any number of iterations the ranks add up to one and none is below (1 - damping) / n |
| PageRank.SentIsArrivingAndLeaving | graphs/reference.go:381-384 | what all nodes send along edges is what all nodes receive |
| PageRank.OrderOfEdgesIsIrrelevant | runners/rust/csr/src/main.rs:444-449 | the ranks depend only on the multiset of edges |
| PageRank.RankingIsUnique | runners/rust/csr/src/main.rs:478-490 | engines holding the same edges in any order must report the same list |
| Pushing.PushRows | graphs/reference.go:375-385 | one pass over the rows pushes what the pull formula collects, and sums the dangling rank |
| Pushing.RunIterations | graphs/reference.go:364-391 | the arrays hold the ranks of the pull definition after every iteration, through the swaps |
| Pushing.OrderIsRanking | graphs/reference.go:393-412 | the first of any correct order of the indexes are the highest ranked identifiers |
| Pushing.HighestRanked | graphs/reference.go:354-413 | the highest ranked identifiers after the given iterations, best first, ties to the lower identifier; the Rust engine runs the same statements (runners/rust/csr/src/main.rs, from line 450) |
| Surfing.RanksFollowTheRecurrence | graphs/reference.go:366-391 | for every iteration and node, over the raw edges: an equal start, then the equal part and what each edge brings |
| Surfing.RanksAreTheSurfers | graphs/reference.go:354-358 | the rank after k iterations is the sum, over all starts, of the chance of being carried there in k steps |
| Surfing.ChancesAddUp | graphs/reference.go:356-358 | from every node, one without edges included, the chances of the next step are not negative and add up to one |
| Surfing.RankingMeans | graphs/reference.go:393-412 | a ranking is exactly: as many nodes as asked for or there are, each above the next and above every node left out |
| Plans.FitMendsTheCounts | graphs/plan.go:110-140 | a fitted plan passes the check exactly when its seeds, PageRank settings and record length are sound; fitting is idempotent |
| Plans.CheckMeans | graphs/plan.go:125-140 | exactly which plans are accepted, and what the fault named says about the plan |
| Plans.FitIsLargest | graphs/plan.go:110-123 | fitting only lowers counts and keeps at least as much as any acceptable plan that asks for no more |
| Plans.TruthMeans | graphs/reference.go:205-245 | position by position what the stored answers say: seeds from the front, two at a time for a path, two numbers for a traversal |
| Harness.Score | runner/graph.go:454-471 | wrong is the number of positions that differ or lie beyond the truth, the fraction is of the others; all correct exactly when the answers are a non-empty prefix |
| Harness.NoMismatchIsPrefix | runners/rust/benchrs/src/graph/ops.rs:229-247 | no position differs exactly when the answers are a prefix of the truth |
| Harness.OnePerSeed | runners/rust/benchrs/src/graph/ops.rs:145-160 | one answer per call, in the order of the seeds |
| Harness.PairPerSeed | runner/graph.go:389-401 | two answers per call, in the order of the seeds |
| Harness.Alongside | runner/graph.go:403-452 | from 100 calls and with workers, one timing for every call under every schedule; otherwise no concurrent pass |
| Harness.RunOps | runner/graph.go:320-373 | exactly one row for every wanted operation and none for others, in the order neighbours, two-hop, shortest path, traversal, PageRank; each is scored on what was collected, or unsupported |
| Harness.CollectedMeans | runner/graph.go:342-369 | position by position what is collected: seeds from the front, two at a time for a path, two numbers for a traversal |
| Harness.TruthfulCollectsTruth | README.md:104-107 | an engine that tells the truth about the graph collects exactly the stored answers, for each operation |
| Harness.TruthfulEngineScoresPerfectly | README.md:104-108 | the report on such an engine has no mismatch anywhere and a full score on everything that was run |
| EndToEnd.RustEngineIsTruthful | README.md:104-107 | what the Rust engine answers, unknown identifiers included, is truthful about every graph |
| EndToEnd.Ask | runners/rust/benchrs/src/graph/ops.rs:87-92 | asking through a reused scratch collects what an engine giving those answers would, seeds from the front, for any seeds |
| EndToEnd.RunEngine | runners/rust/benchrs/src/graph/ops.rs:93-143 | over the engine itself, the same rows in the same order, each scored on what an engine giving its answers collects |
| EndToEnd.Benchmark | README.md:104-108 | for every edge list, plan, seed list and choice of operations: either the inputs are refused, or there is exactly one row for each chosen operation, run as often as planned, with no mismatch |
| TopList.SkipKeeps | runners/rust/exact/src/main.rs:399-401 | skipping a candidate no better than the worst of a full list keeps the first k |
| TopList.InsertKeeps | vectors/metric.go:216-223 | inserting behind equals and cutting back to k keeps the first k |
| Metrics.SquaredGrows | runners/rust/exact/src/main.rs:385-387 | a partial sum of squares never exceeds the full one |
| Metrics.DotIsBilinear | runners/rust/exact/src/main.rs:440-442 | symmetric, additive and homogeneous |
| Metrics.DotWithUnit | runners/rust/exact/src/main.rs:440-442 | against a unit vector it gives that component, so none is left out |
| Metrics.SquaredIsDots | runners/rust/exact/src/main.rs:410-438 | the squared distance is the inner product of the difference with itself, multiplied out |
| Metrics.NormMeans | vectors/metric.go:113-130 | the length divided by is the root of the inner product with itself, one for zeros |
| Metrics.SquareRootIsRoot | vectors/metric.go:125 | the exact square root is one of the roots the model allows |
| Metrics.NormsAgree | vectors/metric.go:125-128 | asking before or after the root gives the same positive length |
| Metrics.ScoresOrderAlike | runners/rust/exact/src/main.rs:393-396 | leaving out the query's length never changes which of two vectors is nearer |
| Metrics.NearerMeans | runners/rust/exact/src/main.rs:382-398 | a smaller score is a smaller distance, a larger product or a larger cosine |
| Metrics.CosineIgnoresLength | vectors/metric.go:206-210 | with an exact root, making a vector longer does not change its cosine |
| Metrics.SameNearest | vectors/metric.go:191-211 | the first k under the Rust scores are the first k under the Go scores, for each metric |
| ExactScan.Open | runners/rust/exact/src/main.rs:266-283 | the lengths kept for cosine are those of the rows, one where a row is zero |
| ExactScan.Squared | runners/rust/exact/src/main.rs:410-438 | nothing exactly when the full sum reaches the bound, else the full sum |
| ExactScan.Score | runners/rust/exact/src/main.rs:285-298 | the full score that the search ranks by |
| ExactScan.Nearest | runners/rust/exact/src/main.rs:366-407 | exactly the first k of all vectors ordered by full score, then identifier |
| ExactScan.NearestMeans | runners/rust/exact/src/main.rs:366-407 | the answer, said of the vectors: so many, each in front of the next and of all that are left out |
| ExactScan.Serial | runners/rust/benchrs/src/vector/search.rs:43-61 | row q holds the nearest of query q, padded with -1 to k |
| ExactScan.AuditRow | runners/rust/exact/src/main.rs:339-361 | missed and wrong are the numbers of positions of one truth row not returned, and not returned without a right to be |
| ExactScan.Disagreements | runners/rust/exact/src/main.rs:319-363 | missed is the number of truth positions not returned for their query, wrong at most that; everything unexplained when there is nothing to check against |
| ExactScan.AuditIsExact | runners/rust/exact/src/main.rs:301-313 | against a true top-k, nothing is wrong exactly when the returned row is a true top-k too |
| ExactScan.MissedNeighboursTie | runners/rust/exact/src/main.rs:179-181 | when nothing is wrong, each missed neighbour scores exactly what the worst returned one does |
| ExactScan.VerdictIsExact | runners/rust/exact/src/main.rs:159-178 | over all queries the audit finds nothing wrong exactly when every answer is a true one |
| ExactScan.EveryMissTies | runners/rust/exact/src/main.rs:173-181 | over the whole query set, when nothing is wrong every true neighbour not returned scores exactly what the worst returned one does |
| ExactScan.FirstIsTop | runners/rust/exact/src/main.rs:366-407 | what the scan itself returns is a true top-k |
| VectorTruth.InsertAt | vectors/metric.go:217-219 | the shift and write in place is an insertion at that position |
| VectorTruth.NormsOf | vectors/metric.go:113-130 | the length of every base vector when the metric is cosine, one where a row is zero |
| VectorTruth.TopK | vectors/metric.go:179-225 | the reused slice ends up holding the first depth candidates in order with their scores |
| VectorTruth.TruthRow | vectors/metric.go:150-155 | a truth row is exactly depth identifiers long and is the first depth of all vectors |
| VectorTruth.TruthRowMeans | vectors/metric.go:174-178 | a truth row, said of the vectors: the nearest first, ties to the lower position, nearer than all left out |
| VectorTruth.WorkFor | vectors/metric.go:113-155 | the norms are computed once and every query has its truth row, from one list that is used again |
| VectorTruth.ExactTopK | vectors/metric.go:91-167 | succeeds exactly for positive sizes, whole rows and enough vectors; then, under every schedule of the workers, the result is the truth for every query |
| VectorTruth.Recall | vectors/vectors.go:182-211 | zero for shapes that cannot be scored, else the number of positions whose identifier is among the first k of its truth row, over all positions |
| VectorTruth.ScheduledTruth | vectors/metric.go:132-167 | every finished run of the work leaves the truth for every query |
| Baseline.TruthRowIsScanRow | runners/rust/exact/src/main.rs:384-398 | the first k of a truth row are the first k under the scan's own scores, for each metric |
| Baseline.ScanAgreesWithTruth | runners/rust/benchrs/src/vector/data.rs:125-131 | the scan returns exactly the first k of the deeper truth row, under every metric |
| Baseline.RecallOfScan | runners/rust/exact/src/main.rs:143-145 | scanned for and scored, the recall is one if there is a query and the truth is deep enough, else zero |
| Baseline.ExactRecall | vectors/metric.go:62-68 | truth computed under any schedule and then scanned for: refused for the reasons of the check, else recall is exactly one |
| Baseline.TruthIsTop | runners/rust/exact/src/main.rs:301-313 | a computed truth row is a true top-k under the scan's scores, which is what the audit needs |
| Baseline.Audit | runners/rust/exact/src/main.rs:159-182 | against the computed truth, nothing is wrong exactly when every answer is a true one, and then every miss is a tie |
| CursorPool.EveryIndexExactlyOnce | runner/graph.go:403-452 | in every finished run each index below count was called once, count timings exist and the cursor ends at count plus workers |
| CursorPool.NeverTwice | runners/rust/benchrs/src/graph/ops.rs:191-218 | at no point of any run was an index called twice or one outside the range called |
| CursorPool.AlwaysAbleToMove | runners/rust/benchrs/src/vector/search.rs:81-106 | no schedule stalls while a worker is still there |
| CursorPool.RunsEndOnTime | runners/rust/benchrs/src/vector/search.rs:63-106 | every run is finished exactly after 2 * (count + workers) steps |
| CursorPool.ScheduleExists | runner/graph.go:421-441 | from any start the workers can be run to the end |
| RowPool.CellsApart | vectors/metric.go:153-155 | no two rows share a cell of the flat output |
| RowPool.EveryScheduleIsSequential | vectors/metric.go:132-167 | for every interleaving the output is the sequential one, each row written in full by its one worker; progress counts 1 to the number of queries, and nothing without a callback |
| RowPool.AlwaysAbleToMove | vectors/metric.go:139-165 | no schedule stalls before every worker has left |
| RowPool.RunsEndOnTime | vectors/metric.go:139-166 | every run is finished exactly after a fixed number of steps, which depends on whether there is a callback |
| RowPool.ScheduleExists | vectors/metric.go:139-165 | from any start the workers can be run to the end |
| Corpus.SplitJoins | runners/rust/benchrs/src/corpus.rs:115-118 | the line list used in the claims is the one way to write the file as lines joined by newlines |
| Corpus.NonEmptyKeeps | runners/rust/benchrs/src/corpus.rs:115-123 | every non-empty line is kept as often as it is there, and no empty one |
| Corpus.NonEmptyInOrder | runners/rust/benchrs/src/corpus.rs:115-123 | lines are kept in order |
| Corpus.NonEmptyOfOne | runners/rust/benchrs/src/corpus.rs:116-118 | one line is kept exactly when it is not empty |
| Corpus.ReadRange | runners/rust/benchrs/src/corpus.rs:86-126 | reads exactly the non-empty lines of the text from where this range begins to where the next one does |
| Corpus.RangesMeet | runners/rust/benchrs/src/corpus.rs:101-107 | two neighbouring ranges read what one range over both would, wherever the cut falls |
| Corpus.WholeFileLines | runners/rust/benchrs/src/corpus.rs:108-123 | read as one range the file gives its non-empty lines in order |
| Corpus.Shards | runners/rust/benchrs/src/corpus.rs:78-84 | the cuts, one shard at least |
| Corpus.ShardsAreEven | runners/rust/benchrs/src/corpus.rs:69-70 | shards differ by at most a byte in size |
| Corpus.ShardsAreTheCorpus | runners/rust/benchrs/src/corpus.rs:181-184 | for every file and shard count the shards together are the corpus, in order, nothing twice and nothing missed |
| Corpus.ReadShards | runners/rust/benchrs/src/corpus.rs:69-77 | cutting, reading every range and putting the results together gives every non-empty line as often as the file holds it, in order |
| Sampling.Seeds | graphs/reference.go:160-186 | the shuffle in place, run as far as needed, gives the sample defined by the draws |
| Sampling.ShuffledRearranges | graphs/reference.go:169-179 | whatever is drawn the order stays a permutation |
| Sampling.MixIsSplitmix64 | graphs/reference.go:158-176 | the published first outputs of the generator |
| Sampling.StatesMoveOn | graphs/reference.go:170-173 | the state starts at twice the constant and moves on by it every draw |
| Sampling.PickIsRemainder | graphs/reference.go:172-177 | a draw picks the output's remainder among the positions left |
| Sampling.AllIsLeft | graphs/reference.go:164-167 | before the first draw every index is there, in order |
| Sampling.DrawTakes | graphs/reference.go:177-178 | of what is left a draw takes the element it picked and leaves all the others |
| Sampling.SampleIsWhatWasDrawn | graphs/reference.go:181-185 | the sample is what the draws took, in order |
| Sampling.SeedsAreDistinctNodes | graphs/reference.go:149-156 | seeds are different nodes of the graph |
| Sampling.FewerSeedsAreAPrefix | graphs/plan.go:53-56 | a smaller sample is the beginning of a larger one |
| Induced.Subgraph | graphs/subgraph.go:24-69 | the whole list if small enough, else in order exactly the edges between the n lowest identifiers and the count of nodes left with an edge; the errors |
| Induced.BetweenCounts | graphs/subgraph.go:50-58 | an edge survives as often as it was there if both ends are kept, and not at all otherwise |
| Induced.KeptInOrder | graphs/subgraph.go:48-61 | a surviving edge comes behind as many as survive of those before it |
| Induced.StaysUndirected | graphs/subgraph.go:18-20 | if every edge is there as often as its reverse, that is still so afterwards |
| Induced.DistancesNeverShorten | graphs/subgraph.go:10-23 | the arcs left are exactly those between kept nodes and no distance gets shorter |
| Induced.MaxId | graphs/subgraph.go:71-80 | the largest identifier, zero for no edges |
| Bytes.WordsRoundTrip | graphs/edgefile.go:75-81 | words that fit their width come back as they were written |
| Bytes.LittleEndianAt | graphs/edgefile.go:67-70 | byte i of a word is its digit of the 256s that many places up |
| EdgeFile.WriteHeader | graphs/edgefile.go:65-73 | the header buffer filled in place is the magic and four little endian fields |
| EdgeFile.WriteEdges | graphs/edgefile.go:54-86 | refuses a count that disagrees, else header and edges one after another |
| EdgeFile.ReadEdges | graphs/edgefile.go:124-148 | believes the header, then succeeds exactly when twice the count is a size, and holds the rest of the file as words |
| EdgeFile.RustEdges | runners/rust/benchrs/src/graph/data.rs:86-115 | the same for the second reader |
| EdgeFile.SizeCheckIsModulo | graphs/edgefile.go:111-121 | a file of at least a header is accepted exactly when its size fits the count modulo 2 to the 61, in both readers |
| EdgeFile.SizeCheckMeansSize | runners/rust/benchrs/src/graph/data.rs:49-54 | exactly when the check tells a whole file from a broken one |
| EdgeFile.SizeCheckWraps | runners/rust/benchrs/src/graph/data.rs:75-84 | a bare header that claims 2 to the 61 edges and passes both readers |
| EdgeFile.ReadersAgree | runners/rust/benchrs/src/graph/data.rs:55-84 | on every file the two readers accept and refuse alike, for the same reason, and agree on the header where its counts fit a signed number |
| EdgeFile.EdgesRoundTrip | graphs/edgefile.go:49-148 | what is written is what both readers read, header and edges |
| EdgeFile.FileLayout | graphs/edgefile.go:54-86 | where every field and every identifier is in a written file |
| EdgeFile.PrefixesAreRefused | graphs/edgefile.go:111-113 | every strict prefix of a written file is refused by both readers |
| EdgeFile.SeedsRoundTrip | graphs/edgefile.go:150-186 | a seed file gives back the seeds in order |
| CsrFile.Write | runners/rust/csr/src/main.rs:277-293 | magic, counts, flag and three arrays one after another |
| CsrFile.StoreLayout | runners/rust/csr/src/main.rs:277-293 | where the counts, the flag and every entry of the three arrays are in a written store |
| CsrFile.ReadArray | runners/rust/csr/src/main.rs:498-518 | a buffer of the product modulo 2 to the 64 is refused if too large to make or longer than what is left, else holds as many words as fit it |
| CsrFile.Open | runners/rust/csr/src/main.rs:295-318 | opens exactly files with the magic and enough bytes for the buffers that are asked for, and decodes the arrays |
| CsrFile.OpeningMeansSize | runners/rust/csr/src/main.rs:305-311 | exactly when opening a file means that it holds the counts in its head |
| CsrFile.OpeningWraps | runners/rust/csr/src/main.rs:498-518 | 32 bytes that claim 2 to the 62 nodes and open as a graph without any |
| CsrFile.WrittenIsOpened | runners/rust/csr/src/main.rs:277-318 | a written store opens as the same identifiers, offsets, targets and flag, whatever follows in the file |
| CsrFile.CutStoreIsRefused | runners/rust/csr/src/main.rs:295-311 | a store cut short anywhere is refused |
| CsrFile.BuiltFits | runners/rust/csr/src/main.rs:216-246 | every graph built from a list that memory can hold fits the words it is written in, and the file has a size that can be counted |
| CsrFile.Reopened | runners/rust/csr/src/main.rs:277-319 | built, written and opened again it is the same graph, still that of the edge list |
| VectorFile.WriteIvecs | vectors/vectors.go:135-174 | refuses a partial row, else one record per row |
| VectorFile.FileLayout | vectors/vectors.go:152-165 | every row behind its dimension, every value in its four bytes |
| VectorFile.ReadIvecs | runners/rust/benchrs/src/vector/data.rs:82-123 | the shape from the first record and the size; accepted exactly when every header that is checked agrees; the values of every record up to the limit |
| VectorFile.IvecsRoundTrip | vectors/vectors.go:36-174 | rows the writer accepts read back exactly, up to the limit and in both languages, if and only if there are any and they hold at most 2 to the 20 values |
| VectorFile.WideRowIsRefused | vectors/vectors.go:59-61 | one row of 2 to the 20 and one values: written, then refused |

## Left out

- Floating point: scores and ranks are exact reals, so rounding, NaN, infinities other than the initial bound, and bit-level agreement between languages are not modelled.
- The square root: any function that is zero at zero and positive above it.
- Library routines: sorting, binary search, hash maps, channels, atomics and joins are taken at their contracts.
- SQL: tables are sequences and sets of rows, a query answers with some arrangement of the rows that match, and a node's row order is the same each time it is asked; query errors (answer -1), indexes, transactions and preparation are not modelled.
- Row expansion, the count-then-fill loops and PageRank over rows are written once for Go and Rust, because their statements are the same; a difference between the two at that grain is not represented; the same holds for the two harnesses, the two recall functions and the two vector file readers, where the one difference (which record headers are compared) is a parameter.
- Integer widths: node indexes must fit int32 in Go, which is a precondition of at most 2 to the 31 nodes; a list of identifiers must fit in half a 64-bit address space; vector positions, plan counts, offsets in memory and the products in index arithmetic are unbounded.
- SqliteEngine.PageRanked: promises the ranking for graphs in which every out degree fits int32 (`SqliteEngine.NarrowedDegrees`); beyond that the code divides by a wrapped count, possibly zero, and an infinite share is not a real number.
- RowPool: the row of a query is a value of the job, computed the same by whichever worker receives it (`VectorTruth.TruthRow` shows it does not depend on what the reused list held).
- Corpus.Shards: does not model wrap-around of the 64-bit product of file length and shard number, which no file that exists reaches.
- Rust's stamp counter wraps as it does with overflow checks off; with them on the program stops after 2 to the 32 resets.
- Reference.Answer: negative operation counts are excluded, because making a slice with one stops the program; answers are a record and not a map or JSON; the progress callback is left out.
- EdgeFile.ReadEdges: a slice too large to make stops the program and is an error value here; memory running out is not modelled otherwise.
- Corpus.ReadRange: a line is bytes, so parse errors and a callback that stops early are left out; the whole-file reader's stripping of carriage returns is not part of this model.
- Harness.RunOps: an engine is a record of functions; seconds and percentiles of the two passes are left out. A timing is represented by the index it times.
- CsrFile.ReadArray: a buffer too large to make stops the program and is an error value here; the arithmetic is that of the release profile, without overflow checks.
- Baseline.ExactRecall: asks for at least one neighbour, as the configuration does (runners/rust/benchrs/src/vector/config.rs:154).
- Files, processes, clocks, deadlines, flags, usage counters and the network: input and output are byte sequences and parameters.
- The runner built on the petgraph library, the other engines' wrappers, report rendering, notes, downloads and machine records: libraries that are not shown, or claims that would be easy.
- Statistical quality of the seed sample: only that draws are in range, fixed and the same in every run.
