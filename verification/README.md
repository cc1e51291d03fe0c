# Graph<T, K> in Dafny

This project models the class `Graph<T, K>` of Graph.java. It is a small
in-memory graph that keeps two views of the same edges:

- an adjacency matrix, `adjMatrix`;
- one neighbour list per vertex, `Vertex.edges`.

It offers:

- two constructors;
- three random generators (undirected, directed, directed-acyclic);
- `connectTo`, which adds one edge between two payloads;
- two queries: `makeEdgeList` and `nonAdj`;
- a FIFO breadth-first search, `BFS`, with path reconstruction in `pathTo` and `unVisitAll`;
- `colorBFS`, a greedy recolouring done during a FIFO traversal from vertex 0.

The model is imperative, like the source.

- **`Graphs.Graph`.** A class in which a vertex is its index. The fields of
  Java's `Vertex` objects become per-vertex arrays: `edges`, `nDegree`,
  `visited`, `parent` and `color`. `payload` is a sequence.
- **Matrix.** `adjMatrix` is an `array2<int>`.
- **The fields `edgeList` and `nonAdjMap`.** These are class fields that
  the methods reassign.
- **Loops.** The loops of the source that update state are `while` loops
  with invariants. The exception is `instantiateVertices`
  (Graph.java:105-107): its loop only fills fresh `Vertex` objects, so
  the constructors build the per-vertex arrays and the payload sequence
  directly. Several loops are separate methods, each with its own
  contract:
  - the inner loops of the matrix constructor and of the two random
    generators for general graphs;
  - the neighbour scans of `BFS` and `colorBFS`;
  - the queue loop of `BFS` (`SearchQueue`);
  - the first loop of `colorBFS`, which paints every vertex `colors[0]`
    (`PaintAll`);
  - its queue loop (`ColorQueue`), whose round is `ColorRound`.

  The inner loops of `randomDirectedAcyclicGraph`, `makeEdgeList` and
  `nonAdj` stay nested in their method.
- **Queue.** The FIFO queue `MyQueue` is a `seq<nat>`: dequeue takes
  `q[0]`, enqueue appends.
- **Reference equality.** Vertex identity is index equality. This matches
  `ArrayList.contains` on `Vertex`, which has no `equals` of its own.
- **Payload equality.** `equals` on payloads is Dafny equality on `T`.

Supporting modules:

- **`Selections`.** The increasing index lists every scan in the class builds.
- **`Walks`.** Walks and reachability over neighbour lists.
- **`Measure`.** The termination measure for the two queue loops. Each
  queue entry carries a ghost level, and the measure is the sum of
  (D + 1)^level, where D is the longest neighbour list.
- **`Search`.** The BFS invariants, stated over value snapshots of the
  arrays.
- **`Coloring`.** The colorBFS invariants and the recolouring replayed
  over a dequeue order.
- **`Traces`.** The FIFO discipline as a replay over values. From the
  flags and a queue, `Replay` dequeues a given order one vertex at a
  time: it marks the head and appends its unvisited list entries, in list
  order. The queue fixes each next vertex, so from one start only one
  order replays. The queue methods of `BFS` and `colorBFS` are proved to
  follow that replay, so their dequeue order, marks, parent links and
  colours are all determined.
- **`EdgeLists`.** The upper-triangle edge list and its round trip for
  undirected matrices.

Where the code behaves differently from what a reader might expect, the
model follows the code:

- **Matrix constructor.** It appends with `edges.add` (Graph.java:95), so
  `nDegree` stays 0.
- **Payload lookup in `connectTo` and `BFS`.** The scans keep the *last*
  matching vertex. In `connectTo` a missing payload defaults to vertex 0.
- **`connectTo` on an existing edge.** When an edge already exists, the
  `nDegree` bumped is that of the first neighbour holding the target
  payload. This is not necessarily the located target vertex.
- **Diagonal.** `randomDirectedGraph` draws for the diagonal too.
  `randomUndirectedGraph` never writes it.
- **`randomDirectedAcyclicGraph`.** It writes only cells above the
  diagonal, and appends every j > i to the list of i whatever was drawn.
- **`nonAdj`.** It recomputes its table on every call.
- **`BFS`.** It sets `visited` at dequeue time, so it does not guarantee
  shortest paths.
- **`colorBFS`.** The neighbour scan re-reads the dequeued vertex's colour
  at every step. It gives the k-th clashing neighbour `colors[k]`, which
  may equal the dequeued vertex's own colour.

## Model

| member | source | states |
|---|---|---|
| Graphs.Graph.constructor | Graph.java:81-85 | n vertices with the payloads in input order; an all-zero n×n matrix, empty neighbour lists, nDegree 0, no colour, nothing visited and no parent |
| Graphs.Graph.FromMatrix | Graph.java:87-101 | the caller's matrix becomes adjMatrix with no copy; vertex i's list is exactly the j with adj[i][j] != 0, in increasing j; the two views agree; every nDegree stays 0 |
| Graphs.Graph.ScanRow | Graph.java:93-97 | one row of the matrix constructor: only vertex i's list changes, and it becomes the nonzero columns of row i, in order |
| Graphs.NonzeroIndicesMember | Graph.java:92-98 | the list the matrix constructor builds holds j exactly when row[j] != 0, is strictly increasing and stays within the row |
| Selections.SelectMember | Graph.java:93-97 | an ordered scan that keeps the indices passing a test holds exactly those indices, in strictly increasing order |
| Graphs.Graph.AddEdge | Graph.java:24-28 | `from` appends `to` to its list and to's nDegree grows by one; nothing else changes |
| Selections.LastMatch | Graph.java:221-228 | the index a payload scan keeps is the last position holding the payload, and None exactly when no vertex holds it |
| Graphs.IndexOrZero | Graph.java:219-228 | the index connectTo uses is the last vertex holding the payload, or 0 when none does |
| Graphs.Graph.Locate | Graph.java:323-330 | the payload scan of BFS and connectTo returns, for both payloads, the last vertex holding each |
| Selections.FirstMatch | Graph.java:231-237 | the neighbour scan of connectTo stops at the first neighbour holding the payload; None means no neighbour holds it |
| Graphs.Graph.ConnectTo | Graph.java:215-244 | adjMatrix[v][w] becomes 1 and no other cell changes; if a neighbour of v already holds wData, no list changes and the first such neighbour's nDegree grows by one; otherwise v appends w and w's nDegree grows by one; agreement of the two views is kept when payloads are distinct |
| Graphs.Graph.RandomUndirectedGraph | Graph.java:173-191 | cells (i, j) and (j, i) both get the draw for i < j; the diagonal is unchanged; each vertex's list grows by the vertices whose pair drew 1, and its nDegree by as many; from an edgeless graph with zero diagonal the views agree |
| Graphs.Graph.UndirectedRow | Graph.java:176-189 | row i of the undirected generator writes only row i right of the diagonal and its mirror cells, and appends what those draws give |
| Graphs.Graph.UndirectedCell | Graph.java:179-188 | one pair's draw goes to both mirror cells; on a 1 each end appends the other; no other cell changes |
| Graphs.UndirectedAddsMember | Graph.java:185-188 | the undirected generator appends u to v exactly when the draw for the pair {u, v} was 1, and never appends v to itself |
| Graphs.UndirectedAddsSymmetric | Graph.java:182-188 | u is appended to v exactly when v is appended to u |
| Graphs.UndirectedRowStep | Graph.java:176-189 | a row's appends are its cells' appends in column order |
| Graphs.UndirectedRowDone | Graph.java:175-190 | finishing row i adds that row's appends to what rows 0 .. i-1 gave |
| Graphs.Graph.RandomDirectedGraph | Graph.java:192-203 | every cell, the diagonal included, gets its own draw; vertex i appends exactly the j whose draw was 1, in increasing j; nDegree counts the 1s in the column; from an edgeless graph the views agree |
| Graphs.Graph.DirectedRow | Graph.java:195-201 | one row of the directed generator writes row i only and appends the columns that drew 1 |
| Graphs.Graph.RandomDirectedAcyclicGraph | Graph.java:204-213 | only cells above the diagonal are written, each with its draw; the diagonal and lower triangle are unchanged; vertex v appends every j > v whatever was drawn, and nDegree of v grows by v |
| Graphs.Graph.MakeEdgeList | Graph.java:246-255 | edgeList becomes its old value followed by the upper-triangle edges of the matrix, so repeated calls accumulate duplicates; nonAdjMap is unchanged |
| EdgeLists.RowEdgesMember | Graph.java:249-253 | one row's edges are exactly its nonzero cells right of the diagonal, in column order |
| EdgeLists.UpperRowsMember | Graph.java:248-254 | the first k rows give exactly their nonzero cells above the diagonal, in row-major order |
| EdgeLists.UpperEdgesMember | Graph.java:246-255 | the edge list holds exactly one Edge(i, j) per nonzero cell with i < j, in row-major order; the diagonal and lower triangle are never consulted |
| EdgeLists.EdgeListRoundTrip | Graph.java:246-255 | for an undirected 0/1 matrix with zero diagonal, rebuilding the matrix from the edge list gives the matrix back |
| Graphs.Graph.NonAdj | Graph.java:256-269 | nonAdjMap maps every vertex to its non-adjacency list, and the method returns that map; edgeList is unchanged |
| Graphs.NonAdjacentMember | Graph.java:258-265 | w is in v's list exactly when neither v's list holds w nor w's list holds v; the list is in increasing vertex order |
| Graphs.NonAdjacentSymmetric | Graph.java:262-263 | w is in v's non-adjacency list exactly when v is in w's |
| Graphs.NonAdjacentSelf | Graph.java:262-263 | a vertex is in its own list exactly when it is not its own neighbour |
| Graphs.Graph.UnVisitAll | Graph.java:370-375 | afterwards no vertex is visited |
| Graphs.ParentCycle | Graph.java:357-375 | the parent links that two failed searches leave (derived by TwoFailedSearches) on the graph 0 - 1 with a lone vertex 2 admit no ranking, and every parent chain from vertex 0 ends at a vertex that still has a parent |
| Graphs.TwoFailedSearches | Graph.java:338-355 | on payloads X, Y, Z with edges 0 - 1: the search from Y for Z replays [1, 0] and runs dry, leaving parent[0] = 1; the search from X that follows replays [0, 1] and runs dry, and over the links left before it leaves parent[0] = 1 and parent[1] = 0 |
| Graphs.Graph.ResetSearch | Graph.java:370-375 | clearing parents as well as visited flags leaves no mark of an earlier search, the state pathTo's guarantees need |
| Graphs.Graph.EnqueueUnvisited | Graph.java:346-351 | the queue grows by exactly the unvisited entries of v's list, in list order, even those already waiting in the queue; each of them gets v as parent; no other parent changes; every neighbour of v is queued or visited |
| Search.UnvisitedInMember | Graph.java:346-351 | the entries a neighbour scan enqueues are exactly the list entries that are unvisited vertices |
| Search.ScannedByUnvisited | Graph.java:346-351 | enqueuing the unvisited entries of v's list, in list order, completes a scan of v: each is an unvisited neighbour, and every neighbour of v is visited or queued |
| Graphs.Graph.BFS | Graph.java:319-356 | with s absent, the placeholder is returned; with e absent, the start; either way nothing is marked. Otherwise the result either holds e and is visited, or is the start with every flag cleared. s == e returns the start. When both are present, the search stops exactly where the FIFO replay from the start first meets e at the head of its queue, or runs dry; the parent links are the ones that replay sets; a result holding e is the head of the queue at that point and the flags are the replay's plus it, while any other result means the replay ran dry. From a state with no marks, parent links follow edges and form no cycle; on success the visited vertices form a tree rooted at the start; on failure no vertex reachable from the start holds e |
| Graphs.Graph.SearchFrom | Graph.java:338-355 | the queue loop of BFS followed by its failure exit: the dequeue order is the FIFO replay from the start up to the first head holding e, or the whole run; parents are those the replay sets; a found result is that head, and the flags are the replay's plus it; on failure the replay ran dry and every flag is cleared; from a state with no marks, the tree and completeness facts; it terminates |
| Graphs.Graph.SearchQueue | Graph.java:338-352 | the loop itself: every round dequeues the head, marks it and, unless it holds e, sets the parents of and enqueues exactly its unvisited list entries, so the state is the FIFO replay of the order; it exits with the head holding e just marked, or with an empty queue; with s == e the first head is the start |
| Search.FrontierStart | Graph.java:338-339 | with no marks, the queue [start] satisfies the search invariant |
| Search.FrontierStep | Graph.java:340-351 | one dequeue-mark-scan round keeps the search invariant: ranked parents, a tree of visited vertices, no visited vertex holds e, and every neighbour of a visited vertex is visited or queued |
| Search.FrontierDone | Graph.java:352-355 | when the queue runs dry, no vertex reachable from the start holds e |
| Search.RankedStep | Graph.java:346-350 | giving the enqueued neighbours parent v and rank one above v keeps every parent link on an edge and rank-increasing |
| Search.TreeStep | Graph.java:341-350 | marking the dequeued vertex and assigning parents keeps the visited vertices a tree rooted at the start |
| Search.ClosureStep | Graph.java:340-351 | after a round every neighbour of a visited vertex is still visited or in the queue |
| Search.ClosedUpToDone | Graph.java:299-316 | with an empty queue the visited vertices hold every vertex reachable from the start |
| Search.UnvisitedMark | Graph.java:301 | marking a vertex removes exactly it from the unvisited set |
| Search.LevelsStart | Graph.java:296-297 | the first queue entry gets a level above the number of unvisited vertices |
| Search.LevelsStep | Graph.java:340-351 | after a round every queued vertex still has a level above the unvisited count, more so if it is visited |
| Measure.DequeueLowersWeight | Graph.java:340-351 | replacing the head of the queue by at most D entries of a lower level lowers the termination measure, so both queue loops end |
| Graphs.Graph.ParentOf | Graph.java:363 | a vertex's parent as a reference; the placeholder and vertices without a parent have none |
| Graphs.Graph.WalkParents | Graph.java:360-364 | the path starts at the given vertex, each entry's parent is the next, the last has no parent, no vertex appears twice, and the placeholder gives a one-element path |
| Graphs.Graph.PathTo | Graph.java:357-366 | from a state with no marks: the path ends at the start, each entry is in the next entry's neighbour list, and the first is reachable from the start; with e absent or s == e it is just the start; otherwise it begins at a vertex holding e, or it is just the start and nothing reachable holds e; no vertex appears twice. The search leaves the parent links that the FIFO replay at which it stopped sets, and the path is a chain of those links; a first entry holding e is the head of that replay's queue and the flags are the replay's plus it; otherwise the replay ran dry and every flag is cleared. With s or e absent, flags and parents are unchanged |
| Graphs.ChainReachable | Graph.java:360-364 | a path whose entries each sit in the next one's neighbour list is a walk read backwards: its last vertex reaches its first |
| Graphs.ChainFollowsTrace | Graph.java:346-364 | over parent links that a FIFO replay set from no parents, every path entry after the first was dequeued by the replay, and every entry is in the list of the entry after it, so the path of pathTo follows the trace of its search |
| Graphs.ChainFollowsEdges | Graph.java:348-363 | a chain of ranked parent links follows edges backwards and its ranks fall at every step |
| Graphs.DescendingDistinct | Graph.java:360-364 | a parent chain with falling ranks lists no vertex twice, so parent links form no cycle |
| Graphs.DescendingFrom | Graph.java:360-364 | ranks that fall at each step fall over any span |
| Graphs.ChainVisited | Graph.java:360-364 | along a parent chain from a visited vertex, every vertex is visited |
| Graphs.ChainEndsAtStart | Graph.java:360-364 | a parent chain from a visited vertex ends at the start |
| Coloring.Palette | Graph.java:302-310 | the colours a counter reset per vertex can reach on lists no longer than d: the first d + 1 entries of the palette |
| Coloring.RecolorScan | Graph.java:302-310 | the neighbour scan of one dequeued vertex, step for step: one colour per vertex, and a scan fails only when the counter plus the entries left reach the palette size, so a palette longer than c + the list is never overrun |
| Coloring.RecolorAll | Graph.java:299-316 | the scans replayed over a dequeue order from given colours, stopping at the first failing scan; one colour per vertex, and a failure needs some dequeued vertex whose list is at least as long as the palette |
| Coloring.RecolorAllFailStays | Graph.java:299-316 | once the replay of the scans over a prefix of the order has failed, the replay over the whole order has failed too |
| Coloring.RecolorScanWithin | Graph.java:304-310 | the neighbour scan of v changes only the colours of vertices in v's list |
| Coloring.RecolorScanPalette | Graph.java:302-310 | with the counter at c and at most d - c entries left, a scan keeps every colour among the first d + 1 palette entries |
| Coloring.ClashSurvives | Graph.java:304-308 | a scan can hand a neighbour the dequeued vertex's own colour: with both coloured 1 and palette [0, 1, 2], the neighbour gets colors[1] = 1 and the scan succeeds with the clash in place |
| Coloring.RecolorAllStep | Graph.java:299-315 | dequeuing v after a successful replay of the earlier order scans v's list from the colours the replay left |
| Coloring.RecolorAllPalette | Graph.java:296-316 | over any dequeue order, colours that start among the first d + 1 palette entries stay there when no list is longer than d |
| Coloring.DequeuedStep | Graph.java:300-301 | dequeuing and marking a vertex reachable from 0 keeps every vertex of the order marked and reachable |
| Coloring.ColorTraceStep | Graph.java:299-315 | one colorBFS round keeps the colour trace: the order grows by the head of the FIFO replay's queue, the flags and queue are the replay's one round on, and the colours and ok are RecolorAll over the longer order |
| Coloring.ColorTraceDone | Graph.java:299-316 | a trace whose queue is empty or whose last scan failed is finished, and its flags mark exactly the starting marks and the dequeued vertices |
| Coloring.ColorTraceNotLonger | Graph.java:296-316 | a finished colour trace is no proper prefix of another finished trace from the same start |
| Coloring.ColorTraceUnique | Graph.java:291-317 | two finished colour traces from the same flags, colours and palette have the same order, flags, colours and outcome: colorBFS has exactly one result |
| Coloring.UnmarkedKeepColor | Graph.java:292-316 | once every vertex reachable from 0 is marked, a vertex left unmarked still holds colors[0] |
| Traces.Dequeue | Graph.java:340-351 | one FIFO round marks the head and leaves a queue no longer than the old tail plus the head's list |
| Traces.Replay | Graph.java:338-352 | the state after a given dequeue order; None unless each vertex is the queue's head at its turn; the empty order leaves the start unchanged |
| Traces.ReplayStep | Graph.java:340-351 | a replay extends by the head of its queue, giving the state one round later |
| Traces.ReplayOnlyHead | Graph.java:340-341 | a replay extends by no vertex other than the head of its queue |
| Traces.ReplayPrefix | Graph.java:340-351 | every prefix of a replayable order replays |
| Traces.ReplayLast | Graph.java:340-341 | the last vertex of a replayable order is the head of the queue its prefix leaves |
| Traces.ReplayDeterministic | Graph.java:340-351 | two replayable orders from one start agree on their common length |
| Traces.HeadAfterPrefix | Graph.java:340-341 | when a replay goes past a prefix, its next vertex is the head of the queue that prefix leaves |
| Traces.RunIsUnique | Graph.java:340-352 | a replay that empties the queue has every replay from the same start as a prefix, so there is one full run |
| Traces.ReplayMarks | Graph.java:341-342 | after a replay a vertex is visited exactly when it was before or was dequeued |
| Traces.StoppedUnique | Graph.java:340-352 | a search for e stops after exactly one order: the FIFO run up to the first head holding e, or the whole run |
| Traces.StoppedLonger | Graph.java:340-352 | no stopping order is a proper prefix of another |
| Traces.SetParent | Graph.java:346-350 | exactly the listed vertices get the dequeued vertex as parent; the others keep theirs |
| Traces.ParentsAfterStep | Graph.java:346-350 | one more round sets the parents of exactly the vertices it enqueues, overwriting earlier links |
| Traces.ParentsAfterLink | Graph.java:346-350 | every link the rounds change points at a dequeued vertex whose list holds the child |
| Traces.SearchTraceStep | Graph.java:340-351 | a round whose head does not hold e extends the search trace: replay, parents and the no-e order all grow by that head |
| Traces.SearchTraceStops | Graph.java:340-352 | a search trace whose queue is empty or whose head holds e is where the search stops |
| Traces.FailedSearchOnPair | Graph.java:338-352 | from a, on two unvisited vertices that list only each other and neither hold e, the search dequeues a then b, runs dry and links b to a |
| Graphs.Graph.ScanNeighbours | Graph.java:302-315 | the colours left and ok are exactly the scan RecolorScan of v's list from the old colours, ok being false where the counter passes the palette; on success the queue grows by exactly the unvisited entries of the list, in list order |
| Graphs.Graph.RecolorNeighbours | Graph.java:302-315 | the colours and ok are exactly RecolorScan of v's list; only neighbours of v change colour; every colour stays a palette entry within the bound; a list shorter than the palette never overruns it; on success the queue grows by exactly v's unvisited neighbours in list order, so every neighbour of v is visited or queued |
| Graphs.Graph.ColorRound | Graph.java:300-315 | marks exactly the dequeued vertex; the colours and ok are RecolorScan of its list; on success the queue becomes its tail followed by the unvisited entries of the list, in list order; the dequeue order grows by that vertex, and the colour trace invariant is kept: the order is the FIFO replay from vertex 0, the colours are RecolorAll over it and a failure is this scan's; the reachability and level invariants hold and, on success, the measure falls |
| Graphs.Graph.ColorQueue | Graph.java:296-316 | starting from the queue [0], runs rounds until the queue is empty or a scan fails; the order starts at 0 and the colour trace holds with the queue left, which is empty on success; every list shorter than the palette means success; colours stay palette entries and only reachable vertices leave colors[0] |
| Graphs.Graph.ColorSearch | Graph.java:296-316 | from all vertices holding colors[0], the queue loop of colorBFS ends and returns the dequeue order, which starts at vertex 0 and is the FIFO run from [0] (on failure, that run up to the failing vertex); the flags afterwards mark exactly the old marks and the order; the colours and ok are exactly the scans replayed over that order, a failure being the last scan's; colours stay palette entries; only vertices reachable from 0 change from colors[0]; with every list shorter than the palette it succeeds; from no marks, success visits every vertex reachable from 0 and unvisited vertices keep colors[0] |
| Graphs.Graph.ColorBFS | Graph.java:291-317 | with no vertex or an empty palette it fails with nothing changed; otherwise every vertex is painted colors[0] and the returned dequeue order is the FIFO run from [0], up to the failing vertex on failure; the flags mark exactly the old marks and that order; the colours and ok are exactly the scans replayed over it, with ColorSearch's guarantees |
| Graphs.Graph.PaintAll | Graph.java:292-294 | every vertex gets colour c |
| Coloring.RecolorReachable | Graph.java:304-310 | recolouring neighbours of a vertex reachable from 0 keeps every recoloured vertex reachable from 0 |
| Coloring.VisitedSinceMark | Graph.java:301 | marking a vertex reachable from 0 keeps every new mark on a reachable vertex |
| Coloring.QueueReachableStep | Graph.java:312-314 | enqueuing neighbours of a reachable vertex keeps the queue reachable from 0 |
| Coloring.QueueStep | Graph.java:299-315 | one colorBFS round keeps the queue reachable, the levels consistent and the visited set closed up to the queue, and lowers the measure |
| Walks.ReachableStep | Graph.java:346-349 | a neighbour of a reachable vertex is reachable |
| Walks.NeighboursReachable | Graph.java:304-314 | every neighbour of a reachable vertex is reachable |

## Left out

- Printing and formatting are not modelled: `toString`, the `print*`
  methods, `printMatrixCodeForm`, `printNonAdj`, `Edge.printEdge`,
  `pathString`, and the debug `println` inside `colorBFS`. They produce
  console output only.
- `main` is not modelled. It is a demonstration client.
- `java.util.Random` is replaced by a parameter `bit: (nat, nat) -> bool`,
  the draw for cell (i, j). Every outcome of the generator is such a
  function.
- `MyQueue` is not part of this model. It is used as a FIFO `seq`.
- Null payloads are not modelled. Payloads are values, and `equals` is
  Dafny equality. The placeholder vertex that `BFS` allocates, whose
  payload is null, is `Ref.Placeholder`.
- Graphs.Graph.FromMatrix: requires an n×n matrix, n being the number of
  payloads. The source loops over the matrix's own bounds
  (Graph.java:92-97). It therefore also accepts a matrix with fewer rows,
  ragged rows, or extra rows and columns that hold only zeros. Later
  methods then skip vertices or index past the matrix. An `array2`
  cannot be ragged, and the model keeps to the square matrix the class is
  built around.
- Graphs.Graph.ConnectTo: requires at least one vertex. On an empty graph
  the source throws at `vertices[0]` before changing anything.
- Graphs.Graph.ColorBFS: the index error of an exhausted palette is a
  result `ok == false`, together with the recolouring done so far. The
  same result covers `vertices[0]` on an empty graph and `colors[0]` on an
  empty palette; those leave the state unchanged.
- Graphs.Graph.ColorBFS: the colouring is not claimed to be proper,
  because the source does not guarantee it. A neighbour recoloured by one
  vertex can clash with another, and Coloring.ClashSurvives shows a scan
  handing a neighbour the dequeued vertex's own colour.
- Graphs.Graph.ColorBFS: a null palette entry is not modelled. Palette
  entries are values. In the source, a null colour makes the `equals`
  call at Graph.java:306 throw a NullPointerException.
- Graphs.Graph.ColorBFS: `visited` flags are never cleared by `colorBFS`.
  A later `pathTo` on that state is outside the precondition of
  Graphs.Graph.PathTo.
- Graphs.Graph.BFS: the tree, rank and completeness facts are stated only
  for a start with no visited flags and no parents. A successful search
  leaves flags and parents set. A later search on that state is still
  pinned down by the FIFO replay from the flags and parents it finds, but
  no tree or reachability fact is stated for it.
- Graphs.Graph.PathTo: requires a state with no visited flags and no
  parents, for the same reason. `unVisitAll` clears only the flags, so
  after two failed searches the parent walk can cycle forever (see
  Findings).
- Graphs.Graph.BFS: no shortest-path claim. `visited` is set at dequeue,
  and a vertex queued twice has its parent overwritten, so the code does
  not guarantee shortest paths.
- Graphs.Graph.AddEdge: `nDegree` is an unbounded integer. Java's 32-bit
  `int` would wrap only after 2^31 increments of one vertex.
- Update-in-place aliasing of `Vertex` objects is not modelled, because
  vertices are indices. For the same reason, the vertex keys of
  `nonAdjMap` and the vertex pairs of `Edge` are indices.

## Findings

| source | as written | input that shows it | evidently intended | confidence | as-written member | corrected member |
|---|---|---|---|---|---|---|
| Graph.java:370-375 | `unVisitAll` resets `visited` after a failed search but leaves every `parent` link set | payloads [X, Y, Z], matrix {{0,1,0},{1,0,0},{0,0,0}}: `pathTo(Y, Z)` fails and leaves parent[X] = Y; `pathTo(X, Z)` then sets parent[Y] = X and fails; its parent walk cycles X, Y, X, … forever (Graphs.TwoFailedSearches derives both searches' links from their FIFO replays) | a failed search leaves no mark, so a later `pathTo` starts as on a fresh graph (the comment at Graph.java:371-372 asks for that) | medium, not executed | Graphs.ParentCycle | Graphs.Graph.ResetSearch |
