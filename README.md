# rc-csp graph core in Dafny

This project models the graph and path-enumeration core of rc-csp, a tool that writes
constraint models for rainbow-connection colouring, and proves properties of that model.
The core has five parts:

- the 64-bit word utilities `popcount64`, `ctz64` and `bittest64`, plus `nchoosek` and
  the lexicographic pair iterator `next_pair`;
- the `graph` struct, with at most 64 vertices. It keeps one adjacency mask per vertex and
  a flat edge sequence `[u0, v0, u1, v1, ...]`. Its operations are `add_edge`,
  `get_degree`, `num_vertices`, `num_edges`, `get_edges` and `is_adjacent`. It has four
  deterministic builders (clique, biclique, star, cycle);
- the traversals: `bfs` writes hop distances into `dist`; `is_connected` floods from
  vertex 0 with a mask used as the queue; `get_bridges` removes each stored edge, rebuilds
  the graph and tests connectivity; `get_diameter` and `get_diametral_pair` run `bfs`
  from every vertex;
- the path accumulators `edge_path` and `vertex_path`, and `to_edge_list`;
- the backtracking enumerators `list_paths` (all simple s-t paths) and
  `list_shortest_paths` (steps only to neighbours strictly closer to t).

Modules, in dependency order:

| file | module | models |
|---|---|---|
| bits.dfy | `Bits` | 64-bit words as 64 booleans. `Members(x)` is the set of indices of the set bits, and all mask reasoning goes through it. Also the 32-bit `int` shifts as written. |
| counting.dfy | `Counting` | `nchoosek`, with C++ truncating division; a reference binomial coefficient; `next_pair` and the ranks of the pairs it visits |
| graph_model.dfy | `GraphModel` | edge sequences; the masks they produce (`FromEdges`); well-formed graphs; reachability; hop distance `Dist`; walks and simple paths |
| graphs.dfy | `Graphs` | the `graph` struct as class `Graph`, and the builders |
| paths.dfy | `Paths` | classes `EdgePath` and `VertexPath`; `to_edge_list` |
| traversal.dfy | `Traversal` | `bfs` and `is_connected` |
| analysis.dfy | `Analysis` | `get_bridges`, `get_diameter`, `get_diametral_pair` |
| simple_paths.dfy | `SimplePaths` | `recursive_list_paths` and `list_paths` |
| shortest_paths.dfy | `ShortestPaths` | `recursive_list_shortest_paths` and `list_shortest_paths` |

Design points:

- **State.** Code that updates state in place is imperative Dafny:
  - `Graph` has the mask array `adj` and the edge sequence `edges`. `Graph.Valid()` ties
    the masks to `FromEdges(n, edges)`.
  - `EdgePath` and `VertexPath` are classes.
  - `bfs` writes into an `array<int>`.
- **Loops.** The loops and loop bodies of `bfs`, `is_connected`, `get_bridges` and the
  enumerators are methods with invariants. Some loop bodies are separate methods so that
  each proof stays small: `Push`, `ScanFront`, `Round`, `SpreadFront`, `BuildFrom`,
  `TestCandidate`, `Neighbours`, `Branch`, `ShortestNeighbours` and `ShortestBranch`.
  Each one is a part of the source function it names, not a function of the source.
- **Specifications.** Each method is proved against a pure specification:
  - `Dist` for `bfs`;
  - `Connected` for `is_connected`;
  - `Bridges` for `get_bridges`;
  - `IsDiameter` and `FirstDiametral` for the diameter functions;
  - `Simple` and `Shortest` for the enumerators. Each lists, in the order of the search,
    the paths the search records from a given stack of vertices.

  Lemmas then relate each specification to its graph-theoretic meaning: simple paths,
  shortest walks, edges whose removal disconnects the graph, and so on.
- **Distance of unreachable vertices.** `Dist(a, s, v)` is 0 when v cannot be reached
  from s, which is what `bfs` leaves in `dist[v]`. So on a disconnected graph, the
  "diameter" is the largest distance within a component.

## Model

| member | source | states |
|---|---|---|
| Bits.PopCount | common.hpp:13-20 | the population count is the number of members of the word, and at most 64 |
| Bits.Ctz | common.hpp:22-31 | for a non-zero word, the result is a member and no member is smaller |
| Bits.BitTestMembers | common.hpp:33-40 | `bittest64(x, i)`, with its 64-bit meaning, holds iff i is a member of x |
| Bits.MembersSet | graph.cpp:62-63 | OR-ing in `1ULL << i` adds exactly i to the members |
| Bits.MembersClear | graph.cpp:293 | AND-ing with `~(1ULL << i)` removes exactly i from the members |
| Bits.MembersEmpty | graph.cpp:279 | a word is zero iff it has no member, which is how the mask loops end |
| Bits.MembersInjective | path.hpp:119-129 | two words with the same members are equal, so a mask is restored once its members are |
| Bits.PopCountClearLowest | graph.hpp:64-66 | clearing the lowest set bit of a non-zero word removes exactly that member and lowers the popcount by one |
| Bits.AsWrittenAgreesBelow31 | common.hpp:38 | below bit 31, the `int` shift of the test and of the clear agrees with the 64-bit one |
| Bits.BitTestAsWrittenAt31 | common.hpp:38 | the as-written test reports bit 31 set in the word holding only bit 40 |
| Bits.ClearAsWrittenAt31 | graph.hpp:64 | the as-written clear of bit 31 from the mask {31, 40} leaves no member instead of {40} |
| Counting.TruncDiv | common.cpp:11 | C++ integer division truncates toward zero: the remainder `a - q * b` has the sign of a and is smaller than b in magnitude |
| Counting.NChooseK | common.cpp:4-12 | `nchoosek` with truncating division; `k: nat` leaves out the negative k, on which the source never reaches its base case. For 0 <= n the result is 0 when k > n and at least 1 when k <= n; Counting.NChooseKIsBinomial ties it to the binomial coefficient |
| Counting.NChooseKIsBinomial | common.cpp:4-12 | for n >= 0, `nchoosek(n, k)` equals the binomial coefficient given by Pascal's rule |
| Counting.NChooseTwo | common.cpp:4-12 | `nchoosek(n, 2) == n(n-1)/2` |
| Counting.NextPair | common.cpp:14-24 | the new pair is one `Step`: if v < n-1, v is incremented and u kept; otherwise u is incremented and v is set to the new u plus 1. u < v is kept, and from a pair that is not the last, the result is the next pair in lexicographic order |
| Counting.PairAfterRank | common.cpp:14-24 | after Rank(u, v) steps from (0, 1), the iterator holds (u, v) |
| Counting.PairAfterIsPair | common.cpp:14-24 | for k < nchoosek(n, 2), the k-th state is a pair u < v < n of rank k |
| Counting.RankBound | common.cpp:14-24 | every pair u < v < n has rank below nchoosek(n, 2) |
| Counting.RankOrder | common.cpp:14-24 | a smaller rank means lexicographically smaller |
| Counting.PairIteration | test.cpp:19-26 | the first nchoosek(n, 2) states from (0, 1) visit every pair u < v < n exactly once, in strictly increasing lexicographic order |
| GraphModel.FromEdgesAdjacency | graph.cpp:62-66 | in the masks built from an edge sequence, v is in the mask of u iff some stored pair joins u and v |
| GraphModel.FromEdgesWellFormed | graph.cpp:56-63 | masks built from valid pairs are symmetric and loop-free, and their neighbours are vertices |
| GraphModel.DistSymmetric | graph.cpp:367 | reachability and hop distance are symmetric, so the diametral pair can be reported in either order |
| Graphs.Graph.constructor | graph.hpp:11-14 | `graph(n)` requires n <= 64 and makes n zero masks and no edges |
| Graphs.Graph.AddEdge | graph.cpp:54-67 | requires u != v with both below n. It sets bit v of `adj[u]` and bit u of `adj[v]` (`Link`), changes no other mask, appends u then v to the edge sequence, and adds one to `num_edges` |
| Graphs.Graph.Degree | graph.cpp:69-72 | the degree is the number of vertices some stored edge joins to u |
| Graphs.Graph.NumVertices | graph.cpp:74-77 | the number of masks |
| Graphs.Graph.NumEdges | graph.cpp:79-82 | twice the result is the length of the edge sequence |
| Graphs.Graph.GetEdges | graph.cpp:84-87 | the edge sequence itself, which is a valid sequence of pairs |
| Graphs.NeighbourSet | graph.cpp:69-72 | the members of the mask of u are exactly the vertices joined to u by a stored edge |
| Graphs.IsAdjacent | graph.cpp:89-94 | true iff v is in the mask of u |
| Graphs.IsAdjacentJoins | graph.cpp:89-94 | in a graph built through `add_edge`, u and v are adjacent iff some stored pair joins them |
| Graphs.IsAdjacentSymmetric | graph.cpp:62-63 | adjacency is symmetric and no vertex is adjacent to itself |
| Graphs.AddRow | graph.cpp:119-122 | the inner builder loop appends (i, j) for j = lo .. hi-1 |
| Graphs.BuildClique | graph.cpp:113-126 | builds the graph on n vertices whose edge sequence is every pair i < j, row by row, each pair smaller endpoint first |
| Graphs.BicliqueRow | graph.cpp:134-137 | row i of the build adds (i, j) for p <= j < p + q, extending the rows below i by one |
| Graphs.BuildBiclique | graph.cpp:128-141 | builds the graph on p + q vertices with the pairs (i, j), i < p <= j < p + q, each smaller endpoint first |
| Graphs.BuildStar | graph.cpp:143-153 | builds the graph on l + 1 vertices with the pairs (0, i), i = 1 .. l, each smaller endpoint first |
| Graphs.BuildCycle | graph.cpp:155-167 | builds the graph on n >= 2 vertices with the chain pairs (i, i+1), then (0, n-1), each smaller endpoint first |
| Graphs.CliqueAdjacency | graph.cpp:113-126 | in `build_clique(n)`, u and v are adjacent iff they are distinct vertices |
| Graphs.CliqueDegree | graph.cpp:113-126 | every vertex of `build_clique(n)` has degree n - 1 |
| Graphs.CliquePairsAdjacent | test.cpp:16-26 | each of the nchoosek(n, 2) pairs that `next_pair` visits from (0, 1) is adjacent in `build_clique(n)` |
| Graphs.BicliqueAdjacency | graph.cpp:128-141 | the edges join exactly the vertices below p to those from p to p + q - 1 |
| Graphs.StarAdjacency | graph.cpp:143-153 | vertex 0 is joined to each of 1 .. l, and nothing else is joined |
| Graphs.CycleAdjacency | graph.cpp:155-167 | u and v are adjacent iff they are consecutive, or are 0 and n - 1 |
| Graphs.OrderedConcat | graph.cpp:119-122 | appending pairs stored smaller endpoint first keeps the whole sequence so |
| Graphs.RowEdgesOrdered | graph.cpp:119-122 | a builder row (i, j), i < lo <= j, stores every pair smaller endpoint first |
| Graphs.CliqueRowsOrdered | graph.cpp:113-126 | the pairs of `build_clique` have their smaller endpoint first |
| Graphs.BicliqueRowsOrdered | graph.cpp:128-141 | the pairs of `build_biclique` have their smaller endpoint first |
| Graphs.ChainEdgesOrdered | graph.cpp:159-162 | the chain pairs (i, i + 1) of `build_cycle` have their smaller endpoint first |
| Graphs.CycleEdgesOrdered | graph.cpp:155-167 | every pair of `build_cycle`, including the closing (0, n - 1), has its smaller endpoint first |
| Paths.EdgePath.constructor | path.hpp:108-112 | an empty sequence and a zero mask |
| Paths.EdgePath.FromSource | path.hpp:114-117 | an empty sequence, with the mask left unconstrained |
| Paths.EdgePath.Discover | path.hpp:119-123 | sets bit v and appends v, changing nothing else; on a valid path, v not on it stays valid |
| Paths.EdgePath.Backtrack | path.hpp:125-129 | clears bit v and drops the last vertex; when v is that last vertex, a valid path stays valid |
| Paths.EdgePath.Contains | path.hpp:131-135 | bit v of the mask; on a valid path, membership in the sequence |
| Paths.EdgePath.Size | path.hpp:137-140 | the number of vertices minus one |
| Paths.EdgePath.Copy | graph.hpp:49 | passing the path by value: a fresh path with the same mask and sequence |
| Paths.DiscoverBacktrackRestores | path.hpp:119-129 | discovering a vertex not on the path and then backtracking it restores both the mask and the sequence exactly |
| Paths.VertexPath.constructor | path.hpp:53 | all 64 flags false |
| Paths.VertexPath.FromSource | path.hpp:55-60 | only flag s set |
| Paths.VertexPath.Discover | path.hpp:62-66 | sets flag v and no other |
| Paths.VertexPath.Backtrack | path.hpp:68-72 | clears flag v and no other |
| Paths.VertexPath.Contains | path.hpp:74-79 | reads flag v |
| Paths.VertexPath.Size | path.hpp:81-84 | as written, converts the 64 flags to `bool` and so is always true |
| Paths.EdgeListOfPairs | path.cpp:16-21 | pair i of the edge list is (min, max) of vertices i and i + 1 |
| Paths.ToEdgeList | path.cpp:11-24 | needs a non-empty path; returns 2 * `size()` integers, one (min, max) pair per consecutive pair of vertices, in path order |
| Paths.EdgeListOfWalk | path.cpp:16-21 | for a walk of the graph, every listed pair is an edge with its smaller endpoint first |
| Traversal.BfsStart | graph.cpp:245-249 | the state after pushing the source into a zeroed `dist` satisfies the search invariant |
| Traversal.BfsSkip | graph.cpp:257 | scanning a vertex that is not a new neighbour of the front keeps the invariant |
| Traversal.BfsPush | graph.cpp:257-262 | a new neighbour of the front is exactly one hop farther than the front, and pushing it keeps the invariant |
| Traversal.LabelsPush | graph.cpp:259 | labelling it `1 + dist[v]` keeps every label equal to the hop distance |
| Traversal.BfsPop | graph.cpp:265 | popping a fully scanned front keeps the invariant, advancing to the next layer when the current one is finished |
| Traversal.BfsFinish | graph.cpp:251 | with the queue empty, every vertex is labelled with its hop distance from the source, or 0 if it cannot be reached |
| Traversal.Push | graph.cpp:257-262 | the `if` body: the label is stored, the vertex is pushed and marked visited, and the invariant is kept |
| Traversal.ScanFront | graph.cpp:255-263 | the `for` loop over a front keeps the invariant, with every neighbour of the front pushed |
| Traversal.Round | graph.cpp:253-265 | one turn of the `while` loop keeps the invariant and either grows the pushed set or shrinks the queue |
| Traversal.Bfs | graph.cpp:239-267 | requires at most 64 vertices, a source below n and a zeroed `dist` of length n; leaves in `dist[v]` the hop distance from the source, or 0 when v is unreachable |
| Traversal.SpreadPush | graph.cpp:286-290 | visiting and queueing a neighbour of a queued vertex keeps the masks consistent |
| Traversal.SpreadPop | graph.cpp:293 | dequeuing a vertex whose neighbours are all visited keeps them consistent |
| Traversal.SpreadBound | graph.cpp:277-281 | on a graph with a vertex, the number of visited vertices never exceeds n |
| Traversal.SpreadDone | graph.cpp:296 | with the queue empty, popcount(visited) == n iff the graph has a vertex and is connected |
| Traversal.SpreadFront | graph.cpp:284-291 | the `for` loop visits and queues every unvisited neighbour of v, and queues only newly visited vertices |
| Traversal.IsConnected | graph.cpp:269-297 | true iff the graph has a vertex and every vertex is reachable from vertex 0 |
| Analysis.SubGraphConnected | graph.cpp:326 | adding edges to a connected graph on the same vertices keeps it connected |
| Analysis.RemovePair | graph.cpp:315 | erasing a pair shortens the sequence by two |
| Analysis.RemovePairAt | graph.cpp:315 | after erasing pair k, pair j is the old pair j below k and the old pair j + 1 from k on |
| Analysis.RemovePairOk | graph.cpp:315 | the shortened sequence is still a valid edge sequence |
| Analysis.JoinsRemovePair | graph.cpp:315 | the shortened sequence joins u and w iff some pair other than k does |
| Analysis.RemovePairSubGraph | graph.cpp:319-324 | the graph rebuilt without pair k is a subgraph of the original |
| Analysis.SelectSound | graph.cpp:326-331 | every reported pair is a flagged pair among those tested |
| Analysis.SelectComplete | graph.cpp:326-331 | every flagged pair among those tested is reported |
| Analysis.BridgesSound | graph.cpp:326-331 | every reported pair is a stored pair whose removal disconnects the graph |
| Analysis.BridgesAreBridges | graph.cpp:299-335 | the reported pairs are exactly the stored pairs whose removal leaves the graph on n vertices disconnected, each as stored; the result is a valid edge sequence |
| Analysis.BridgesOrdered | graph.cpp:328 | when every stored pair has its smaller endpoint first, as the builders store them, so does every reported pair, and the assertion holds |
| Analysis.DisconnectedAllBridges | graph.cpp:326 | on a disconnected graph, the naive test reports every edge |
| Analysis.DuplicateNotBridge | graph.cpp:326 | a pair stored twice is never reported on a connected graph |
| Analysis.BuildFrom | graph.cpp:319-324 | the rebuilt graph has n vertices and holds exactly the given edge sequence |
| Analysis.TestCandidate | graph.cpp:309-331 | the candidate is reported iff removing it leaves the graph disconnected |
| Analysis.GetBridges | graph.cpp:299-335 | the result is the bridge list, in the order of the edge sequence |
| Analysis.DiameterUnique | graph.cpp:337-352 | the diameter is determined by the graph |
| Analysis.MaxElement | graph.cpp:346 | `std::max_element`: the index of the first largest element |
| Analysis.GetDiameter | graph.cpp:337-352 | no hop distance exceeds the result; when there is a vertex, some pair attains it; without a vertex it is 0 |
| Analysis.FirstDiametralUnique | graph.cpp:359-368 | at most one pair is the first diametral pair |
| Analysis.GetDiametralPair | graph.cpp:354-373 | (min, max) of the first source whose largest distance is the diameter and of the first vertex at that distance; that pair is at diameter distance; (0, 0) without vertices |
| SimplePaths.StackExtend | graph.hpp:69-71 | stepping to a neighbour not on the path keeps a simple walk, at most 64 long |
| SimplePaths.SimpleFromSkip | graph.hpp:64-66 | vertices that are not neighbours contribute nothing |
| SimplePaths.SimpleSound | graph.hpp:48-79 | every path recorded from a stack extends it, is a simple walk and ends at t |
| SimplePaths.SimpleFromSound | graph.hpp:62-73 | a path recorded through the neighbours from w on extends the stack by one of them, w or above |
| SimplePaths.SimpleFromHas | graph.hpp:62-73 | a path recorded after stepping to neighbour w is among those recorded through any earlier starting neighbour |
| SimplePaths.SimpleComplete | graph.hpp:48-79 | every simple walk to t that extends the stack is recorded from it |
| SimplePaths.SortedConcat | graph.hpp:62-73 | an ordered run of paths followed by a later ordered run is ordered |
| SimplePaths.BranchesOrdered | graph.hpp:62-73 | paths through a lower neighbour come before paths through higher ones |
| SimplePaths.SimpleSorted | graph.hpp:62-73 | the recorded paths are in strictly increasing lexicographic order |
| SimplePaths.ListPathsCorrect | graph.hpp:82-88 | a path is recorded iff it is a simple path from s to t; t occurs only as its last vertex; each path is recorded once, in lexicographic order |
| SimplePaths.RecursiveListPaths | graph.hpp:48-79 | appends exactly the paths the search records from the stack plus `current`, and leaves the caller's path, sequence and mask, as it was |
| SimplePaths.MaskStep | graph.hpp:64-66 | clearing the lowest member of the remaining neighbour mask leaves the neighbours above it |
| SimplePaths.Neighbours | graph.hpp:62-73 | the loop over the neighbour mask appends the paths through all neighbours, lowest first |
| SimplePaths.Branch | graph.hpp:69-72 | a neighbour not on the path is searched on a copy of the path; one on the path adds nothing |
| SimplePaths.ListPaths | graph.hpp:82-88 | appends the paths recorded from the stack [s] |
| ShortestPaths.StepDown | graph.hpp:112 | along an edge to a vertex strictly closer to t, the distance drops by exactly one |
| ShortestPaths.ShortestFromSkip | graph.hpp:108-110 | vertices that are not neighbours contribute nothing |
| ShortestPaths.ShortestSound | graph.hpp:92-121 | every recorded path extends the stack, ends at t and descends one hop at a time, so it has Dist(t, top) more vertices |
| ShortestPaths.ShortestFromSound | graph.hpp:106-120 | the same for the paths through the neighbours from w on, whose next vertex is w or above |
| ShortestPaths.ShortestFromHas | graph.hpp:106-120 | a path recorded after stepping to neighbour w is among those from any earlier starting neighbour |
| ShortestPaths.ShortestComplete | graph.hpp:92-121 | every walk from the top to t whose steps go strictly closer to t is recorded |
| ShortestPaths.ShortestNonEmpty | graph.hpp:101-112 | a stack whose top reaches t records at least one path |
| ShortestPaths.ShortestFromAtTarget | graph.hpp:101-112 | at t no neighbour is closer, so the search records only the path itself |
| ShortestPaths.ShortestBranchesOrdered | graph.hpp:106-120 | paths through a lower neighbour come before those through higher ones |
| ShortestPaths.ShortestSorted | graph.hpp:106-120 | the recorded paths are in strictly increasing lexicographic order |
| ShortestPaths.WalkSuffixWithin | graph.hpp:124-133 | the rest of a walk from its i-th vertex reaches its end in the remaining number of hops |
| ShortestPaths.WalkDistUpper | graph.hpp:124-133 | on a walk ending at t, a vertex is no farther from t than the rest of the walk is long |
| ShortestPaths.WalkDistLower | graph.hpp:124-133 | the start of a walk is at most i hops farther from t than its i-th vertex |
| ShortestPaths.ShortestWalkDist | graph.hpp:124-133 | on a walk from s to t with Dist(s, t) edges, the i-th vertex is exactly (length - i) hops from t |
| ShortestPaths.ListShortestPathsCorrect | graph.hpp:124-133 | every recorded path is a walk from s to t with Dist(s, t) edges, each step strictly closer to t; every such walk is recorded, once, in lexicographic order; something is recorded iff t is reachable from s |
| ShortestPaths.RecursiveListShortestPaths | graph.hpp:92-121 | appends exactly the paths the search records from the stack, and restores the vertex sequence |
| ShortestPaths.ShortestNeighbours | graph.hpp:106-120 | the loop over the neighbour mask appends the paths through every closer neighbour, lowest first |
| ShortestPaths.ShortestBranch | graph.hpp:112-119 | a closer neighbour is discovered, searched from and backtracked, and the sequence is left as it was |
| ShortestPaths.ListShortestPaths | graph.hpp:124-133 | after `bfs` from t, appends the paths recorded from the stack [s] |

## Left out

- `read_graph_size` and `read_dimacs` (graph.cpp:17-52, 194-237) are not modelled: they read files and throw exceptions.
- `build_random_graph` (graph.cpp:169-192) is not modelled: it draws from a random engine with a floating-point distribution.
- `print_graph` and `write_dot` are not modelled: they only produce output. `edge_path::print` is not modelled for the same reason.
- The model writers, `main` and the test harness are not modelled: they emit text. Their only logic, iterating pairs, is `next_pair`, which is modelled; the test's loop is `Graphs.CliquePairsAdjacent`.
- The 5-argument, length-bounded `list_paths` the model writers call is not declared in graph.hpp, so it is not modelled.
- `drop_endpoints` (path.cpp:6-9) has an empty body.
- The CRTP base `path` (path.hpp:15-48) is not modelled as a type.
  - The two concrete classes are modelled directly.
  - Iterating an `edge_path` yields its `vertices` sequence, in discovery order.
  - Iterating a `vertex_path` yields its flags and is not modelled.
- The enumerators are modelled with `edge_path` only. With `vertex_path` a recorded path is 64 flags with no order, and that instantiation is not modelled.
- Recorded paths are kept as their vertex sequences. A recorded `edge_path` copy also carries its mask, which the model does not keep.
- `edges_` is declared as an `index_t` in graph.hpp:29 but used as a vector in graph.cpp. The model follows graph.cpp.
- `graph& operator=` is deleted (graph.hpp:16). A Dafny class reference is never copied by value, so there is nothing to model.
- The vertex counts, indices and labels of the source are 64-bit `index_t`; they are modelled as unbounded integers. Every value the core computes stays below 64 or below n, so this is exact, except in `nchoosek`.
- Counting.NChooseK: the 64-bit overflow of `n * nchoosek(n - 1, k - 1)` is not modelled. The product is exact, so the model equals the binomial coefficient even where the C++ product would overflow.
- `popcount64`, `ctz64` and `bittest64` have an MSVC branch and a GCC branch. The model gives the 64-bit meaning both branches intend; the GCC `bittest64` departs from it, see Findings.
- The bounds that the source checks with `assert` are modelled as preconditions. This covers `graph(n)`, `add_edge` and `bfs`.
- Traversal.IsConnected: on a graph with no vertex, the assertion at graph.cpp:277 fails, because one vertex is marked visited. The model returns false, which is what the code returns with assertions disabled.
- Analysis.GetDiametralPair: on a graph with no vertex the search loop does not run and `assert(false)` at graph.cpp:371 is reached. The model returns (0, 0), which is what the code returns with assertions disabled. With a vertex the search always succeeds, which the model proves.
- Analysis.GetBridges: has no precondition for the assertion at graph.cpp:328. On a stored pair with the larger endpoint first that is a bridge, that assertion would fail. `Analysis.BridgesOrdered` gives the condition under which it holds (`Ordered`). Each builder's contract states `Ordered` of its edges, so the assertion holds on every graph the builders produce.
- Traversal.Bfs: the contract states the final labels. It does not separately state that each entry is written at most once, although the proof relies on the visited mask for exactly that.
- ShortestPaths.RecursiveListShortestPaths: states that the vertex sequence is restored, but not the mask. `edge_path(s)` leaves `visited_` uninitialised, and backtracking a vertex clears its bit even when the initial garbage already had it set, so the source does not restore the mask either. The shortest search never reads the mask.
- Paths.EdgePath.Valid is not stated by the source. It is the invariant that the LIFO-paired discover and backtrack of distinct vertices keep, and `list_paths` relies on it.
- `std::queue` in `bfs` is modelled as a sequence. The `dist` vector is modelled as an `array<int>`.

## Findings

| source | as written | input that shows it | evidently intended | confidence | as-written member | corrected member |
|---|---|---|---|---|---|---|
| common.hpp:38 | `x & (1 << idx)`: the shift is done on a 32-bit `int`. For idx = 31 the result is negative and sign-extends, so the test also sees bits 32..63. For idx >= 32 the shift is undefined. Every caller is affected: `is_adjacent` (graph.cpp:93), `bfs` (graph.cpp:257), `is_connected` (graph.cpp:286) and `edge_path::contains_vertex` (path.hpp:134), which `list_paths` calls at graph.hpp:69. A graph with 32 vertices is not affected, because bits 32..63 of its masks are clear; 33 vertices is the first size where the test can go wrong. | x = the word with only bit 40 set, idx = 31: the test reports bit 31 as set | `x & (1ULL << idx)`, the 64-bit test of the MSVC branch | high, not executed | Bits.BitTestAsWrittenAt31 | Bits.BitTestMembers |
| graph.hpp:64 | `adj &= ~(1 << iter)`: the mask is a 32-bit `int`. For iter < 31 it is negative and sign-extends, so bits 32..63 are kept, as intended. For iter = 31 it is 0x7FFFFFFF, which widens to a value with bits 31..63 clear, so every neighbour above 31 is dropped too. For iter >= 32 the shift is undefined. | a vertex whose neighbour mask is {31, 40}: clearing 31 also clears 40, so no path through 40 is tried | `adj &= ~(1ULL << iter)` | high, not executed | Bits.ClearAsWrittenAt31 | SimplePaths.Neighbours |
| graph.hpp:108 | the same `int` shift in the neighbour loop of the shortest-path search | the neighbour mask {31, 40}: the shortest paths through 40 are never tried | `adj &= ~(1ULL << iter)` | high, not executed | Bits.ClearAsWrittenAt31 | ShortestPaths.ShortestNeighbours |
