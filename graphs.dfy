/**
  The `graph` struct (graph.hpp:9-30, graph.cpp:54-94) and its deterministic
  builders (graph.cpp:113-167). A graph keeps one adjacency mask per vertex and
  the flat sequence of the pairs given to `add_edge`; `Valid` ties the masks to
  the edge sequence, so every fact about the masks can be read off the edges.
*/
module Graphs {
  import opened Bits
  import opened GraphModel
  import Counting

  class Graph {
    /** `adj_`: never resized after construction, so the array itself is fixed. */
    const adj: array<Word>
    /** `edges_`, used as a vector of endpoints in graph.cpp. */
    var edges: seq<nat>

    ghost predicate Valid()
      reads this, adj
    {
      adj.Length <= 64 && EdgeListOk(adj.Length, edges) && adj[..] == FromEdges(adj.Length, edges)
    }

    /** `graph(n)`: n empty masks and no edges; at most 64 vertices. */
    constructor (n: nat)
      requires n <= 64
      ensures Valid() && fresh(adj)
      ensures adj.Length == n && edges == []
      ensures forall u :: 0 <= u < n ==> adj[u] == Zero
    {
      adj := new Word[n](_ => Zero);
      edges := [];
      new;
      assert adj[..] == Empty(n);
    }

    /**
      `add_edge(u, v)`: sets bit v of adj[u] and bit u of adj[v], leaves every
      other mask alone and appends u then v to the edge sequence.
    */
    method AddEdge(u: nat, v: nat)
      requires Valid() && PairOk(adj.Length, u, v)
      modifies this, adj
      ensures Valid()
      ensures edges == old(edges) + [u, v]
      ensures NumEdges() == old(NumEdges()) + 1
      ensures adj[..] == Link(old(adj[..]), u, v)
    {
      ghost var before := adj[..];
      adj[u] := Or(adj[u], Bit(v));
      adj[v] := Or(adj[v], Bit(u));
      ghost var e := edges;
      edges := edges + [u, v];
      EdgeListOkAppend(adj.Length, e, u, v);
      assert edges[..|edges| - 2] == e;
      assert adj[..] == Link(before, u, v);
    }

    /** `get_degree(u)`: the number of vertices some edge joins to u. */
    function Degree(u: nat): (r: nat)
      reads this, adj
      requires Valid() && u < adj.Length
      ensures r == |set v: nat | v < adj.Length && Joins(edges, u, v)|
    {
      NeighbourSet(adj.Length, edges, u);
      PopCount(adj[u])
    }

    /** `num_vertices()`. */
    function NumVertices(): (r: nat)
      reads this
      ensures r == adj.Length
    {
      adj.Length
    }

    /** `num_edges()`: one edge per pair of the edge sequence. */
    function NumEdges(): (r: nat)
      reads this, adj
      requires Valid()
      ensures 2 * r == |edges|
    {
      |edges| / 2
    }

    /** `get_edges()`: a copy of the edge sequence, in `add_edge` order. */
    method GetEdges() returns (r: seq<nat>)
      requires Valid()
      ensures r == edges
      ensures EdgeListOk(adj.Length, r)
    {
      r := edges;
    }
  }

  /** The mask of u, as a set, is the set of vertices some edge joins to u. */
  lemma NeighbourSet(n: nat, edges: seq<nat>, u: nat)
    requires n <= 64 && EdgeListOk(n, edges) && u < n
    ensures Members(FromEdges(n, edges)[u]) == set v: nat | v < n && Joins(edges, u, v)
  {
    FromEdgesWellFormed(n, edges);
    forall v: nat ensures v in Members(FromEdges(n, edges)[u]) <==> v < n && Joins(edges, u, v) {
      FromEdgesAdjacency(n, edges, u, v);
    }
  }

  /**
    `is_adjacent(g, u, v)`: bit v of the mask of u; for a graph built through
    `add_edge`, true exactly when some edge joins u and v.
  */
  function IsAdjacent(g: Graph, u: nat, v: nat): (r: bool)
    reads g, g.adj
    requires g.adj.Length <= 64 && u < g.adj.Length && v < g.adj.Length
    ensures r <==> Edge(g.adj[..], u, v)
  {
    BitTestMembers(g.adj[u], v);
    BitTest(g.adj[u], v)
  }

  /** In a graph built through `add_edge`, u and v are adjacent iff some edge joins them. */
  lemma IsAdjacentJoins(g: Graph, u: nat, v: nat)
    requires g.Valid() && u < g.adj.Length && v < g.adj.Length
    ensures IsAdjacent(g, u, v) <==> Joins(g.edges, u, v)
  {
    FromEdgesAdjacency(g.adj.Length, g.edges, u, v);
  }

  /** Adjacency is symmetric and loop-free in a graph built through `add_edge`. */
  lemma IsAdjacentSymmetric(g: Graph, u: nat, v: nat)
    requires g.Valid() && u < g.adj.Length && v < g.adj.Length
    ensures IsAdjacent(g, u, v) == IsAdjacent(g, v, u)
    ensures !IsAdjacent(g, u, u)
  {
    FromEdgesWellFormed(g.adj.Length, g.edges);
    assert g.adj[..] == FromEdges(g.adj.Length, g.edges);
  }

  // ---------------------------------------------------------------------------
  // Edge sequences of the builders

  /** The pairs (i, lo), (i, lo + 1), ..., (i, hi - 1), flattened. */
  function RowEdges(i: nat, lo: nat, hi: nat): (r: seq<nat>)
    ensures |r| % 2 == 0
    decreases hi
  {
    if hi <= lo then [] else RowEdges(i, lo, hi - 1) + [i, hi - 1]
  }

  /** Edges added by `build_clique(n)` for the rows below i. */
  function CliqueRows(n: nat, i: nat): (r: seq<nat>)
    ensures |r| % 2 == 0
  {
    if i == 0 then [] else CliqueRows(n, i - 1) + RowEdges(i - 1, i, n)
  }

  /** Edges added by `build_biclique(p, q)` for the rows below i. */
  function BicliqueRows(p: nat, q: nat, i: nat): (r: seq<nat>)
    ensures |r| % 2 == 0
  {
    if i == 0 then [] else BicliqueRows(p, q, i - 1) + RowEdges(i - 1, p, p + q)
  }

  lemma BicliqueRowsNext(p: nat, q: nat, i: nat)
    ensures BicliqueRows(p, q, i + 1) == BicliqueRows(p, q, i) + RowEdges(i, p, p + q)
  {
  }

  /** Edges (0, 1), (1, 2), ..., (k - 1, k) added by the loop of `build_cycle`. */
  function ChainEdges(k: nat): (r: seq<nat>)
    ensures |r| % 2 == 0
  {
    if k == 0 then [] else ChainEdges(k - 1) + [k - 1, k]
  }

  function CliqueEdges(n: nat): seq<nat> { CliqueRows(n, n) }

  function BicliqueEdges(p: nat, q: nat): seq<nat> { BicliqueRows(p, q, p) }

  function StarEdges(l: nat): seq<nat> { RowEdges(0, 1, l + 1) }

  function CycleEdges(n: nat): seq<nat>
    requires n >= 1
  {
    ChainEdges(n - 1) + [0, n - 1]
  }

  /** A concatenation of ordered edge sequences is ordered. */
  lemma OrderedConcat(a: seq<nat>, b: seq<nat>)
    requires |a| % 2 == 0 && |b| % 2 == 0 && Ordered(a) && Ordered(b)
    ensures Ordered(a + b)
  {
    var e := a + b;
    forall k | 0 <= k < |e| / 2 ensures EdgeAt(e, k).0 < EdgeAt(e, k).1 {
      if k < |a| / 2 {
        assert EdgeAt(e, k) == EdgeAt(a, k);
      } else {
        assert EdgeAt(e, k) == EdgeAt(b, k - |a| / 2);
      }
    }
  }

  lemma {:induction false} RowEdgesOrdered(i: nat, lo: nat, hi: nat)
    requires i < lo
    ensures Ordered(RowEdges(i, lo, hi))
    decreases hi
  {
    if hi > lo {
      RowEdgesOrdered(i, lo, hi - 1);
      OrderedConcat(RowEdges(i, lo, hi - 1), [i, hi - 1]);
    }
  }

  lemma {:induction false} CliqueRowsOrdered(n: nat, i: nat)
    ensures Ordered(CliqueRows(n, i))
  {
    if i > 0 {
      CliqueRowsOrdered(n, i - 1);
      RowEdgesOrdered(i - 1, i, n);
      OrderedConcat(CliqueRows(n, i - 1), RowEdges(i - 1, i, n));
    }
  }

  lemma {:induction false} BicliqueRowsOrdered(p: nat, q: nat, i: nat)
    requires i <= p
    ensures Ordered(BicliqueRows(p, q, i))
  {
    if i > 0 {
      BicliqueRowsOrdered(p, q, i - 1);
      RowEdgesOrdered(i - 1, p, p + q);
      OrderedConcat(BicliqueRows(p, q, i - 1), RowEdges(i - 1, p, p + q));
    }
  }

  lemma {:induction false} ChainEdgesOrdered(k: nat)
    ensures Ordered(ChainEdges(k))
  {
    if k > 0 {
      ChainEdgesOrdered(k - 1);
      OrderedConcat(ChainEdges(k - 1), [k - 1, k]);
    }
  }

  lemma CycleEdgesOrdered(n: nat)
    requires n >= 2
    ensures Ordered(CycleEdges(n))
  {
    ChainEdgesOrdered(n - 1);
    OrderedConcat(ChainEdges(n - 1), [0, n - 1]);
  }

  /** The pairs of a concatenation are those of its parts. */
  lemma JoinsConcat(a: seq<nat>, b: seq<nat>, x: nat, y: nat)
    requires |a| % 2 == 0 && |b| % 2 == 0
    ensures Joins(a + b, x, y) <==> Joins(a, x, y) || Joins(b, x, y)
  {
    var e := a + b;
    var m := |a| / 2;
    if Joins(e, x, y) {
      var k :| 0 <= k < |e| / 2 && (EdgeAt(e, k) == (x, y) || EdgeAt(e, k) == (y, x));
      if k < m {
        assert EdgeAt(e, k) == EdgeAt(a, k);
      } else {
        assert EdgeAt(e, k) == EdgeAt(b, k - m);
      }
    }
    if Joins(a, x, y) {
      var k :| 0 <= k < |a| / 2 && (EdgeAt(a, k) == (x, y) || EdgeAt(a, k) == (y, x));
      assert EdgeAt(e, k) == EdgeAt(a, k);
    }
    if Joins(b, x, y) {
      var k :| 0 <= k < |b| / 2 && (EdgeAt(b, k) == (x, y) || EdgeAt(b, k) == (y, x));
      assert EdgeAt(e, k + m) == EdgeAt(b, k);
    }
  }

  lemma JoinsPair(u: nat, v: nat, x: nat, y: nat)
    ensures Joins([u, v], x, y) <==> (x, y) == (u, v) || (x, y) == (v, u)
  {
    assert EdgeAt([u, v], 0) == (u, v);
  }

  lemma {:induction false} RowEdgesJoins(i: nat, lo: nat, hi: nat, x: nat, y: nat)
    ensures Joins(RowEdges(i, lo, hi), x, y) <==>
      (x == i && lo <= y < hi) || (y == i && lo <= x < hi)
    decreases hi
  {
    if hi > lo {
      RowEdgesJoins(i, lo, hi - 1, x, y);
      JoinsConcat(RowEdges(i, lo, hi - 1), [i, hi - 1], x, y);
      JoinsPair(i, hi - 1, x, y);
    } else {
      assert |RowEdges(i, lo, hi)| == 0;
    }
  }

  lemma {:induction false} RowEdgesOk(n: nat, i: nat, lo: nat, hi: nat)
    requires i < n && hi <= n && (i < lo || hi <= i)
    ensures EdgeListOk(n, RowEdges(i, lo, hi))
    decreases hi
  {
    if hi > lo {
      RowEdgesOk(n, i, lo, hi - 1);
      EdgeListOkAppend(n, RowEdges(i, lo, hi - 1), i, hi - 1);
    }
  }

  lemma EdgeListOkConcat(n: nat, a: seq<nat>, b: seq<nat>)
    requires EdgeListOk(n, a) && EdgeListOk(n, b)
    ensures EdgeListOk(n, a + b)
  {
    var e := a + b;
    var m := |a| / 2;
    forall k | 0 <= k < |e| / 2
      ensures PairOk(n, EdgeAt(e, k).0, EdgeAt(e, k).1)
    {
      if k < m {
        assert EdgeAt(e, k) == EdgeAt(a, k);
      } else {
        assert EdgeAt(e, k) == EdgeAt(b, k - m);
      }
    }
  }

  /** In a clique on n vertices every two distinct vertices are adjacent. */
  lemma {:induction false} CliqueRowsJoins(n: nat, i: nat, x: nat, y: nat)
    requires i <= n
    ensures EdgeListOk(n, CliqueRows(n, i))
    ensures Joins(CliqueRows(n, i), x, y) <==> (x < i && x < y < n) || (y < i && y < x < n)
  {
    if i > 0 {
      CliqueRowsJoins(n, i - 1, x, y);
      RowEdgesOk(n, i - 1, i, n);
      EdgeListOkConcat(n, CliqueRows(n, i - 1), RowEdges(i - 1, i, n));
      JoinsConcat(CliqueRows(n, i - 1), RowEdges(i - 1, i, n), x, y);
      RowEdgesJoins(i - 1, i, n, x, y);
    } else {
      assert |CliqueRows(n, 0)| == 0;
    }
  }

  lemma {:induction false} BicliqueRowsJoins(p: nat, q: nat, i: nat, x: nat, y: nat)
    requires i <= p
    ensures EdgeListOk(p + q, BicliqueRows(p, q, i))
    ensures Joins(BicliqueRows(p, q, i), x, y) <==>
      (x < i && p <= y < p + q) || (y < i && p <= x < p + q)
  {
    if i > 0 {
      BicliqueRowsJoins(p, q, i - 1, x, y);
      RowEdgesOk(p + q, i - 1, p, p + q);
      EdgeListOkConcat(p + q, BicliqueRows(p, q, i - 1), RowEdges(i - 1, p, p + q));
      JoinsConcat(BicliqueRows(p, q, i - 1), RowEdges(i - 1, p, p + q), x, y);
      RowEdgesJoins(i - 1, p, p + q, x, y);
    } else {
      assert |BicliqueRows(p, q, 0)| == 0;
    }
  }

  lemma {:induction false} ChainEdgesJoins(n: nat, k: nat, x: nat, y: nat)
    requires k < n
    ensures EdgeListOk(n, ChainEdges(k))
    ensures Joins(ChainEdges(k), x, y) <==> (x < k && y == x + 1) || (y < k && x == y + 1)
  {
    if k > 0 {
      ChainEdgesJoins(n, k - 1, x, y);
      EdgeListOkAppend(n, ChainEdges(k - 1), k - 1, k);
      JoinsConcat(ChainEdges(k - 1), [k - 1, k], x, y);
      JoinsPair(k - 1, k, x, y);
    } else {
      assert |ChainEdges(0)| == 0;
    }
  }

  /** `build_clique(n)`: u and v are adjacent iff they are distinct vertices. */
  lemma CliqueAdjacency(n: nat, u: nat, v: nat)
    requires n <= 64
    ensures EdgeListOk(n, CliqueEdges(n))
    ensures Joins(CliqueEdges(n), u, v) <==> u != v && u < n && v < n
  {
    CliqueRowsJoins(n, n, u, v);
  }

  /** `build_biclique(p, q)`: the edges join exactly the vertices below p to those from p to p + q - 1. */
  lemma BicliqueAdjacency(p: nat, q: nat, u: nat, v: nat)
    ensures EdgeListOk(p + q, BicliqueEdges(p, q))
    ensures Joins(BicliqueEdges(p, q), u, v) <==> (u < p && p <= v < p + q) || (v < p && p <= u < p + q)
  {
    BicliqueRowsJoins(p, q, p, u, v);
  }

  /** `build_star(l)`: the centre 0 is joined to each of 1..l and nothing else is joined. */
  lemma StarAdjacency(l: nat, u: nat, v: nat)
    ensures EdgeListOk(l + 1, StarEdges(l))
    ensures Joins(StarEdges(l), u, v) <==> (u == 0 && 1 <= v <= l) || (v == 0 && 1 <= u <= l)
  {
    RowEdgesOk(l + 1, 0, 1, l + 1);
    RowEdgesJoins(0, 1, l + 1, u, v);
  }

  /** `build_cycle(n)`, n >= 2: u and v are adjacent iff they are consecutive modulo n (for n == 2, just 0 and 1). */
  lemma CycleAdjacency(n: nat, u: nat, v: nat)
    requires n >= 2
    ensures EdgeListOk(n, CycleEdges(n))
    ensures Joins(CycleEdges(n), u, v) <==>
      (u < n && v < n && (v == u + 1 || u == v + 1)) || (u, v) == (0, n - 1) || (u, v) == (n - 1, 0)
  {
    ChainEdgesJoins(n, n - 1, u, v);
    EdgeListOkAppend(n, ChainEdges(n - 1), 0, n - 1);
    JoinsConcat(ChainEdges(n - 1), [0, n - 1], u, v);
    JoinsPair(0, n - 1, u, v);
  }

  /** Every vertex of `build_clique(n)` has degree n - 1. */
  lemma CliqueDegree(n: nat, u: nat)
    requires n <= 64 && u < n
    ensures EdgeListOk(n, CliqueEdges(n))
    ensures |set v: nat | v < n && Joins(CliqueEdges(n), u, v)| == n - 1
  {
    CliqueAdjacency(n, u, u);
    forall v: nat ensures Joins(CliqueEdges(n), u, v) <==> v < n && v != u {
      CliqueAdjacency(n, u, v);
    }
    assert (set v: nat | v < n && Joins(CliqueEdges(n), u, v)) == Vertices(n) - {u};
  }

  /**
    The test of the pair iterator: on `build_clique(n)`, each of the
    nchoosek(n, 2) pairs `next_pair` steps through from (0, 1) is adjacent.
  */
  lemma CliquePairsAdjacent(n: nat, k: nat)
    requires n <= 64 && k < Counting.NChooseK(n, 2)
    ensures EdgeListOk(n, CliqueEdges(n))
    ensures Counting.IsPair(n, Counting.PairAfter(n, k).0, Counting.PairAfter(n, k).1)
    ensures Edge(FromEdges(n, CliqueEdges(n)), Counting.PairAfter(n, k).0, Counting.PairAfter(n, k).1)
  {
    Counting.PairIteration(n);
    var (u, v) := Counting.PairAfter(n, k);
    CliqueAdjacency(n, u, v);
    FromEdgesAdjacency(n, CliqueEdges(n), u, v);
  }

  // ---------------------------------------------------------------------------
  // The builders

  /**
    The inner loop of `build_clique` and `build_biclique`, and the loop of
    `build_star`: `add_edge(i, j)` for j = lo .. hi - 1.
  */
  method AddRow(g: Graph, i: nat, lo: nat, hi: nat)
    requires g.Valid() && i < g.adj.Length && hi <= g.adj.Length && i < lo <= hi
    modifies g, g.adj
    ensures g.Valid() && g.edges == old(g.edges) + RowEdges(i, lo, hi)
  {
    var j := lo;
    while j < hi
      invariant lo <= j <= hi
      invariant g.Valid()
      invariant g.edges == old(g.edges) + RowEdges(i, lo, j)
    {
      g.AddEdge(i, j);
      j := j + 1;
    }
  }

  /** `build_clique(n)`: adds (i, j) for every i < j < n, row by row. */
  method BuildClique(n: nat) returns (g: Graph)
    requires n <= 64
    ensures fresh(g) && fresh(g.adj) && g.Valid()
    ensures g.adj.Length == n && g.edges == CliqueEdges(n)
    ensures Ordered(g.edges)
  {
    g := new Graph(n);
    var i := 0;
    while i < n
      invariant 0 <= i <= n
      invariant fresh(g) && fresh(g.adj) && g.Valid() && g.adj.Length == n
      invariant g.edges == CliqueRows(n, i)
    {
      AddRow(g, i, i + 1, n);
      assert CliqueRows(n, i + 1) == CliqueRows(n, i) + RowEdges(i, i + 1, n);
      i := i + 1;
    }
    CliqueRowsOrdered(n, n);
  }

  /** One row of `build_biclique(p, q)`: row i joins i to every vertex of the second side. */
  method BicliqueRow(g: Graph, p: nat, q: nat, i: nat)
    requires g.Valid() && g.adj.Length == p + q && i < p
    requires g.edges == BicliqueRows(p, q, i)
    modifies g, g.adj
    ensures g.Valid() && g.edges == BicliqueRows(p, q, i + 1)
  {
    BicliqueRowsNext(p, q, i);
    AddRow(g, i, p, p + q);
  }

  /** `build_biclique(p, q)`: adds (i, j) for every i < p <= j < p + q, row by row. */
  method BuildBiclique(p: nat, q: nat) returns (g: Graph)
    requires p + q <= 64
    ensures fresh(g) && fresh(g.adj) && g.Valid()
    ensures g.adj.Length == p + q && g.edges == BicliqueEdges(p, q)
    ensures Ordered(g.edges)
  {
    g := new Graph(p + q);
    var i := 0;
    while i < p
      invariant 0 <= i <= p
      invariant fresh(g) && fresh(g.adj) && g.Valid() && g.adj.Length == p + q
      invariant g.edges == BicliqueRows(p, q, i)
    {
      BicliqueRow(g, p, q, i);
      i := i + 1;
    }
    BicliqueRowsOrdered(p, q, p);
  }

  /** `build_star(l)`: adds (0, i) for i = 1 .. l on l + 1 vertices. */
  method BuildStar(l: nat) returns (g: Graph)
    requires l + 1 <= 64
    ensures fresh(g) && fresh(g.adj) && g.Valid()
    ensures g.adj.Length == l + 1 && g.edges == StarEdges(l)
    ensures Ordered(g.edges)
  {
    g := new Graph(l + 1);
    AddRow(g, 0, 1, l + 1);
    RowEdgesOrdered(0, 1, l + 1);
  }

  /**
    `build_cycle(n)`: adds (i, i + 1) for i < n - 1 and then (0, n - 1). The final
    `add_edge(0, n - 1)` fails its assertion for n < 2; for n == 2 it adds the
    edge (0, 1) a second time.
  */
  method BuildCycle(n: nat) returns (g: Graph)
    requires 2 <= n <= 64
    ensures fresh(g) && fresh(g.adj) && g.Valid()
    ensures g.adj.Length == n && g.edges == CycleEdges(n)
    ensures Ordered(g.edges)
  {
    g := new Graph(n);
    var i := 0;
    while i < n - 1
      invariant 0 <= i <= n - 1
      invariant fresh(g) && fresh(g.adj) && g.Valid() && g.adj.Length == n
      invariant g.edges == ChainEdges(i)
    {
      g.AddEdge(i, i + 1);
      i := i + 1;
    }
    g.AddEdge(0, n - 1);
    CycleEdgesOrdered(n);
  }
}
