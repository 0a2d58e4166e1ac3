/**
  The analyses of graph.cpp built on the traversals: `get_bridges`, which
  removes each edge in turn and tests connectivity, and `get_diameter` and
  `get_diametral_pair`, which run `bfs` from every vertex.
*/
module Analysis {
  import opened Bits
  import opened GraphModel
  import opened Graphs
  import opened Traversal
  import opened Paths

  // ---------------------------------------------------------------------------
  // Subgraphs

  /** Every edge of a1 is an edge of a2. */
  ghost predicate SubGraph(a1: seq<Word>, a2: seq<Word>)
  {
    forall u: nat, w: nat :: Edge(a1, u, w) ==> Edge(a2, u, w)
  }

  lemma {:induction false} SubGraphWithin(a1: seq<Word>, a2: seq<Word>, s: nat, v: nat, k: nat)
    requires SubGraph(a1, a2) && Within(a1, s, v, k)
    ensures Within(a2, s, v, k)
    decreases k
  {
    if k > 0 {
      if Within(a1, s, v, k - 1) {
        SubGraphWithin(a1, a2, s, v, k - 1);
      } else {
        var u: nat :| Edge(a1, u, v) && Within(a1, s, u, k - 1);
        SubGraphWithin(a1, a2, s, u, k - 1);
      }
    }
  }

  /** Adding edges keeps a connected graph on the same vertices connected. */
  lemma SubGraphConnected(a1: seq<Word>, a2: seq<Word>)
    requires SubGraph(a1, a2) && |a1| == |a2| && Connected(a1)
    ensures Connected(a2)
  {
    forall v | 0 <= v < |a2| ensures Reachable(a2, 0, v) {
      assert Reachable(a1, 0, v);
      var k: nat :| Within(a1, 0, v, k);
      SubGraphWithin(a1, a2, 0, v, k);
    }
  }

  // ---------------------------------------------------------------------------
  // get_bridges

  /** The edge sequence with pair k erased, as `edges_ref.erase` leaves it. */
  function RemovePair(edges: seq<nat>, k: nat): (r: seq<nat>)
    requires 2 * k + 1 < |edges|
    ensures |r| == |edges| - 2
  {
    edges[..2 * k] + edges[2 * k + 2..]
  }

  /** Pair j of the shortened sequence is pair j of the original before k, pair j + 1 from k on. */
  lemma RemovePairAt(edges: seq<nat>, k: nat, j: nat)
    requires |edges| % 2 == 0 && 2 * k + 1 < |edges| && j < |edges| / 2 - 1
    ensures EdgeAt(RemovePair(edges, k), j) == EdgeAt(edges, if j < k then j else j + 1)
  {
  }

  /** Erasing a pair keeps every remaining pair acceptable to `add_edge`. */
  lemma RemovePairOk(n: nat, edges: seq<nat>, k: nat)
    requires EdgeListOk(n, edges) && 2 * k + 1 < |edges|
    ensures EdgeListOk(n, RemovePair(edges, k))
  {
    var r := RemovePair(edges, k);
    forall j | 0 <= j < |r| / 2 ensures PairOk(n, EdgeAt(r, j).0, EdgeAt(r, j).1) {
      RemovePairAt(edges, k, j);
      var i := if j < k then j else j + 1;
      assert PairOk(n, EdgeAt(edges, i).0, EdgeAt(edges, i).1);
    }
  }

  /**
    The pairs left after erasing pair k join x and y iff some pair other than k
    of the original sequence does.
  */
  lemma JoinsRemovePair(edges: seq<nat>, k: nat, x: nat, y: nat)
    requires |edges| % 2 == 0 && 2 * k + 1 < |edges|
    ensures Joins(RemovePair(edges, k), x, y) <==>
      exists j :: 0 <= j < |edges| / 2 && j != k && (EdgeAt(edges, j) == (x, y) || EdgeAt(edges, j) == (y, x))
  {
    var r := RemovePair(edges, k);
    if Joins(r, x, y) {
      var j :| 0 <= j < |r| / 2 && (EdgeAt(r, j) == (x, y) || EdgeAt(r, j) == (y, x));
      RemovePairAt(edges, k, j);
      var i := if j < k then j else j + 1;
      assert i != k && (EdgeAt(edges, i) == (x, y) || EdgeAt(edges, i) == (y, x));
    }
    if exists j :: 0 <= j < |edges| / 2 && j != k && (EdgeAt(edges, j) == (x, y) || EdgeAt(edges, j) == (y, x)) {
      var j :| 0 <= j < |edges| / 2 && j != k && (EdgeAt(edges, j) == (x, y) || EdgeAt(edges, j) == (y, x));
      var i := if j < k then j else j - 1;
      RemovePairAt(edges, k, i);
      assert EdgeAt(r, i) == EdgeAt(edges, j);
    }
  }

  /** The graph without pair k is a subgraph of the graph, on the same vertices. */
  lemma RemovePairSubGraph(n: nat, edges: seq<nat>, k: nat)
    requires n <= 64 && EdgeListOk(n, edges) && 2 * k + 1 < |edges|
    ensures EdgeListOk(n, RemovePair(edges, k))
    ensures SubGraph(FromEdges(n, RemovePair(edges, k)), FromEdges(n, edges))
  {
    RemovePairOk(n, edges, k);
    var r := RemovePair(edges, k);
    forall u: nat, w: nat | Edge(FromEdges(n, r), u, w) ensures Edge(FromEdges(n, edges), u, w) {
      FromEdgesAdjacency(n, r, u, w);
      FromEdgesAdjacency(n, edges, u, w);
      JoinsRemovePair(edges, k, u, w);
    }
  }

  /** The masks of the graph rebuilt from the pairs other than k. */
  ghost function Without(n: nat, edges: seq<nat>, k: nat): (r: seq<Word>)
    requires n <= 64 && EdgeListOk(n, edges) && k < |edges| / 2
    ensures |r| == n
  {
    RemovePairOk(n, edges, k);
    FromEdges(n, RemovePair(edges, k))
  }

  /**
    The test of `get_bridges` for pair k: without it the graph on the same n
    vertices is not connected (a graph with no vertex never is).
  */
  ghost predicate IsBridge(n: nat, edges: seq<nat>, k: nat)
    requires n <= 64 && EdgeListOk(n, edges) && k < |edges| / 2
  {
    !(n >= 1 && Connected(Without(n, edges, k)))
  }

  /**
    The pairs j < k of the flat pair sequence `edges` whose flag keep[j] is set,
    pair by pair in edge order.
  */
  function Select(edges: seq<nat>, keep: seq<bool>, k: nat): (r: seq<nat>)
    requires k <= |edges| / 2 && k <= |keep|
    ensures |r| % 2 == 0 && |r| <= 2 * k
  {
    if k == 0 then []
    else Select(edges, keep, k - 1) + (if keep[k - 1] then [edges[2 * k - 2], edges[2 * k - 1]] else [])
  }

  lemma PrefixPair(b: seq<nat>, c: seq<nat>, t: nat)
    requires |b| % 2 == 0 && t < |b| / 2
    ensures EdgeAt(b + c, t) == EdgeAt(b, t)
  {
  }

  /** p is one of the pairs of the flat sequence r. */
  ghost predicate Listed(r: seq<nat>, p: (nat, nat))
  {
    exists t :: 0 <= t < |r| / 2 && EdgeAt(r, t) == p
  }

  /** p is stored as one of the first k pairs of `edges`, and that pair is flagged. */
  ghost predicate Kept(edges: seq<nat>, keep: seq<bool>, k: nat, p: (nat, nat))
    requires k <= |edges| / 2 && k <= |keep|
  {
    exists j :: 0 <= j < k && keep[j] && EdgeAt(edges, j) == p
  }

  /** Every selected pair is a flagged pair among the first k. */
  lemma {:induction false} SelectSound(edges: seq<nat>, keep: seq<bool>, k: nat, t: nat)
    requires k <= |edges| / 2 && k <= |keep|
    requires t < |Select(edges, keep, k)| / 2
    ensures Kept(edges, keep, k, EdgeAt(Select(edges, keep, k), t))
  {
    var b := Select(edges, keep, k - 1);
    var c := if keep[k - 1] then [edges[2 * k - 2], edges[2 * k - 1]] else [];
    var r := Select(edges, keep, k);
    assert r == b + c;
    if t < |b| / 2 {
      SelectSound(edges, keep, k - 1, t);
      PrefixPair(b, c, t);
      var j :| 0 <= j < k - 1 && keep[j] && EdgeAt(edges, j) == EdgeAt(b, t);
    } else {
      assert keep[k - 1] && EdgeAt(r, t) == EdgeAt(edges, k - 1);
    }
  }

  /** Every flagged pair among the first k is selected. */
  lemma {:induction false} SelectComplete(edges: seq<nat>, keep: seq<bool>, k: nat, j: nat)
    requires k <= |edges| / 2 && k <= |keep|
    requires j < k && keep[j]
    ensures Listed(Select(edges, keep, k), EdgeAt(edges, j))
  {
    var b := Select(edges, keep, k - 1);
    var c := if keep[k - 1] then [edges[2 * k - 2], edges[2 * k - 1]] else [];
    var r := Select(edges, keep, k);
    assert r == b + c;
    if j == k - 1 {
      assert EdgeAt(r, |b| / 2) == EdgeAt(edges, j);
    } else {
      SelectComplete(edges, keep, k - 1, j);
      var t :| 0 <= t < |b| / 2 && EdgeAt(b, t) == EdgeAt(edges, j);
      PrefixPair(b, c, t);
    }
  }

  /** One flag per pair of `edges`: whether that pair is a bridge. */
  ghost function BridgeFlags(n: nat, edges: seq<nat>): (r: seq<bool>)
    requires n <= 64 && EdgeListOk(n, edges)
    ensures |r| == |edges| / 2
    ensures forall j :: 0 <= j < |r| ==> (r[j] <==> IsBridge(n, edges, j))
  {
    seq(|edges| / 2, j requires 0 <= j < |edges| / 2 => IsBridge(n, edges, j))
  }

  /** The endpoints of the bridges among the first k pairs, pair by pair in edge order. */
  ghost function Bridges(n: nat, edges: seq<nat>, k: nat): (r: seq<nat>)
    requires n <= 64 && EdgeListOk(n, edges) && k <= |edges| / 2
  {
    Select(edges, BridgeFlags(n, edges), k)
  }

  /** p is stored as one of the first k pairs of `edges`, and that pair is a bridge. */
  ghost predicate BridgePair(n: nat, edges: seq<nat>, k: nat, p: (nat, nat))
    requires n <= 64 && EdgeListOk(n, edges) && k <= |edges| / 2
  {
    exists j :: 0 <= j < k && IsBridge(n, edges, j) && EdgeAt(edges, j) == p
  }

  /** Every reported pair is a bridge among the first k pairs, as it is stored. */
  lemma BridgesSound(n: nat, edges: seq<nat>, k: nat, t: nat)
    requires n <= 64 && EdgeListOk(n, edges) && k <= |edges| / 2
    requires t < |Bridges(n, edges, k)| / 2
    ensures BridgePair(n, edges, k, EdgeAt(Bridges(n, edges, k), t))
  {
    var keep := BridgeFlags(n, edges);
    SelectSound(edges, keep, k, t);
    var j :| 0 <= j < k && keep[j] && EdgeAt(edges, j) == EdgeAt(Select(edges, keep, k), t);
  }

  /**
    The pairs reported after k candidates are exactly the bridges among the
    first k pairs, each as it is stored in the edge sequence; so the result is
    itself an edge sequence `add_edge` accepts.
  */
  lemma BridgesAreBridges(n: nat, edges: seq<nat>, k: nat)
    requires n <= 64 && EdgeListOk(n, edges) && k <= |edges| / 2
    ensures EdgeListOk(n, Bridges(n, edges, k))
    ensures forall p :: Listed(Bridges(n, edges, k), p) <==> BridgePair(n, edges, k, p)
  {
    var r := Bridges(n, edges, k);
    var keep := BridgeFlags(n, edges);
    forall p | Listed(r, p) ensures BridgePair(n, edges, k, p) {
      var t :| 0 <= t < |r| / 2 && EdgeAt(r, t) == p;
      BridgesSound(n, edges, k, t);
    }
    forall p | BridgePair(n, edges, k, p) ensures Listed(r, p) {
      var j :| 0 <= j < k && IsBridge(n, edges, j) && EdgeAt(edges, j) == p;
      SelectComplete(edges, keep, k, j);
    }
    forall t | 0 <= t < |r| / 2
      ensures PairOk(n, EdgeAt(r, t).0, EdgeAt(r, t).1)
    {
      SelectSound(edges, keep, k, t);
      var j :| 0 <= j < k && keep[j] && EdgeAt(edges, j) == EdgeAt(r, t);
      assert PairOk(n, EdgeAt(edges, j).0, EdgeAt(edges, j).1);
    }
    assert EdgeListOk(n, r);
  }

  /**
    When every stored pair has its smaller endpoint first, as the builders of
    graph.cpp store them, so does every reported pair: the assertion of
    `get_bridges` on the candidate then holds.
  */
  lemma BridgesOrdered(n: nat, edges: seq<nat>, k: nat)
    requires n <= 64 && EdgeListOk(n, edges) && k <= |edges| / 2
    requires Ordered(edges)
    ensures Ordered(Bridges(n, edges, k))
  {
    var r := Bridges(n, edges, k);
    var keep := BridgeFlags(n, edges);
    forall t | 0 <= t < |r| / 2 ensures EdgeAt(r, t).0 < EdgeAt(r, t).1 {
      SelectSound(edges, keep, k, t);
      var j :| 0 <= j < k && keep[j] && EdgeAt(edges, j) == EdgeAt(r, t);
    }
  }

  /**
    The naive test reports every edge of a disconnected graph: removing an
    edge never connects what was not connected.
  */
  lemma DisconnectedAllBridges(n: nat, edges: seq<nat>, k: nat)
    requires n <= 64 && EdgeListOk(n, edges) && k < |edges| / 2
    requires !Connected(FromEdges(n, edges))
    ensures IsBridge(n, edges, k)
  {
    RemovePairSubGraph(n, edges, k);
    if n >= 1 && Connected(FromEdges(n, RemovePair(edges, k))) {
      SubGraphConnected(FromEdges(n, RemovePair(edges, k)), FromEdges(n, edges));
    }
  }

  /** A pair stored twice is never a bridge of a connected graph: the other copy stays. */
  lemma DuplicateNotBridge(n: nat, edges: seq<nat>, k: nat, j: nat)
    requires n <= 64 && EdgeListOk(n, edges) && k < |edges| / 2 && j < |edges| / 2 && j != k
    requires EdgeAt(edges, j) == EdgeAt(edges, k)
    requires n >= 1 && Connected(FromEdges(n, edges))
    ensures !IsBridge(n, edges, k)
  {
    RemovePairSubGraph(n, edges, k);
    var r := RemovePair(edges, k);
    forall u: nat, w: nat | Edge(FromEdges(n, edges), u, w) ensures Edge(FromEdges(n, r), u, w) {
      FromEdgesAdjacency(n, edges, u, w);
      FromEdgesAdjacency(n, r, u, w);
      JoinsRemovePair(edges, k, u, w);
      var i :| 0 <= i < |edges| / 2 && (EdgeAt(edges, i) == (u, w) || EdgeAt(edges, i) == (w, u));
      if i == k {
        assert EdgeAt(edges, j) == (u, w) || EdgeAt(edges, j) == (w, u);
      }
    }
    SubGraphConnected(FromEdges(n, edges), FromEdges(n, r));
  }

  /** The `for` loop over `edges_ref` at graph.cpp:321-324: a graph on n vertices holding exactly `edges`. */
  method BuildFrom(n: nat, edges: seq<nat>) returns (h: Graph)
    requires n <= 64 && EdgeListOk(n, edges)
    ensures fresh(h) && fresh(h.adj) && h.Valid()
    ensures h.adj.Length == n && h.edges == edges
  {
    h := new Graph(n);
    var j := 0;
    while j < |edges|
      invariant j <= |edges| && j % 2 == 0
      invariant fresh(h) && fresh(h.adj) && h.Valid() && h.adj.Length == n
      invariant h.edges == edges[..j]
    {
      assert PairOk(n, EdgeAt(edges, j / 2).0, EdgeAt(edges, j / 2).1);
      h.AddEdge(edges[j], edges[j + 1]);
      assert edges[..j + 2] == edges[..j] + [edges[j], edges[j + 1]];
      j := j + 2;
    }
    assert edges[..j] == edges;
  }

  /**
    One turn of the loop of `get_bridges`: erases the candidate pair k (at
    positions i and i + 1), rebuilds the graph on n vertices from the rest and
    tests it with `is_connected`.
  */
  method TestCandidate(n: nat, edges: seq<nat>, i: nat, ghost k: nat) returns (bridge: bool)
    requires n <= 64 && EdgeListOk(n, edges) && i == 2 * k && i + 1 < |edges|
    ensures bridge <==> IsBridge(n, edges, k)
  {
    var rest := edges[..i] + edges[i + 2..];
    assert rest == RemovePair(edges, k);
    RemovePairOk(n, edges, k);
    var h := BuildFrom(n, rest);
    var connected := IsConnected(h);
    bridge := !connected;
  }

  /**
    `get_bridges(g)`: for each pair of the edge sequence, in order, rebuilds the
    graph without it and reports the pair when that graph is not connected.
  */
  method GetBridges(g: Graph) returns (r: seq<nat>)
    requires g.Valid()
    ensures r == Bridges(g.adj.Length, g.edges, |g.edges| / 2)
  {
    var edges := g.GetEdges();
    var n := g.NumVertices();
    var m := |edges|;
    assert m % 2 == 0;
    r := [];
    var i := 0;
    ghost var k: nat := 0;
    while i < m - 1
      invariant i == 2 * k && k <= m / 2
      invariant r == Bridges(n, edges, k)
    {
      var bridge := TestCandidate(n, edges, i, k);
      if bridge {
        r := r + [edges[i], edges[i + 1]];
      }
      i, k := i + 2, k + 1;
    }
    assert k == m / 2;
  }

  // ---------------------------------------------------------------------------
  // get_diameter and get_diametral_pair

  /**
    d is the diameter as `get_diameter` measures it: no `bfs` label exceeds it
    and, when there is a vertex, some label equals it. An unreachable vertex is
    labelled 0, so on a disconnected graph this is the largest distance within
    a component.
  */
  ghost predicate IsDiameter(a: seq<Word>, d: int)
  {
    (forall u: nat, v: nat :: u < |a| && v < |a| ==> Dist(a, u, v) <= d) &&
    (|a| == 0 ==> d == 0) &&
    (|a| >= 1 ==> exists u: nat, v: nat :: u < |a| && v < |a| && Dist(a, u, v) == d)
  }

  /** The diameter is determined by the graph. */
  lemma DiameterUnique(a: seq<Word>, d: int, d': int)
    requires IsDiameter(a, d) && IsDiameter(a, d')
    ensures d == d'
  {
    if |a| >= 1 {
      var u: nat, v: nat :| u < |a| && v < |a| && Dist(a, u, v) == d;
      var u': nat, v': nat :| u' < |a| && v' < |a| && Dist(a, u', v') == d';
    }
  }

  /**
    `std::max_element` on a non-empty vector: the index of the first largest
    element.
  */
  method MaxElement(dist: array<int>) returns (k: nat)
    requires dist.Length > 0
    ensures k < dist.Length
    ensures forall i :: 0 <= i < dist.Length ==> dist[i] <= dist[k]
    ensures forall i :: 0 <= i < k ==> dist[i] < dist[k]
  {
    k := 0;
    var i := 1;
    while i < dist.Length
      invariant 1 <= i <= dist.Length && k < i
      invariant forall j :: 0 <= j < i ==> dist[j] <= dist[k]
      invariant forall j :: 0 <= j < k ==> dist[j] < dist[k]
    {
      if dist[k] < dist[i] {
        k := i;
      }
      i := i + 1;
    }
  }

  /** `get_diameter(g)`: the largest `bfs` label over all sources, 0 without vertices. */
  method GetDiameter(g: Graph) returns (diam: int)
    requires g.Valid()
    ensures IsDiameter(g.adj[..], diam)
  {
    var n := g.adj.Length;
    ghost var a := g.adj[..];
    diam := 0;
    ghost var wu: nat, wv: nat := 0, 0;
    var i := 0;
    while i < n
      invariant i <= n && a == g.adj[..]
      invariant forall u: nat, v: nat :: u < i && v < n ==> Dist(a, u, v) <= diam
      invariant i == 0 ==> diam == 0
      invariant i >= 1 ==> wu < i && wv < n && Dist(a, wu, wv) == diam
    {
      var dist := new int[n](_ => 0);
      Bfs(g, dist, i);
      var k := MaxElement(dist);
      var current := dist[k];
      if current > diam {
        diam := current;
        wu, wv := i, k;
      } else if i == 0 {
        wu, wv := i, k;
      }
      i := i + 1;
    }
  }

  /**
    (i, k) is the pair `get_diametral_pair` finds: k is at diameter distance
    from i, no source before i has a vertex at that distance, and no vertex
    before k is at that distance from i.
  */
  ghost predicate FirstDiametral(a: seq<Word>, i: nat, k: nat)
  {
    i < |a| && k < |a| && IsDiameter(a, Dist(a, i, k)) &&
    (forall u: nat, v: nat :: u < i && v < |a| ==> Dist(a, u, v) < Dist(a, i, k)) &&
    (forall v: nat :: v < k ==> Dist(a, i, v) < Dist(a, i, k))
  }

  /** At most one pair is the first diametral pair. */
  lemma FirstDiametralUnique(a: seq<Word>, i: nat, k: nat, i': nat, k': nat)
    requires FirstDiametral(a, i, k) && FirstDiametral(a, i', k')
    ensures i == i' && k == k'
  {
    DiameterUnique(a, Dist(a, i, k), Dist(a, i', k'));
  }

  /**
    `get_diametral_pair(g)`: the first diametral pair, smaller vertex first; its
    endpoints are at diameter distance. Without vertices the search loop does
    not run and (0, 0) is returned.
  */
  method GetDiametralPair(g: Graph) returns (r: (nat, nat))
    requires g.Valid()
    ensures g.adj.Length == 0 ==> r == (0, 0)
    ensures g.adj.Length >= 1 ==> r.0 <= r.1 < g.adj.Length && IsDiameter(g.adj[..], Dist(g.adj[..], r.0, r.1))
    ensures g.adj.Length >= 1 ==> exists i: nat, k: nat :: FirstDiametral(g.adj[..], i, k) && r == (Min(i, k), Max(i, k))
  {
    var diam := GetDiameter(g);
    var n := g.adj.Length;
    ghost var a := g.adj[..];
    var i := 0;
    while i < n
      invariant i <= n && a == g.adj[..]
      invariant forall u: nat, v: nat :: u < i && v < n ==> Dist(a, u, v) < diam
    {
      var dist := new int[n](_ => 0);
      Bfs(g, dist, i);
      var k := MaxElement(dist);
      if diam == dist[k] {
        FromEdgesWellFormed(n, g.edges);
        DistSymmetric(a, i, k);
        assert FirstDiametral(a, i, k);
        r := (Min(i, k), Max(i, k));
        return;
      }
      i := i + 1;
    }
    r := (0, 0);
  }
}
