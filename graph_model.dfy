/**
  The mathematical graph behind `graph` (graph.hpp, graph.cpp): the adjacency
  masks that a flat edge sequence [u0, v0, u1, v1, ...] produces through
  `add_edge`, and reachability and hop distance over an adjacency.
*/
module GraphModel {
  import opened Bits

  // ---------------------------------------------------------------------------
  // Edge sequences

  /** Pair k of a flat edge sequence. */
  function EdgeAt(edges: seq<nat>, k: nat): (nat, nat)
    requires 2 * k + 1 < |edges|
  {
    (edges[2 * k], edges[2 * k + 1])
  }

  /** What `add_edge(u, v)` demands: distinct endpoints, both below n. */
  predicate PairOk(n: nat, u: nat, v: nat)
  {
    u != v && u < n && v < n
  }

  /** An edge sequence whose every pair `add_edge` accepts on n vertices. */
  predicate EdgeListOk(n: nat, edges: seq<nat>)
  {
    |edges| % 2 == 0 &&
    forall k :: 0 <= k < |edges| / 2 ==> PairOk(n, EdgeAt(edges, k).0, EdgeAt(edges, k).1)
  }

  /** Every pair of the edge sequence has its smaller endpoint first. */
  predicate Ordered(edges: seq<nat>)
  {
    forall k :: 0 <= k < |edges| / 2 ==> EdgeAt(edges, k).0 < EdgeAt(edges, k).1
  }

  /** Some pair of the edge sequence joins u and v, in either orientation. */
  ghost predicate Joins(edges: seq<nat>, u: nat, v: nat)
  {
    exists k :: 0 <= k < |edges| / 2 && (EdgeAt(edges, k) == (u, v) || EdgeAt(edges, k) == (v, u))
  }

  lemma EdgeListOkPrefix(n: nat, edges: seq<nat>)
    requires EdgeListOk(n, edges) && |edges| >= 2
    ensures EdgeListOk(n, edges[..|edges| - 2])
    ensures PairOk(n, edges[|edges| - 2], edges[|edges| - 1])
  {
    var m := |edges| / 2;
    var e := edges[..|edges| - 2];
    assert EdgeAt(edges, m - 1) == (edges[|edges| - 2], edges[|edges| - 1]);
    forall k | 0 <= k < |e| / 2
      ensures PairOk(n, EdgeAt(e, k).0, EdgeAt(e, k).1)
    {
      assert EdgeAt(e, k) == EdgeAt(edges, k);
    }
  }

  lemma EdgeListOkAppend(n: nat, edges: seq<nat>, u: nat, v: nat)
    requires EdgeListOk(n, edges) && PairOk(n, u, v)
    ensures EdgeListOk(n, edges + [u, v])
  {
    var e := edges + [u, v];
    forall k | 0 <= k < |e| / 2
      ensures PairOk(n, EdgeAt(e, k).0, EdgeAt(e, k).1)
    {
      if k < |edges| / 2 {
        assert EdgeAt(e, k) == EdgeAt(edges, k);
      } else {
        assert EdgeAt(e, k) == (u, v);
      }
    }
  }

  /** The pairs of `edges + [u, v]` are those of `edges` and (u, v). */
  lemma JoinsAppend(edges: seq<nat>, u: nat, v: nat, x: nat, y: nat)
    requires |edges| % 2 == 0
    ensures Joins(edges + [u, v], x, y) <==> Joins(edges, x, y) || (x, y) == (u, v) || (x, y) == (v, u)
  {
    var e := edges + [u, v];
    var m := |edges| / 2;
    assert EdgeAt(e, m) == (u, v);
    if Joins(e, x, y) {
      var k :| 0 <= k < |e| / 2 && (EdgeAt(e, k) == (x, y) || EdgeAt(e, k) == (y, x));
      if k < m {
        assert EdgeAt(e, k) == EdgeAt(edges, k);
      }
    }
    if Joins(edges, x, y) {
      var k :| 0 <= k < |edges| / 2 && (EdgeAt(edges, k) == (x, y) || EdgeAt(edges, k) == (y, x));
      assert EdgeAt(e, k) == EdgeAt(edges, k);
    }
  }

  /** The vertices 0 .. n - 1. */
  function Vertices(n: nat): (r: set<nat>)
    ensures forall v :: v in r <==> 0 <= v < n
    ensures |r| == n
  {
    if n == 0 then {} else Vertices(n - 1) + {n - 1}
  }

  // ---------------------------------------------------------------------------
  // Adjacency masks

  /** n all-zero masks: a graph with no edges. */
  function Empty(n: nat): (adj: seq<Word>)
    ensures |adj| == n && forall u :: 0 <= u < n ==> adj[u] == Zero
  {
    seq(n, _ => Zero)
  }

  /** What `add_edge(u, v)` does to the masks: bit v of adj[u] and bit u of adj[v] set. */
  function Link(adj: seq<Word>, u: nat, v: nat): (r: seq<Word>)
    requires u < |adj| && v < |adj| && |adj| <= 64
    ensures |r| == |adj|
  {
    adj[u := Or(adj[u], Bit(v))][v := Or(adj[v], Bit(u))]
  }

  /** The masks after `add_edge` of each pair of `edges`, in order, on n vertices. */
  function FromEdges(n: nat, edges: seq<nat>): (adj: seq<Word>)
    requires n <= 64 && EdgeListOk(n, edges)
    ensures |adj| == n
    decreases |edges|
  {
    if |edges| == 0 then Empty(n)
    else
      EdgeListOkPrefix(n, edges);
      Link(FromEdges(n, edges[..|edges| - 2]), edges[|edges| - 2], edges[|edges| - 1])
  }

  /** `add_edge(u, v)` changes the masks of u and v only, by one member each. */
  lemma LinkMembers(adj: seq<Word>, u: nat, v: nat, x: nat)
    requires u < |adj| && v < |adj| && |adj| <= 64 && u != v && x < |adj|
    ensures Members(Link(adj, u, v)[x]) ==
      Members(adj[x]) + (if x == u then {v} else {}) + (if x == v then {u} else {})
  {
    MembersSet(adj[u], v);
    MembersSet(adj[v], u);
  }

  /** Vertex v is in the mask of u exactly when some pair of the edge list joins them. */
  lemma {:induction false} FromEdgesAdjacency(n: nat, edges: seq<nat>, u: nat, v: nat)
    requires n <= 64 && EdgeListOk(n, edges) && u < n
    ensures v in Members(FromEdges(n, edges)[u]) <==> Joins(edges, u, v)
    decreases |edges|
  {
    if |edges| == 0 {
      MembersEmpty(Zero);
    } else {
      var e := edges[..|edges| - 2];
      var a, b := edges[|edges| - 2], edges[|edges| - 1];
      EdgeListOkPrefix(n, edges);
      FromEdgesAdjacency(n, e, u, v);
      LinkMembers(FromEdges(n, e), a, b, u);
      assert e + [a, b] == edges;
      JoinsAppend(e, a, b, u, v);
    }
  }

  /** The mask of u holds v: `is_adjacent(g, u, v)`. */
  ghost predicate Edge(adj: seq<Word>, u: nat, v: nat)
  {
    u < |adj| && v in Members(adj[u])
  }

  /**
    The masks of a graph built only through `add_edge` on at most 64 vertices:
    neighbours are vertices, there are no loops, and adjacency is symmetric.
  */
  ghost predicate WellFormed(adj: seq<Word>)
  {
    |adj| <= 64 &&
    forall u: nat, v: nat :: Edge(adj, u, v) ==> v < |adj| && v != u && Edge(adj, v, u)
  }

  lemma FromEdgesWellFormed(n: nat, edges: seq<nat>)
    requires n <= 64 && EdgeListOk(n, edges)
    ensures WellFormed(FromEdges(n, edges))
  {
    var adj := FromEdges(n, edges);
    forall u: nat, v: nat | Edge(adj, u, v)
      ensures v < n && v != u && Edge(adj, v, u)
    {
      FromEdgesAdjacency(n, edges, u, v);
      var k :| 0 <= k < |edges| / 2 && (EdgeAt(edges, k) == (u, v) || EdgeAt(edges, k) == (v, u));
      assert PairOk(n, EdgeAt(edges, k).0, EdgeAt(edges, k).1);
      FromEdgesAdjacency(n, edges, v, u);
    }
  }

  // ---------------------------------------------------------------------------
  // Reachability and hop distance

  /** v can be reached from s in at most k hops. */
  ghost predicate Within(adj: seq<Word>, s: nat, v: nat, k: nat)
    decreases k
  {
    if k == 0 then v == s
    else Within(adj, s, v, k - 1) || exists u: nat :: Edge(adj, u, v) && Within(adj, s, u, k - 1)
  }

  ghost predicate Reachable(adj: seq<Word>, s: nat, v: nat)
  {
    exists k: nat :: Within(adj, s, v, k)
  }

  /** d is the least number of hops from s to v. */
  ghost predicate IsDist(adj: seq<Word>, s: nat, v: nat, d: nat)
  {
    Within(adj, s, v, d) && forall e: nat :: e < d ==> !Within(adj, s, v, e)
  }

  /**
    The hop distance from s to v, and 0 when v is not reachable: the value `bfs`
    leaves in `dist[v]`.
  */
  ghost function Dist(adj: seq<Word>, s: nat, v: nat): nat
  {
    if Reachable(adj, s, v) then
      LeastLayer(adj, s, v);
      var d: nat :| IsDist(adj, s, v, d); d
    else 0
  }

  lemma LeastLayer(adj: seq<Word>, s: nat, v: nat)
    requires Reachable(adj, s, v)
    ensures exists d: nat :: IsDist(adj, s, v, d)
  {
    var k: nat :| Within(adj, s, v, k);
    LeastLayerBelow(adj, s, v, k);
  }

  lemma {:induction false} LeastLayerBelow(adj: seq<Word>, s: nat, v: nat, k: nat)
    requires Within(adj, s, v, k)
    ensures exists d: nat :: d <= k && IsDist(adj, s, v, d)
  {
    if forall e: nat :: e < k ==> !Within(adj, s, v, e) {
      assert IsDist(adj, s, v, k);
    } else {
      var e: nat :| e < k && Within(adj, s, v, e);
      LeastLayerBelow(adj, s, v, e);
    }
  }

  /** Dist is the least number of hops. */
  lemma DistIsDist(adj: seq<Word>, s: nat, v: nat)
    requires Reachable(adj, s, v)
    ensures IsDist(adj, s, v, Dist(adj, s, v))
  {
  }

  /** Distances only grow a reachable set: more hops reach at least as much. */
  lemma {:induction false} WithinMonotone(adj: seq<Word>, s: nat, v: nat, j: nat, k: nat)
    requires j <= k && Within(adj, s, v, j)
    ensures Within(adj, s, v, k)
    decreases k - j
  {
    if j < k {
      WithinMonotone(adj, s, v, j, k - 1);
    }
  }

  lemma DistSource(adj: seq<Word>, s: nat)
    ensures Reachable(adj, s, s) && Dist(adj, s, s) == 0
  {
    assert Within(adj, s, s, 0);
    assert IsDist(adj, s, s, 0);
  }

  /** Only the source is at distance 0. */
  lemma DistZero(adj: seq<Word>, s: nat, v: nat)
    requires Reachable(adj, s, v) && Dist(adj, s, v) == 0
    ensures v == s
  {
    DistIsDist(adj, s, v);
  }

  /** A vertex within k hops is at distance at most k. */
  lemma DistAtMost(adj: seq<Word>, s: nat, v: nat, k: nat)
    requires Within(adj, s, v, k)
    ensures Reachable(adj, s, v) && Dist(adj, s, v) <= k
  {
    DistIsDist(adj, s, v);
  }

  /** Across an edge the distance grows by at most one. */
  lemma DistNeighbour(adj: seq<Word>, s: nat, u: nat, v: nat)
    requires Reachable(adj, s, u) && Edge(adj, u, v)
    ensures Reachable(adj, s, v) && Dist(adj, s, v) <= Dist(adj, s, u) + 1
  {
    var d := Dist(adj, s, u);
    DistIsDist(adj, s, u);
    assert Within(adj, s, v, d + 1);
    DistAtMost(adj, s, v, d + 1);
  }

  /** A vertex at distance d > 0 is a neighbour of a vertex at distance d - 1. */
  lemma DistPredecessor(adj: seq<Word>, s: nat, v: nat)
    requires Reachable(adj, s, v) && Dist(adj, s, v) > 0
    ensures exists u: nat :: Edge(adj, u, v) && Reachable(adj, s, u) && Dist(adj, s, u) == Dist(adj, s, v) - 1
  {
    var d := Dist(adj, s, v);
    DistIsDist(adj, s, v);
    assert !Within(adj, s, v, d - 1);
    var u: nat :| Edge(adj, u, v) && Within(adj, s, u, d - 1);
    DistAtMost(adj, s, u, d - 1);
    DistNeighbour(adj, s, u, v);
  }

  /** A set holding s and closed under taking neighbours holds everything reachable from s. */
  lemma ClosedHoldsReachable(adj: seq<Word>, s: nat, V: set<nat>, v: nat)
    requires s in V
    requires forall u: nat, w: nat :: u in V && Edge(adj, u, w) ==> w in V
    requires Reachable(adj, s, v)
    ensures v in V
  {
    var k: nat :| Within(adj, s, v, k);
    ClosedHoldsWithin(adj, s, V, v, k);
  }

  lemma {:induction false} ClosedHoldsWithin(adj: seq<Word>, s: nat, V: set<nat>, v: nat, k: nat)
    requires s in V
    requires forall u: nat, w: nat :: u in V && Edge(adj, u, w) ==> w in V
    requires Within(adj, s, v, k)
    ensures v in V
    decreases k
  {
    if k > 0 {
      if Within(adj, s, v, k - 1) {
        ClosedHoldsWithin(adj, s, V, v, k - 1);
      } else {
        var u: nat :| Edge(adj, u, v) && Within(adj, s, u, k - 1);
        ClosedHoldsWithin(adj, s, V, u, k - 1);
      }
    }
  }

  /** From a vertex only vertices are reachable. */
  lemma ReachableBound(adj: seq<Word>, s: nat, v: nat)
    requires WellFormed(adj) && s < |adj| && Reachable(adj, s, v)
    ensures v < |adj|
  {
    var k: nat :| Within(adj, s, v, k);
    WithinBound(adj, s, v, k);
  }

  lemma {:induction false} WithinBound(adj: seq<Word>, s: nat, v: nat, k: nat)
    requires WellFormed(adj) && s < |adj| && Within(adj, s, v, k)
    ensures v < |adj|
    decreases k
  {
    if k > 0 && !Within(adj, s, v, k - 1) {
      var u: nat :| Edge(adj, u, v) && Within(adj, s, u, k - 1);
    } else if k > 0 {
      WithinBound(adj, s, v, k - 1);
    }
  }

  /** Walks read backwards: a first step from y to u, then k hops from u to x. */
  lemma {:induction false} FirstStep(adj: seq<Word>, y: nat, u: nat, k: nat, x: nat)
    requires Edge(adj, y, u) && Within(adj, u, x, k)
    ensures Within(adj, y, x, k + 1)
    decreases k
  {
    if k == 0 {
      assert Within(adj, y, y, 0);
    } else if Within(adj, u, x, k - 1) {
      FirstStep(adj, y, u, k - 1, x);
    } else {
      var w: nat :| Edge(adj, w, x) && Within(adj, u, w, k - 1);
      FirstStep(adj, y, u, k - 1, w);
    }
  }

  /** In a well-formed graph y is within k hops of x iff x is within k hops of y. */
  lemma {:induction false} WithinSymmetric(adj: seq<Word>, x: nat, y: nat, k: nat)
    requires WellFormed(adj) && Within(adj, x, y, k)
    ensures Within(adj, y, x, k)
    decreases k
  {
    if k > 0 {
      if Within(adj, x, y, k - 1) {
        WithinSymmetric(adj, x, y, k - 1);
        WithinMonotone(adj, y, x, k - 1, k);
      } else {
        var u: nat :| Edge(adj, u, y) && Within(adj, x, u, k - 1);
        WithinSymmetric(adj, x, u, k - 1);
        FirstStep(adj, y, u, k - 1, x);
      }
    }
  }

  /** Reachability and hop distance are symmetric in a well-formed graph. */
  lemma DistSymmetric(adj: seq<Word>, x: nat, y: nat)
    requires WellFormed(adj)
    ensures Reachable(adj, x, y) <==> Reachable(adj, y, x)
    ensures Dist(adj, x, y) == Dist(adj, y, x)
  {
    forall k: nat | Within(adj, x, y, k) ensures Within(adj, y, x, k) {
      WithinSymmetric(adj, x, y, k);
    }
    forall k: nat | Within(adj, y, x, k) ensures Within(adj, x, y, k) {
      WithinSymmetric(adj, y, x, k);
    }
    if Reachable(adj, x, y) {
      DistIsDist(adj, x, y);
      DistIsDist(adj, y, x);
      assert IsDist(adj, y, x, Dist(adj, x, y));
    }
  }

  /** Every vertex is reachable from vertex 0. */
  ghost predicate Connected(adj: seq<Word>)
  {
    forall v :: 0 <= v < |adj| ==> Reachable(adj, 0, v)
  }

  // ---------------------------------------------------------------------------
  // Vertex sequences and walks

  predicate Distinct(s: seq<nat>)
  {
    forall i, j :: 0 <= i < j < |s| ==> s[i] != s[j]
  }

  /** The vertices occurring in s. */
  function Elems(s: seq<nat>): (r: set<nat>)
    ensures forall x :: x in r <==> x in s
  {
    if |s| == 0 then {} else Elems(s[..|s| - 1]) + {s[|s| - 1]}
  }

  lemma ElemsAppend(s: seq<nat>, x: nat)
    ensures Elems(s + [x]) == Elems(s) + {x}
  {
    assert (s + [x])[..|s|] == s;
  }

  lemma {:induction false} DistinctElems(s: seq<nat>)
    requires Distinct(s)
    ensures |Elems(s)| == |s|
  {
    if |s| > 0 {
      var init := s[..|s| - 1];
      assert Distinct(init);
      DistinctElems(init);
      assert s[|s| - 1] !in init;
    }
  }

  /** A sequence of distinct vertices below n has at most n elements. */
  lemma DistinctBound(s: seq<nat>, n: nat)
    requires Distinct(s) && forall i :: 0 <= i < |s| ==> s[i] < n
    ensures |s| <= n
  {
    DistinctElems(s);
    assert Elems(s) <= Vertices(n);
    SubsetCard(Elems(s), Vertices(n));
  }

  lemma SubsetCard(a: set<nat>, b: set<nat>)
    requires a <= b
    ensures |a| <= |b|
  {
    assert b == a + (b - a);
  }

  /** Consecutive vertices of p are adjacent. */
  ghost predicate IsWalk(adj: seq<Word>, p: seq<nat>)
  {
    forall i :: 0 <= i < |p| - 1 ==> Edge(adj, p[i], p[i + 1])
  }

  /** A simple path from s to t: a walk from s to t that repeats no vertex. */
  ghost predicate IsSimplePath(adj: seq<Word>, p: seq<nat>, s: nat, t: nat)
  {
    |p| >= 1 && p[0] == s && p[|p| - 1] == t && IsWalk(adj, p) && Distinct(p)
  }

  /** A walk reaches its i-th vertex from its first in at most i hops. */
  lemma {:induction false} WalkWithin(adj: seq<Word>, p: seq<nat>, i: nat)
    requires IsWalk(adj, p) && i < |p|
    ensures Within(adj, p[0], p[i], i)
  {
    if i > 0 {
      WalkWithin(adj, p, i - 1);
      assert Edge(adj, p[i - 1], p[i]);
    }
  }

  /** Hops add up: j hops from x to y then k hops from y to z. */
  lemma {:induction false} WithinTrans(adj: seq<Word>, x: nat, y: nat, z: nat, j: nat, k: nat)
    requires Within(adj, x, y, j) && Within(adj, y, z, k)
    ensures Within(adj, x, z, j + k)
    decreases k
  {
    if k == 0 {
    } else if Within(adj, y, z, k - 1) {
      WithinTrans(adj, x, y, z, j, k - 1);
      WithinMonotone(adj, x, z, j + k - 1, j + k);
    } else {
      var u: nat :| Edge(adj, u, z) && Within(adj, y, u, k - 1);
      WithinTrans(adj, x, y, u, j, k - 1);
    }
  }
}
