/**
  The two breadth-first traversals of graph.cpp: `bfs`, which labels every
  vertex with its hop distance from a source, and `is_connected`, which runs
  the same search on a mask used as the queue.
*/
module Traversal {
  import opened Bits
  import opened GraphModel
  import opened Graphs

  // ---------------------------------------------------------------------------
  // bfs

  /**
    d labels the vertices of `order` with their hop distance from s and every
    other vertex with 0: what `dist` holds while `bfs` runs.
  */
  ghost predicate Labels(a: seq<Word>, s: nat, order: seq<nat>, d: seq<int>)
  {
    |d| == |a| && forall x :: 0 <= x < |a| ==> d[x] == (if x in order then Dist(a, s, x) else 0)
  }

  /**
    The queue of `bfs` from s while it scans the neighbours below i of the
    queue front order[h]. `order` lists every vertex ever pushed, in push order,
    so the queue is order[h..] and the visited mask holds exactly `order`.
    - every pushed vertex is reachable;
    - the queue holds one layer: order[h..m] lie as far from s as the front,
      order[m..] one hop farther;
    - the popped vertices have all their neighbours pushed, and so do the
      neighbours below i of the front;
    - every vertex no farther than the front has been pushed.
  */
  ghost predicate BfsState(a: seq<Word>, s: nat, order: seq<nat>, h: nat, m: nat, i: nat)
  {
    WellFormed(a) && s < |a| &&
    1 <= |order| && order[0] == s && h <= m <= |order| && (h < |order| ==> h < m) &&
    Distinct(order) && (forall j :: 0 <= j < |order| ==> order[j] < |a| && Reachable(a, s, order[j])) &&
    (forall k :: h <= k < m ==> Dist(a, s, order[k]) == Dist(a, s, order[h])) &&
    (forall k :: m <= k < |order| ==> Dist(a, s, order[k]) == Dist(a, s, order[h]) + 1) &&
    (forall j, w :: 0 <= j < h && Edge(a, order[j], w) ==> w in order) &&
    (h < |order| ==> forall w :: 0 <= w < i && Edge(a, order[h], w) ==> w in order) &&
    (h < |order| ==> forall x: nat :: Reachable(a, s, x) && Dist(a, s, x) <= Dist(a, s, order[h]) ==> x in order)
  }

  lemma BfsStart(a: seq<Word>, s: nat, d: seq<int>)
    requires WellFormed(a) && s < |a| && |d| == |a|
    requires forall x :: 0 <= x < |d| ==> d[x] == 0
    ensures BfsState(a, s, [s], 0, 1, 0) && Labels(a, s, [s], d)
  {
    DistSource(a, s);
    forall x: nat | Reachable(a, s, x) && Dist(a, s, x) <= Dist(a, s, s)
      ensures x in [s]
    {
      DistZero(a, s, x);
    }
  }

  /** Scanning a vertex that is not a new neighbour of the front changes nothing. */
  lemma BfsSkip(a: seq<Word>, s: nat, order: seq<nat>, h: nat, m: nat, i: nat)
    requires BfsState(a, s, order, h, m, i) && h < |order| && i < |a|
    requires !(Edge(a, order[h], i) && i !in order)
    ensures BfsState(a, s, order, h, m, i + 1)
  {
  }

  /**
    A new neighbour i of the front lies one hop farther than the front, and
    pushing it keeps the state.
  */
  lemma BfsPush(a: seq<Word>, s: nat, order: seq<nat>, h: nat, m: nat, i: nat)
    requires BfsState(a, s, order, h, m, i) && h < |order| && i < |a|
    requires Edge(a, order[h], i) && i !in order
    ensures Dist(a, s, i) == 1 + Dist(a, s, order[h])
    ensures BfsState(a, s, order + [i], h, m, i + 1)
  {
    var v := order[h];
    DistNeighbour(a, s, v, i);
    var order' := order + [i];
    forall j | 0 <= j < |order'|
      ensures order'[j] < |a| && Reachable(a, s, order'[j])
    {
      if j < |order| {
        assert order'[j] == order[j];
      }
    }
    forall k | h <= k < m
      ensures Dist(a, s, order'[k]) == Dist(a, s, order'[h])
    {
      assert order'[k] == order[k];
    }
    forall k | m <= k < |order'|
      ensures Dist(a, s, order'[k]) == Dist(a, s, order'[h]) + 1
    {
      if k < |order| {
        assert order'[k] == order[k];
      }
    }
  }

  /**
    Pushing a new neighbour i of the front and setting its label to one more
    than the front's label keeps both the state and the labels.
  */
  lemma LabelsPush(a: seq<Word>, s: nat, order: seq<nat>, h: nat, m: nat, i: nat, d: seq<int>, d': seq<int>)
    requires BfsState(a, s, order, h, m, i) && h < |order| && i < |a|
    requires Edge(a, order[h], i) && i !in order
    requires Labels(a, s, order, d) && d' == d[i := 1 + d[order[h]]]
    ensures BfsState(a, s, order + [i], h, m, i + 1) && Labels(a, s, order + [i], d')
  {
    BfsPush(a, s, order, h, m, i);
    assert order[h] in order;
  }

  /**
    Popping the front once all its neighbours are scanned keeps the state; when
    the front was the last of its layer, the next layer becomes the current one.
  */
  lemma BfsPop(a: seq<Word>, s: nat, order: seq<nat>, h: nat, m: nat)
    requires BfsState(a, s, order, h, m, |a|) && h < |order|
    ensures BfsState(a, s, order, h + 1, if h + 1 == m then |order| else m, 0)
  {
    var v := order[h];
    if h + 1 < |order| {
      var d1 := Dist(a, s, order[h + 1]);
      forall x: nat | Reachable(a, s, x) && Dist(a, s, x) <= d1
        ensures x in order
      {
        if Dist(a, s, x) > Dist(a, s, v) {
          DistPredecessor(a, s, x);
          var y: nat :| Edge(a, y, x) && Reachable(a, s, y) && Dist(a, s, y) == Dist(a, s, x) - 1;
          assert y in order;
          var j :| 0 <= j < |order| && order[j] == y;
        }
      }
    }
  }

  /** Once the queue is empty every vertex is labelled with its hop distance from s, or 0. */
  lemma BfsFinish(a: seq<Word>, s: nat, order: seq<nat>, d: seq<int>)
    requires BfsState(a, s, order, |order|, |order|, 0) && Labels(a, s, order, d)
    ensures forall x :: 0 <= x < |a| ==> d[x] == Dist(a, s, x)
  {
    var V := Elems(order);
    forall x: nat | 0 <= x < |a|
      ensures d[x] == Dist(a, s, x)
    {
      if x !in order && Reachable(a, s, x) {
        forall u: nat, w: nat | u in V && Edge(a, u, w) ensures w in V {
          var j :| 0 <= j < |order| && order[j] == u;
        }
        ClosedHoldsReachable(a, s, V, x);
      }
    }
  }

  lemma SuffixAppend(s: seq<nat>, h: nat, x: nat)
    requires h <= |s|
    ensures (s + [x])[h..] == s[h..] + [x]
  {
  }

  lemma SuffixTail(s: seq<nat>, h: nat)
    requires h < |s|
    ensures s[h..][1..] == s[h + 1..]
  {
  }

  /** `dist[i] = x`, stated on the whole contents of the array. */
  method Store(dist: array<int>, i: nat, x: int)
    requires i < dist.Length
    modifies dist
    ensures dist[..] == old(dist[..])[i := x]
  {
    dist[i] := x;
  }

  /**
    The body of the `if` in the `for` loop of `bfs`: i, an unvisited neighbour
    of the front v, gets dist[i] = 1 + dist[v] and is pushed and marked visited.
  */
  method Push(dist: array<int>, v: nat, i: nat, visited: Word, q: seq<nat>,
              ghost a: seq<Word>, ghost source: nat, ghost order: seq<nat>, ghost h: nat, ghost m: nat)
      returns (visited': Word, q': seq<nat>, ghost order': seq<nat>)
    requires dist.Length == |a| && i < |a|
    requires h < |order| && v == order[h] && q == order[h..]
    requires Edge(a, v, i) && i !in order && Members(visited) == Elems(order)
    requires BfsState(a, source, order, h, m, i) && Labels(a, source, order, dist[..])
    modifies dist
    ensures order' == order + [i] && q' == order'[h..]
    ensures Members(visited') == Elems(order')
    ensures BfsState(a, source, order', h, m, i + 1) && Labels(a, source, order', dist[..])
  {
    ghost var d := dist[..];
    var dv := dist[v];
    assert dv == d[order[h]];
    Store(dist, i, 1 + dv);
    LabelsPush(a, source, order, h, m, i, d, dist[..]);
    SuffixAppend(order, h, i);
    q' := q + [i];
    MembersSet(visited, i);
    ElemsAppend(order, i);
    visited' := Or(visited, Bit(i));
    order' := order + [i];
  }

  /**
    The `for` loop of `bfs` for the front v, whose neighbour mask `g.adj_[v]`
    is `row`: scans every vertex i below n and pushes each unvisited neighbour
    of v with distance 1 + dist[v].
  */
  method ScanFront(row: Word, dist: array<int>, v: nat, visited: Word, q: seq<nat>,
                   ghost a: seq<Word>, ghost source: nat, ghost order: seq<nat>, ghost h: nat, ghost m: nat)
      returns (visited': Word, q': seq<nat>, ghost order': seq<nat>)
    requires dist.Length == |a| && v < |a| && row == a[v]
    requires h < |order| && v == order[h] && q == order[h..]
    requires Members(visited) == Elems(order)
    requires BfsState(a, source, order, h, m, 0) && Labels(a, source, order, dist[..])
    modifies dist
    ensures h < |order'| && |order| <= |order'| && q' == order'[h..]
    ensures Members(visited') == Elems(order')
    ensures BfsState(a, source, order', h, m, |a|) && Labels(a, source, order', dist[..])
  {
    visited', q', order' := visited, q, order;
    var i: nat := 0;
    while i < dist.Length
      invariant i <= dist.Length
      invariant h < |order'| && v == order'[h] && q' == order'[h..] && |order| <= |order'|
      invariant Members(visited') == Elems(order')
      invariant BfsState(a, source, order', h, m, i) && Labels(a, source, order', dist[..])
    {
      BitTestMembers(row, i);
      BitTestMembers(visited', i);
      if BitTest(row, i) && !BitTest(visited', i) {
        visited', q', order' := Push(dist, v, i, visited', q', a, source, order', h, m);
      } else {
        BfsSkip(a, source, order', h, m, i);
      }
      i := i + 1;
    }
  }

  /**
    One turn of the `while` loop of `bfs`: scans the neighbours of the queue
    front, then pops it.
  */
  method Round(g: Graph, dist: array<int>, visited: Word, q: seq<nat>,
               ghost a: seq<Word>, ghost source: nat, ghost order: seq<nat>, ghost h: nat, ghost m: nat)
      returns (visited': Word, q': seq<nat>, ghost order': seq<nat>, ghost h': nat, ghost m': nat)
    requires a == g.adj[..] && dist.Length == |a| && q != []
    requires h <= |order| && q == order[h..] && Members(visited) == Elems(order)
    requires BfsState(a, source, order, h, m, 0) && Labels(a, source, order, dist[..])
    modifies dist
    ensures h' <= |order'| <= |a| && q' == order'[h'..] && Members(visited') == Elems(order')
    ensures BfsState(a, source, order', h', m', 0) && Labels(a, source, order', dist[..])
    ensures |order| < |order'| || (|order| == |order'| && |q'| < |q|)
  {
    visited', q', order' := ScanFront(g.adj[q[0]], dist, q[0], visited, q, a, source, order, h, m);
    BfsPop(a, source, order', h, m);
    SuffixTail(order', h);
    q' := q'[1..];
    m' := if h + 1 == m then |order'| else m;
    h' := h + 1;
    DistinctBound(order', |a|);
  }

  /**
    `bfs(g, dist, source)`: needs a zeroed `dist` of length n and a source
    below n; leaves in `dist[v]` the hop distance from the source to v, and 0
    for every vertex it cannot reach.
  */
  method Bfs(g: Graph, dist: array<int>, source: nat)
    requires g.Valid() && source < g.adj.Length
    requires dist.Length == g.adj.Length && forall i :: 0 <= i < dist.Length ==> dist[i] == 0
    modifies dist
    ensures forall v :: 0 <= v < dist.Length ==> dist[v] == Dist(g.adj[..], source, v)
  {
    var n := g.adj.Length;
    ghost var a := g.adj[..];
    FromEdgesWellFormed(n, g.edges);
    var visited := Bit(source);
    var q: seq<nat> := [source];
    ghost var order: seq<nat> := [source];
    ghost var h: nat := 0;
    ghost var m: nat := 1;
    MembersBit(source);
    BfsStart(a, source, dist[..]);
    while q != []
      invariant a == g.adj[..]
      invariant h <= |order| <= n && q == order[h..]
      invariant Members(visited) == Elems(order)
      invariant BfsState(a, source, order, h, m, 0) && Labels(a, source, order, dist[..])
      decreases n - |order|, |q|
    {
      visited, q, order, h, m := Round(g, dist, visited, q, a, source, order, h, m);
    }
    BfsFinish(a, source, order, dist[..]);
  }

  // ---------------------------------------------------------------------------
  // is_connected

  /**
    The masks of `is_connected` between two rounds: vertex 0 is visited, the
    queue mask holds only visited vertices, every visited vertex is reachable
    from 0, and every visited vertex no longer queued has all its neighbours
    visited.
  */
  ghost predicate Spread(a: seq<Word>, visited: Word, q: Word)
  {
    0 in Members(visited) && Members(q) <= Members(visited) &&
    (forall x :: x in Members(visited) ==> Reachable(a, 0, x)) &&
    (forall u: nat, w: nat :: u in Members(visited) && u !in Members(q) && Edge(a, u, w) ==> w in Members(visited))
  }

  /** Visiting and queueing a neighbour of a queued vertex keeps the masks consistent. */
  lemma SpreadPush(a: seq<Word>, visited: Word, q: Word, v: nat, i: nat)
    requires Spread(a, visited, q) && v in Members(q) && Edge(a, v, i) && i < 64
    ensures Spread(a, Or(visited, Bit(i)), Or(q, Bit(i)))
  {
    DistNeighbour(a, 0, v, i);
    MembersSet(visited, i);
    MembersSet(q, i);
  }

  /** Dequeuing a vertex whose neighbours are all visited keeps the masks consistent. */
  lemma SpreadPop(a: seq<Word>, visited: Word, q: Word, v: nat)
    requires Spread(a, visited, q) && v in Members(q) && v < 64
    requires forall w: nat :: Edge(a, v, w) ==> w in Members(visited)
    ensures Spread(a, visited, And(q, Not(Bit(v))))
  {
    MembersClear(q, v);
  }

  /**
    What the assertions of `is_connected` check before and during the search: on
    a graph with a vertex, no more vertices are visited than the graph has.
  */
  lemma SpreadBound(a: seq<Word>, visited: Word, q: Word)
    requires WellFormed(a) && |a| >= 1 && Spread(a, visited, q)
    ensures PopCount(visited) <= |a|
  {
    forall x | x in Members(visited) ensures x in Vertices(|a|) {
      ReachableBound(a, 0, x);
    }
    SubsetCard(Members(visited), Vertices(|a|));
  }

  lemma SameCardEqual(a: set<nat>, b: set<nat>)
    requires a <= b && |a| == |b|
    ensures a == b
  {
    assert |b - a| == |b| - |a|;
  }

  /**
    With the queue empty, the visited vertices are exactly those reachable from
    0, so the graph is connected iff it has a vertex and their number is n.
  */
  lemma SpreadDone(a: seq<Word>, visited: Word)
    requires WellFormed(a) && |a| <= 64 && Spread(a, visited, Zero)
    ensures PopCount(visited) == |a| <==> |a| >= 1 && Connected(a)
  {
    MembersEmpty(Zero);
    var V := Members(visited);
    if |a| >= 1 {
      forall x | x in V ensures x in Vertices(|a|) {
        ReachableBound(a, 0, x);
      }
      if Connected(a) {
        forall x | x in Vertices(|a|) ensures x in V {
          ClosedHoldsReachable(a, 0, V, x);
        }
        assert V == Vertices(|a|);
      }
      if PopCount(visited) == |a| {
        SameCardEqual(V, Vertices(|a|));
      }
    }
  }

  /**
    The `for` loop of `is_connected` for the queued vertex v: visits and queues
    every unvisited neighbour of v. The row `g.adj_[v]` is read only when there is
    a vertex to scan.
  */
  method SpreadFront(g: Graph, v: nat, visited: Word, q: Word) returns (visited': Word, q': Word)
    requires g.Valid() && (g.adj.Length == 0 || v < g.adj.Length)
    requires Spread(g.adj[..], visited, q) && v in Members(q)
    ensures Spread(g.adj[..], visited', q') && v in Members(q')
    ensures forall w: nat :: Edge(g.adj[..], v, w) ==> w in Members(visited')
    ensures Members(visited) <= Members(visited')
    ensures Members(q') == Members(q) + (Members(visited') - Members(visited))
  {
    ghost var a := g.adj[..];
    FromEdgesWellFormed(g.adj.Length, g.edges);
    var n := g.adj.Length;
    visited', q' := visited, q;
    var i: nat := 0;
    while i < n
      invariant i <= n
      invariant Spread(a, visited', q') && v in Members(q')
      invariant forall w: nat :: w < i && Edge(a, v, w) ==> w in Members(visited')
      invariant Members(visited) <= Members(visited')
      invariant Members(q') == Members(q) + (Members(visited') - Members(visited))
    {
      BitTestMembers(g.adj[v], i);
      BitTestMembers(visited', i);
      if BitTest(g.adj[v], i) && !BitTest(visited', i) {
        SpreadPush(a, visited', q', v, i);
        MembersSet(visited', i);
        MembersSet(q', i);
        q' := Or(q', Bit(i));
        visited' := Or(visited', Bit(i));
      }
      i := i + 1;
    }
  }

  /**
    `is_connected(g)`: true iff the graph has a vertex and every vertex is
    reachable from vertex 0. Vertex 0 is marked visited before the search
    starts, so a graph with no vertex is reported as not connected.
  */
  method IsConnected(g: Graph) returns (r: bool)
    requires g.Valid()
    ensures r <==> g.adj.Length >= 1 && Connected(g.adj[..])
  {
    ghost var a := g.adj[..];
    FromEdgesWellFormed(g.adj.Length, g.edges);
    var visited := Bit(0);
    var q := Bit(0);
    MembersBit(0);
    DistSource(a, 0);
    while q != Zero
      invariant Spread(a, visited, q)
      decreases Vertices(64) - Members(visited), Members(q)
    {
      NonZeroHasBit(q);
      var v := Ctz(q);
      if g.adj.Length >= 1 {
        SpreadBound(a, visited, q);
        ReachableBound(a, 0, v);
      }
      MembersBound(q);
      visited, q := SpreadFront(g, v, visited, q);
      SpreadPop(a, visited, q, v);
      MembersClear(q, v);
      MembersBound(visited);
      q := And(q, Not(Bit(v)));
    }
    SpreadDone(a, visited);
    r := PopCount(visited) == g.adj.Length;
  }
}
