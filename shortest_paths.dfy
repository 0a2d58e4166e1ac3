/**
  `list_shortest_paths` and `detail::recursive_list_shortest_paths` of
  graph.hpp, instantiated with `edge_path`: after `bfs` from t labels every
  vertex, a depth-first search from s that only steps to neighbours with a
  strictly smaller label, so it walks straight down to t.
*/
module ShortestPaths {
  import opened Bits
  import opened GraphModel
  import opened Graphs
  import opened Paths
  import opened Traversal
  import opened SimplePaths

  /** Along an edge to a vertex strictly closer to t, the distance to t drops by exactly one. */
  lemma StepDown(a: seq<Word>, t: nat, u: nat, w: nat)
    requires WellFormed(a) && Edge(a, u, w) && Dist(a, t, w) < Dist(a, t, u)
    ensures Reachable(a, t, u) && Reachable(a, t, w) && Dist(a, t, w) + 1 == Dist(a, t, u)
  {
    assert Reachable(a, t, u);
    DistNeighbour(a, t, u, w);
    DistNeighbour(a, t, w, u);
  }

  /**
    The paths the search records from the stack p: p itself when its top is t,
    then what the neighbours of the top that are closer to t yield.
  */
  ghost function Shortest(a: seq<Word>, t: nat, p: seq<nat>): seq<seq<nat>>
    requires WellFormed(a) && |p| >= 1 && Last(p) < |a|
    decreases Dist(a, t, Last(p)), 65
  {
    (if Last(p) == t then [p] else []) + ShortestFrom(a, t, p, 0)
  }

  /** The paths recorded through the neighbours w, w + 1, ... of the top of p that are closer to t. */
  ghost function ShortestFrom(a: seq<Word>, t: nat, p: seq<nat>, w: nat): seq<seq<nat>>
    requires WellFormed(a) && |p| >= 1 && Last(p) < |a| && w <= 64
    decreases Dist(a, t, Last(p)), 64 - w
  {
    if w == 64 then []
    else if Edge(a, Last(p), w) && Dist(a, t, w) < Dist(a, t, Last(p)) then
      assert Last(p + [w]) == w;
      Shortest(a, t, p + [w]) + ShortestFrom(a, t, p, w + 1)
    else ShortestFrom(a, t, p, w + 1)
  }

  lemma {:induction false} ShortestFromSkip(a: seq<Word>, t: nat, p: seq<nat>, w: nat, w': nat)
    requires WellFormed(a) && |p| >= 1 && Last(p) < |a| && w <= w' <= 64
    requires forall x: nat :: w <= x < w' ==> !Edge(a, Last(p), x)
    ensures ShortestFrom(a, t, p, w) == ShortestFrom(a, t, p, w')
    decreases w' - w
  {
    if w < w' {
      ShortestFromSkip(a, t, p, w + 1, w');
    }
  }

  lemma {:induction false} ShortestFromHas(a: seq<Word>, t: nat, p: seq<nat>, w': nat, w: nat, q: seq<nat>)
    requires WellFormed(a) && |p| >= 1 && Last(p) < |a| && w' <= w < 64
    requires Edge(a, Last(p), w) && Dist(a, t, w) < Dist(a, t, Last(p))
    requires Last(p + [w]) < |a| && q in Shortest(a, t, p + [w])
    ensures q in ShortestFrom(a, t, p, w')
    decreases w - w'
  {
    if w' < w {
      ShortestFromHas(a, t, p, w' + 1, w, q);
    }
  }

  /** From position k on, every step of q goes along an edge one hop closer to t. */
  ghost predicate Descends(a: seq<Word>, t: nat, q: seq<nat>, k: nat)
  {
    forall i :: k <= i < |q| - 1 ==> Edge(a, q[i], q[i + 1]) && Dist(a, t, q[i + 1]) + 1 == Dist(a, t, q[i])
  }

  /**
    Every path from the stack p extends it, ends at t, descends one hop at a
    time from the top of p, and so has as many more vertices as the top's
    distance to t.
  */
  lemma {:induction false} ShortestSound(a: seq<Word>, t: nat, p: seq<nat>, q: seq<nat>)
    requires WellFormed(a) && |p| >= 1 && Last(p) < |a| && q in Shortest(a, t, p)
    ensures |q| >= |p| && q[..|p|] == p && Last(q) == t
    ensures |q| - |p| == Dist(a, t, Last(p)) && Descends(a, t, q, |p| - 1)
    decreases Dist(a, t, Last(p)), 65
  {
    if Last(p) == t && q == p {
      DistSource(a, t);
    } else {
      ShortestFromSound(a, t, p, 0, q);
    }
  }

  lemma {:induction false} ShortestFromSound(a: seq<Word>, t: nat, p: seq<nat>, w: nat, q: seq<nat>)
    requires WellFormed(a) && |p| >= 1 && Last(p) < |a| && w <= 64 && q in ShortestFrom(a, t, p, w)
    ensures |q| > |p| && q[..|p|] == p && Last(q) == t && w <= q[|p|]
    ensures |q| - |p| == Dist(a, t, Last(p)) && Descends(a, t, q, |p| - 1)
    decreases Dist(a, t, Last(p)), 64 - w
  {
    if w < 64 {
      if Edge(a, Last(p), w) && Dist(a, t, w) < Dist(a, t, Last(p)) && q in Shortest(a, t, p + [w]) {
        var p' := p + [w];
        assert Last(p') == w;
        ShortestSound(a, t, p', q);
        assert q[..|p|] == p'[..|p|];
        assert q[|p| - 1] == Last(p) && q[|p|] == w;
        StepDown(a, t, Last(p), w);
      } else {
        ShortestFromSound(a, t, p, w + 1, q);
      }
    }
  }

  /** Every walk from the stack's top to t along strictly closer vertices is recorded. */
  lemma {:induction false} ShortestComplete(a: seq<Word>, t: nat, p: seq<nat>, q: seq<nat>)
    requires WellFormed(a) && |p| >= 1 && Last(p) < |a|
    requires |q| >= |p| && q[..|p|] == p && Last(q) == t
    requires forall i :: |p| - 1 <= i < |q| - 1 ==> Edge(a, q[i], q[i + 1]) && Dist(a, t, q[i + 1]) < Dist(a, t, q[i])
    ensures q in Shortest(a, t, p)
    decreases Dist(a, t, Last(p))
  {
    if |q| == |p| {
      assert q == p;
    } else {
      var w := q[|p|];
      assert q[|p| - 1] == Last(p);
      assert Edge(a, Last(p), w) && Dist(a, t, w) < Dist(a, t, Last(p));
      var p' := p + [w];
      assert q[..|p'|] == p';
      assert Last(p') == w;
      ShortestComplete(a, t, p', q);
      ShortestFromHas(a, t, p, 0, w, q);
    }
  }

  /** A stack whose top reaches t records at least one path. */
  lemma {:induction false} ShortestNonEmpty(a: seq<Word>, t: nat, p: seq<nat>)
    requires WellFormed(a) && |p| >= 1 && Last(p) < |a| && Reachable(a, t, Last(p))
    ensures |Shortest(a, t, p)| >= 1
    decreases Dist(a, t, Last(p))
  {
    var c := Last(p);
    if c != t {
      if Dist(a, t, c) == 0 {
        DistZero(a, t, c);
      }
      DistPredecessor(a, t, c);
      var u: nat :| Edge(a, u, c) && Reachable(a, t, u) && Dist(a, t, u) == Dist(a, t, c) - 1;
      assert Edge(a, c, u);
      var p' := p + [u];
      assert Last(p') == u;
      ShortestNonEmpty(a, t, p');
      var q := Shortest(a, t, p')[0];
      ShortestFromHas(a, t, p, 0, u, q);
    }
  }

  // ---------------------------------------------------------------------------
  // Order of the recorded paths

  /** Once the top of the stack is t no neighbour is closer to t, so the search stops there. */
  lemma {:induction false} ShortestFromAtTarget(a: seq<Word>, t: nat, p: seq<nat>, w: nat)
    requires WellFormed(a) && |p| >= 1 && Last(p) < |a| && Last(p) == t && w <= 64
    ensures ShortestFrom(a, t, p, w) == []
    decreases 64 - w
  {
    DistSource(a, t);
    if w < 64 {
      ShortestFromAtTarget(a, t, p, w + 1);
    }
  }

  /** Paths through the closer neighbour w come before paths through later neighbours. */
  lemma ShortestBranchesOrdered(a: seq<Word>, t: nat, p: seq<nat>, w: nat, x: seq<nat>, y: seq<nat>)
    requires WellFormed(a) && |p| >= 1 && Last(p) < |a| && w < 64
    requires Edge(a, Last(p), w) && Last(p + [w]) == w
    requires x in Shortest(a, t, p + [w]) && y in ShortestFrom(a, t, p, w + 1)
    ensures SeqLess(x, y)
  {
    ShortestSound(a, t, p + [w], x);
    ShortestFromSound(a, t, p, w + 1, y);
    assert x[..|p|] == (p + [w])[..|p|];
    assert x[|p|] == (p + [w])[|p|];
    assert x[..|p|] == y[..|p|] && x[|p|] < y[|p|];
  }

  lemma {:induction false} ShortestSorted(a: seq<Word>, t: nat, p: seq<nat>)
    requires WellFormed(a) && |p| >= 1 && Last(p) < |a|
    ensures Sorted(Shortest(a, t, p))
    decreases Dist(a, t, Last(p)), 65
  {
    if Last(p) == t {
      ShortestFromAtTarget(a, t, p, 0);
      assert Shortest(a, t, p) == [p];
    } else {
      ShortestFromSorted(a, t, p, 0);
      assert Shortest(a, t, p) == ShortestFrom(a, t, p, 0);
    }
  }

  lemma {:induction false} ShortestFromSorted(a: seq<Word>, t: nat, p: seq<nat>, w: nat)
    requires WellFormed(a) && |p| >= 1 && Last(p) < |a| && w <= 64
    ensures Sorted(ShortestFrom(a, t, p, w))
    decreases Dist(a, t, Last(p)), 64 - w
  {
    if w < 64 {
      ShortestFromSorted(a, t, p, w + 1);
      if Edge(a, Last(p), w) && Dist(a, t, w) < Dist(a, t, Last(p)) {
        assert Last(p + [w]) == w;
        var x := Shortest(a, t, p + [w]);
        var y := ShortestFrom(a, t, p, w + 1);
        ShortestSorted(a, t, p + [w]);
        forall i, j | 0 <= i < |x| && 0 <= j < |y| ensures SeqLess(x[i], y[j]) {
          ShortestBranchesOrdered(a, t, p, w, x[i], y[j]);
        }
        SortedConcat(x, y);
      }
    }
  }

  /** The rest of a walk from its i-th vertex is a walk of |q| - 1 - i hops to its end. */
  lemma WalkSuffixWithin(a: seq<Word>, q: seq<nat>, i: nat)
    requires IsWalk(a, q) && i < |q|
    ensures Within(a, q[i], q[|q| - 1], |q| - 1 - i)
  {
    var r := q[i..];
    assert forall j :: 0 <= j < |r| ==> r[j] == q[i + j];
    assert IsWalk(a, r);
    WalkWithin(a, r, |r| - 1);
  }

  /** A vertex of a walk ending at t is at most as far from t as the rest of the walk is long. */
  lemma WalkDistUpper(a: seq<Word>, t: nat, q: seq<nat>, i: nat)
    requires WellFormed(a) && IsWalk(a, q) && |q| >= 1 && q[|q| - 1] == t && i < |q|
    ensures Reachable(a, t, q[i]) && Dist(a, t, q[i]) <= |q| - 1 - i
  {
    WalkSuffixWithin(a, q, i);
    WithinSymmetric(a, q[i], t, |q| - 1 - i);
    DistAtMost(a, t, q[i], |q| - 1 - i);
  }

  /** The start of a walk is at most i hops further from t than its i-th vertex. */
  lemma WalkDistLower(a: seq<Word>, t: nat, q: seq<nat>, i: nat)
    requires WellFormed(a) && IsWalk(a, q) && i < |q| && Reachable(a, t, q[i])
    ensures Dist(a, q[0], t) <= i + Dist(a, t, q[i])
  {
    WalkWithin(a, q, i);
    var d := Dist(a, t, q[i]);
    DistIsDist(a, t, q[i]);
    WithinSymmetric(a, t, q[i], d);
    WithinTrans(a, q[0], q[i], t, i, d);
    DistAtMost(a, q[0], t, i + d);
  }

  /** Along a walk from s to t with Dist(s, t) edges, the i-th vertex is exactly |q| - 1 - i hops from t. */
  lemma ShortestWalkDist(a: seq<Word>, t: nat, q: seq<nat>, i: nat)
    requires WellFormed(a) && IsWalk(a, q) && |q| >= 1 && q[|q| - 1] == t && |q| - 1 == Dist(a, q[0], t)
    requires i < |q|
    ensures Dist(a, t, q[i]) == |q| - 1 - i
  {
    WalkDistUpper(a, t, q, i);
    WalkDistLower(a, t, q, i);
  }

  /**
    What `list_shortest_paths(g, s, t, paths)` records: walks from s to t with
    exactly Dist(s, t) edges, each step one hop closer to t, so shortest paths;
    every such walk is recorded, once, in increasing lexicographic order (the
    order of trying the lowest neighbour first); and something is recorded iff t
    is reachable from s (nothing when s is not t and cannot reach it).
  */
  lemma ListShortestPathsCorrect(a: seq<Word>, s: nat, t: nat)
    requires WellFormed(a) && s < |a| && t < |a|
    ensures forall q :: q in Shortest(a, t, [s]) ==>
      |q| >= 1 && q[0] == s && Last(q) == t && IsWalk(a, q) && Reachable(a, s, t) && |q| - 1 == Dist(a, s, t)
    ensures forall q, i :: q in Shortest(a, t, [s]) && 0 <= i < |q| - 1 ==> Dist(a, t, q[i + 1]) < Dist(a, t, q[i])
    ensures forall q :: |q| >= 1 && q[0] == s && Last(q) == t && IsWalk(a, q) && |q| - 1 == Dist(a, s, t) ==>
      q in Shortest(a, t, [s])
    ensures |Shortest(a, t, [s])| >= 1 <==> Reachable(a, s, t)
    ensures Sorted(Shortest(a, t, [s]))
    ensures forall i, j :: 0 <= i < j < |Shortest(a, t, [s])| ==> Shortest(a, t, [s])[i] != Shortest(a, t, [s])[j]
  {
    DistSymmetric(a, s, t);
    assert Last([s]) == s;
    forall q | q in Shortest(a, t, [s])
      ensures |q| >= 1 && q[0] == s && Last(q) == t && IsWalk(a, q) && Reachable(a, s, t) && |q| - 1 == Dist(a, s, t)
      ensures forall i :: 0 <= i < |q| - 1 ==> Dist(a, t, q[i + 1]) < Dist(a, t, q[i])
    {
      ShortestSound(a, t, [s], q);
      assert q[0] == q[..1][0];
      WalkWithin(a, q, |q| - 1);
      DistAtMost(a, s, t, |q| - 1);
    }
    forall q | |q| >= 1 && q[0] == s && Last(q) == t && IsWalk(a, q) && |q| - 1 == Dist(a, s, t)
      ensures q in Shortest(a, t, [s])
    {
      forall i | 0 <= i < |q| - 1 ensures Edge(a, q[i], q[i + 1]) && Dist(a, t, q[i + 1]) < Dist(a, t, q[i]) {
        ShortestWalkDist(a, t, q, i);
        ShortestWalkDist(a, t, q, i + 1);
      }
      assert q[..1] == [s];
      ShortestComplete(a, t, [s], q);
    }
    if Reachable(a, s, t) {
      ShortestNonEmpty(a, t, [s]);
    }
    if |Shortest(a, t, [s])| >= 1 {
      assert Shortest(a, t, [s])[0] in Shortest(a, t, [s]);
    }
    ShortestSorted(a, t, [s]);
  }

  /**
    `detail::recursive_list_shortest_paths(g, current, t, dist, current_path, paths)`:
    records the path when `current` is t, then for each neighbour closer to t,
    lowest first, discovers it, recurses on the same accumulator and
    backtracks it. `dist` holds the `bfs` labels from t.
  */
  method RecursiveListShortestPaths(g: Graph, current: nat, t: nat, dist: array<int>, path: EdgePath, paths: seq<seq<nat>>)
    returns (paths': seq<seq<nat>>)
    requires g.Valid() && current < g.adj.Length
    requires dist.Length == g.adj.Length && forall v :: 0 <= v < dist.Length ==> dist[v] == Dist(g.adj[..], t, v)
    requires |path.vertices| >= 1 && Last(path.vertices) == current
    modifies path
    ensures WellFormed(g.adj[..]) && paths' == paths + Shortest(g.adj[..], t, old(path.vertices))
    ensures path.vertices == old(path.vertices)
    decreases Dist(g.adj[..], t, current), 3
  {
    FromEdgesWellFormed(g.adj.Length, g.edges);
    if current == t {
      paths' := paths + [path.vertices];
    } else {
      paths' := paths;
    }
    paths' := ShortestNeighbours(g, current, t, dist, path, paths', path.vertices);
  }

  /** The neighbour loop of `recursive_list_shortest_paths`, over the mask of `current`, lowest member first. */
  method ShortestNeighbours(g: Graph, current: nat, t: nat, dist: array<int>, path: EdgePath, paths: seq<seq<nat>>, ghost p: seq<nat>)
    returns (paths': seq<seq<nat>>)
    requires g.Valid() && WellFormed(g.adj[..]) && current < g.adj.Length
    requires dist.Length == g.adj.Length && forall v :: 0 <= v < dist.Length ==> dist[v] == Dist(g.adj[..], t, v)
    requires path.vertices == p && |p| >= 1 && Last(p) == current
    modifies path
    ensures paths' == paths + ShortestFrom(g.adj[..], t, p, 0) && path.vertices == p
    decreases Dist(g.adj[..], t, current), 2
  {
    ghost var a := g.adj[..];
    var m := g.adj[current];
    ghost var w: nat := 0;
    paths' := paths;
    while m != Zero
      invariant path.vertices == p
      invariant w <= 64 && forall x: nat :: x in Members(m) <==> w <= x && Edge(a, current, x)
      invariant paths' + ShortestFrom(a, t, p, w) == paths + ShortestFrom(a, t, p, 0)
      decreases PopCount(m)
    {
      var iter := Ctz(m);
      MembersBound(m);
      ShortestFromSkip(a, t, p, w, iter);
      paths' := ShortestBranch(g, current, t, iter, dist, path, paths', p);
      PopCountClearLowest(m);
      MaskStep(a, current, m, w);
      m := And(m, Not(Bit(iter)));
      w := iter + 1;
    }
    MembersEmpty(m);
    ShortestFromSkip(a, t, p, w, 64);
  }

  /**
    One turn of that loop: when the neighbour `iter` is closer to t it is
    discovered, searched from and backtracked, leaving the path as it was.
  */
  method ShortestBranch(g: Graph, current: nat, t: nat, iter: nat, dist: array<int>, path: EdgePath, paths: seq<seq<nat>>, ghost p: seq<nat>)
    returns (paths': seq<seq<nat>>)
    requires g.Valid() && WellFormed(g.adj[..]) && current < g.adj.Length
    requires dist.Length == g.adj.Length && forall v :: 0 <= v < dist.Length ==> dist[v] == Dist(g.adj[..], t, v)
    requires path.vertices == p && |p| >= 1 && Last(p) == current
    requires iter < 64 && Edge(g.adj[..], current, iter)
    modifies path
    ensures paths' + ShortestFrom(g.adj[..], t, p, iter + 1) == paths + ShortestFrom(g.adj[..], t, p, iter)
    ensures path.vertices == p
    decreases Dist(g.adj[..], t, current), 1
  {
    if dist[iter] < dist[current] {
      path.Discover(iter);
      assert Last(path.vertices) == iter;
      paths' := RecursiveListShortestPaths(g, iter, t, dist, path, paths);
      path.Backtrack(iter);
      assert path.vertices == (p + [iter])[..|p|];
    } else {
      paths' := paths;
    }
  }

  /**
    `list_shortest_paths(g, s, t, paths)`: labels the vertices by `bfs` from t,
    starts an `edge_path(s)` holding s (its mask is never read here, so its
    uninitialised `visited_` does not matter) and appends what the search
    records.
  */
  method ListShortestPaths(g: Graph, s: nat, t: nat, paths: seq<seq<nat>>) returns (paths': seq<seq<nat>>)
    requires g.Valid() && s < g.adj.Length && t < g.adj.Length
    ensures WellFormed(g.adj[..]) && paths' == paths + Shortest(g.adj[..], t, [s])
  {
    var dist := new int[g.adj.Length](_ => 0);
    Bfs(g, dist, t);
    var current := new EdgePath.FromSource(s);
    current.Discover(s);
    assert current.vertices == [s];
    paths' := RecursiveListShortestPaths(g, s, t, dist, current, paths);
  }
}
