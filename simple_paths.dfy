/**
  `list_paths` and `detail::recursive_list_paths` of graph.hpp, instantiated
  with `edge_path`: a depth-first search that records every simple path from
  s to t, trying the neighbours of each vertex in increasing order.
*/
module SimplePaths {
  import opened Bits
  import opened GraphModel
  import opened Graphs
  import opened Paths

  function Last(p: seq<nat>): nat
    requires |p| >= 1
  {
    p[|p| - 1]
  }

  /**
    The vertex sequence of the search, discovered vertices in order: a
    non-empty walk of distinct vertices of a well-formed graph.
  */
  ghost predicate Stack(a: seq<Word>, p: seq<nat>)
  {
    WellFormed(a) && |p| >= 1 && Distinct(p) && IsWalk(a, p) &&
    forall i :: 0 <= i < |p| ==> p[i] < |a|
  }

  /** Stepping to a neighbour not on the stack keeps it a stack, and no stack is longer than 64. */
  lemma StackExtend(a: seq<Word>, p: seq<nat>, w: nat)
    requires Stack(a, p) && Edge(a, Last(p), w) && w !in p
    ensures Stack(a, p + [w]) && |p + [w]| <= 64
  {
    var q := p + [w];
    assert forall i :: 0 <= i < |p| ==> q[i] == p[i];
    assert Distinct(q);
    DistinctBound(q, |a|);
  }

  /**
    The paths the search records from the stack p, in order: p itself once its
    top is t (the search does not go past t), otherwise what the neighbours of
    the top yield.
  */
  ghost function Simple(a: seq<Word>, p: seq<nat>, t: nat): seq<seq<nat>>
    requires Stack(a, p)
    decreases 64 - |p|, 65
  {
    DistinctBound(p, |a|);
    if Last(p) == t then [p] else SimpleFrom(a, p, t, 0)
  }

  /** The paths recorded through the neighbours w, w + 1, ... of the top of p that are not on p. */
  ghost function SimpleFrom(a: seq<Word>, p: seq<nat>, t: nat, w: nat): seq<seq<nat>>
    requires Stack(a, p) && w <= 64
    decreases 64 - |p|, 64 - w
  {
    DistinctBound(p, |a|);
    if w == 64 then []
    else if Edge(a, Last(p), w) && w !in p then
      StackExtend(a, p, w);
      Simple(a, p + [w], t) + SimpleFrom(a, p, t, w + 1)
    else SimpleFrom(a, p, t, w + 1)
  }

  /** Stepping over vertices that are not neighbours of the top changes nothing. */
  lemma {:induction false} SimpleFromSkip(a: seq<Word>, p: seq<nat>, t: nat, w: nat, w': nat)
    requires Stack(a, p) && w <= w' <= 64
    requires forall x: nat :: w <= x < w' ==> !Edge(a, Last(p), x)
    ensures SimpleFrom(a, p, t, w) == SimpleFrom(a, p, t, w')
    decreases w' - w
  {
    if w < w' {
      SimpleFromSkip(a, p, t, w + 1, w');
    }
  }

  /** Every path from a stack extends it, is a stack itself and ends at t. */
  lemma {:induction false} SimpleSound(a: seq<Word>, p: seq<nat>, t: nat, q: seq<nat>)
    requires Stack(a, p) && q in Simple(a, p, t)
    ensures |q| >= |p| && q[..|p|] == p && Stack(a, q) && Last(q) == t
    decreases 64 - |p|, 65
  {
    DistinctBound(p, |a|);
    if Last(p) != t {
      SimpleFromSound(a, p, t, 0, q);
    }
  }

  /** ... and a path through the neighbours from w on takes one of them, at least w, as its next vertex. */
  lemma {:induction false} SimpleFromSound(a: seq<Word>, p: seq<nat>, t: nat, w: nat, q: seq<nat>)
    requires Stack(a, p) && w <= 64 && q in SimpleFrom(a, p, t, w)
    ensures |q| > |p| && q[..|p|] == p && Stack(a, q) && Last(q) == t && w <= q[|p|]
    decreases 64 - |p|, 64 - w
  {
    DistinctBound(p, |a|);
    if w < 64 {
      if Edge(a, Last(p), w) && w !in p && q in Simple(a, p + [w], t) {
        StackExtend(a, p, w);
        SimpleSound(a, p + [w], t, q);
        assert q[..|p|] == (p + [w])[..|p|];
        assert q[|p|] == (p + [w])[|p|];
      } else {
        SimpleFromSound(a, p, t, w + 1, q);
      }
    }
  }

  /** A path recorded after stepping to neighbour w is among those through the neighbours from w' <= w on. */
  lemma {:induction false} SimpleFromHas(a: seq<Word>, p: seq<nat>, t: nat, w': nat, w: nat, q: seq<nat>)
    requires Stack(a, p) && w' <= w < 64 && Edge(a, Last(p), w) && w !in p
    requires Stack(a, p + [w]) && q in Simple(a, p + [w], t)
    ensures q in SimpleFrom(a, p, t, w')
    decreases w - w'
  {
    if w' < w {
      SimpleFromHas(a, p, t, w' + 1, w, q);
    }
  }

  /** Every simple path to t that extends the stack is recorded from it. */
  lemma {:induction false} SimpleComplete(a: seq<Word>, p: seq<nat>, t: nat, q: seq<nat>)
    requires Stack(a, p) && Stack(a, q) && |q| >= |p| && q[..|p|] == p && Last(q) == t
    ensures q in Simple(a, p, t)
    decreases 64 - |p|
  {
    DistinctBound(p, |a|);
    if |q| == |p| {
      assert q == p;
    } else if Last(p) == t {
      assert false;
    } else {
      var w := q[|p|];
      assert Edge(a, Last(p), w) by { assert q[|p| - 1] == Last(p); }
      assert w !in p by {
        forall i | 0 <= i < |p| ensures p[i] != w { assert p[i] == q[i]; }
      }
      StackExtend(a, p, w);
      assert q[..|p| + 1] == p + [w];
      SimpleComplete(a, p + [w], t, q);
      SimpleFromHas(a, p, t, 0, w, q);
    }
  }

  // ---------------------------------------------------------------------------
  // Order of the recorded paths

  /** x comes before y: they agree up to some position where x has the smaller vertex. */
  ghost predicate SeqLess(x: seq<nat>, y: seq<nat>)
  {
    exists i :: 0 <= i < |x| && i < |y| && x[..i] == y[..i] && x[i] < y[i]
  }

  /** Strictly increasing in that order. */
  ghost predicate Sorted(r: seq<seq<nat>>)
  {
    forall i, j :: 0 <= i < j < |r| ==> SeqLess(r[i], r[j])
  }

  lemma SortedConcat(x: seq<seq<nat>>, y: seq<seq<nat>>)
    requires Sorted(x) && Sorted(y)
    requires forall i, j :: 0 <= i < |x| && 0 <= j < |y| ==> SeqLess(x[i], y[j])
    ensures Sorted(x + y)
  {
    var r := x + y;
    forall i, j | 0 <= i < j < |r| ensures SeqLess(r[i], r[j]) {
      if j < |x| {
        assert r[i] == x[i] && r[j] == x[j];
      } else if i >= |x| {
        assert r[i] == y[i - |x|] && r[j] == y[j - |x|];
      } else {
        assert r[i] == x[i] && r[j] == y[j - |x|];
      }
    }
  }

  /** Paths through neighbour w come before paths through later neighbours. */
  lemma BranchesOrdered(a: seq<Word>, p: seq<nat>, t: nat, w: nat, x: seq<nat>, y: seq<nat>)
    requires Stack(a, p) && w < 64 && Edge(a, Last(p), w) && w !in p && Stack(a, p + [w])
    requires x in Simple(a, p + [w], t) && y in SimpleFrom(a, p, t, w + 1)
    ensures SeqLess(x, y)
  {
    SimpleSound(a, p + [w], t, x);
    SimpleFromSound(a, p, t, w + 1, y);
    assert x[..|p|] == (p + [w])[..|p|];
    assert x[|p|] == (p + [w])[|p|];
    assert x[..|p|] == y[..|p|] && x[|p|] < y[|p|];
  }

  lemma {:induction false} SimpleSorted(a: seq<Word>, p: seq<nat>, t: nat)
    requires Stack(a, p)
    ensures Sorted(Simple(a, p, t))
    decreases 64 - |p|, 65
  {
    DistinctBound(p, |a|);
    if Last(p) != t {
      SimpleFromSorted(a, p, t, 0);
    }
  }

  lemma {:induction false} SimpleFromSorted(a: seq<Word>, p: seq<nat>, t: nat, w: nat)
    requires Stack(a, p) && w <= 64
    ensures Sorted(SimpleFrom(a, p, t, w))
    decreases 64 - |p|, 64 - w
  {
    DistinctBound(p, |a|);
    if w < 64 {
      SimpleFromSorted(a, p, t, w + 1);
      if Edge(a, Last(p), w) && w !in p {
        StackExtend(a, p, w);
        var x := Simple(a, p + [w], t);
        var y := SimpleFrom(a, p, t, w + 1);
        SimpleSorted(a, p + [w], t);
        forall i, j | 0 <= i < |x| && 0 <= j < |y| ensures SeqLess(x[i], y[j]) {
          BranchesOrdered(a, p, t, w, x[i], y[j]);
        }
        SortedConcat(x, y);
      }
    }
  }

  /**
    What `list_paths(g, s, t, paths)` records: exactly the simple paths of the
    graph from s to t, t only as the last vertex of each, every one of them once
    and in increasing lexicographic order, which is the order of trying the
    lowest neighbour first.
  */
  lemma ListPathsCorrect(a: seq<Word>, s: nat, t: nat)
    requires WellFormed(a) && s < |a|
    ensures forall q :: q in Simple(a, [s], t) <==> IsSimplePath(a, q, s, t)
    ensures forall q, i :: q in Simple(a, [s], t) && 0 <= i < |q| - 1 ==> q[i] != t
    ensures Sorted(Simple(a, [s], t))
    ensures forall i, j :: 0 <= i < j < |Simple(a, [s], t)| ==> Simple(a, [s], t)[i] != Simple(a, [s], t)[j]
  {
    var r := Simple(a, [s], t);
    assert Stack(a, [s]);
    forall q | q in r ensures IsSimplePath(a, q, s, t) {
      SimpleSound(a, [s], t, q);
      assert q[0] == q[..1][0];
    }
    forall q | IsSimplePath(a, q, s, t) ensures q in r {
      forall i | 0 <= i < |q| ensures q[i] < |a| {
        if i > 0 {
          assert Edge(a, q[i - 1], q[i]);
        }
      }
      assert q[..1] == [s];
      SimpleComplete(a, [s], t, q);
    }
    SimpleSorted(a, [s], t);
  }

  /**
    `detail::recursive_list_paths(g, current, t, current_path, paths)`. The
    accumulator is passed by value: the callee gets its own copy, holding the
    stack below `current`; it discovers `current`, records the path if
    `current` is t and otherwise recurses on a fresh copy for each neighbour
    not on the path, lowest first, then backtracks. Recorded paths are kept as
    their vertex sequences.
  */
  method RecursiveListPaths(g: Graph, current: nat, t: nat, path: EdgePath, paths: seq<seq<nat>>)
    returns (paths': seq<seq<nat>>)
    requires g.Valid() && path.Valid() && current !in path.vertices
    requires Stack(g.adj[..], path.vertices + [current])
    modifies path
    ensures paths' == paths + Simple(g.adj[..], old(path.vertices) + [current], t)
    ensures path.vertices == old(path.vertices) && path.visited == old(path.visited)
    decreases 64 - |path.vertices|, 0
  {
    ghost var a := g.adj[..];
    ghost var p := path.vertices + [current];
    ghost var mask := path.visited;
    DistinctBound(p, |a|);
    assert current == p[|p| - 1];
    path.Discover(current);
    if current == t {
      paths' := paths + [path.vertices];
    } else {
      paths' := Neighbours(g, current, t, path, paths, p);
    }
    path.Backtrack(current);
    MembersInjective(path.visited, mask);
  }

  /** Clearing the lowest member of a mask holding the neighbours from w on leaves those above it. */
  lemma MaskStep(a: seq<Word>, c: nat, m: Word, w: nat)
    requires m != Zero && forall x: nat :: x in Members(m) <==> w <= x && Edge(a, c, x)
    ensures forall x: nat :: x in Members(And(m, Not(Bit(Ctz(m))))) <==> Ctz(m) + 1 <= x && Edge(a, c, x)
  {
    PopCountClearLowest(m);
  }

  /**
    The neighbour loop of `recursive_list_paths`: walks the mask of `current`
    from its lowest member up, clearing each member after its turn.
  */
  method Neighbours(g: Graph, current: nat, t: nat, path: EdgePath, paths: seq<seq<nat>>, ghost p: seq<nat>)
    returns (paths': seq<seq<nat>>)
    requires g.Valid() && path.Valid() && path.vertices == p && Stack(g.adj[..], p) && Last(p) == current
    ensures paths' == paths + SimpleFrom(g.adj[..], p, t, 0)
    decreases 64 - |p|, 2
  {
    ghost var a := g.adj[..];
    var m := g.adj[current];
    ghost var w: nat := 0;
    paths' := paths;
    while m != Zero
      invariant w <= 64 && forall x: nat :: x in Members(m) <==> w <= x && Edge(a, current, x)
      invariant paths' + SimpleFrom(a, p, t, w) == paths + SimpleFrom(a, p, t, 0)
      decreases PopCount(m)
    {
      var iter := Ctz(m);
      MembersBound(m);
      SimpleFromSkip(a, p, t, w, iter);
      paths' := Branch(g, current, t, iter, path, paths', p);
      PopCountClearLowest(m);
      MaskStep(a, current, m, w);
      m := And(m, Not(Bit(iter)));
      w := iter + 1;
    }
    MembersEmpty(m);
    SimpleFromSkip(a, p, t, w, 64);
  }

  /**
    One turn of the neighbour loop of `recursive_list_paths`: for the neighbour
    `iter` of `current`, when it is not on the path, the search from it on a
    copy of the path.
  */
  method Branch(g: Graph, current: nat, t: nat, iter: nat, path: EdgePath, paths: seq<seq<nat>>, ghost p: seq<nat>)
    returns (paths': seq<seq<nat>>)
    requires g.Valid() && path.Valid() && path.vertices == p && Stack(g.adj[..], p) && Last(p) == current
    requires iter < 64 && Edge(g.adj[..], current, iter)
    ensures paths' + SimpleFrom(g.adj[..], p, t, iter + 1) == paths + SimpleFrom(g.adj[..], p, t, iter)
    decreases 64 - |p|, 1
  {
    DistinctBound(p, |g.adj[..]|);
    if !path.Contains(iter) {
      StackExtend(g.adj[..], p, iter);
      var copy := path.Copy();
      paths' := RecursiveListPaths(g, iter, t, copy, paths);
    } else {
      paths' := paths;
    }
  }

  /** `list_paths(g, s, t, paths)`: appends the simple paths from s to t to `paths`. */
  method ListPaths(g: Graph, s: nat, t: nat, paths: seq<seq<nat>>) returns (paths': seq<seq<nat>>)
    requires g.Valid() && s < g.adj.Length
    ensures WellFormed(g.adj[..]) && paths' == paths + Simple(g.adj[..], [s], t)
  {
    FromEdgesWellFormed(g.adj.Length, g.edges);
    var current := new EdgePath();
    assert current.vertices + [s] == [s];
    assert Stack(g.adj[..], [s]);
    paths' := RecursiveListPaths(g, s, t, current, paths);
  }
}
