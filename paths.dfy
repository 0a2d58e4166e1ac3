/**
  The path accumulators of path.hpp and `to_edge_list` of path.cpp.
  `edge_path` keeps the vertices in discovery order and a mask of the vertices
  on the path; `vertex_path` keeps 64 membership flags.
*/
module Paths {
  import opened Bits
  import opened GraphModel

  /** `edge_path` (path.hpp:105-164). */
  class EdgePath {
    /** `visited_` */
    var visited: Word
    /** `edges_`: the vertices, in discovery order. */
    var vertices: seq<nat>

    /**
      The use the enumerators make of a path: discover and backtrack paired
      last-in first-out over distinct vertices, so the mask holds exactly the
      vertices of the sequence.
    */
    ghost predicate Valid()
      reads this
    {
      Distinct(vertices) && (forall i :: 0 <= i < |vertices| ==> vertices[i] < 64) &&
      Members(visited) == Elems(vertices)
    }

    /** `edge_path()`: no vertices and an empty mask. */
    constructor ()
      ensures visited == Zero && vertices == []
      ensures Valid()
    {
      visited := Zero;
      vertices := [];
      new;
      MembersEmpty(Zero);
    }

    /**
      `edge_path(s)`: no vertices; `visited_` is left uninitialised, so the model
      lets it be any word.
    */
    constructor FromSource(s: nat)
      ensures vertices == []
    {
      vertices := [];
    }

    /** `discover_vertex(v)`: sets bit v and appends v, changing nothing else. */
    method Discover(v: nat)
      requires v < 64
      modifies this
      ensures visited == Or(old(visited), Bit(v)) && vertices == old(vertices) + [v]
      ensures Members(visited) == Members(old(visited)) + {v}
      ensures old(Valid()) && v !in old(vertices) ==> Valid()
    {
      visited := Or(visited, Bit(v));
      vertices := vertices + [v];
      MembersSet(old(visited), v);
    }

    /** `backtrack_vertex(v)`: clears bit v and drops the last vertex, which `pop_back` requires to exist. */
    method Backtrack(v: nat)
      requires v < 64 && |vertices| > 0
      modifies this
      ensures visited == And(old(visited), Not(Bit(v))) && vertices == old(vertices)[..|old(vertices)| - 1]
      ensures Members(visited) == Members(old(visited)) - {v}
      ensures old(Valid()) && v == old(vertices)[|old(vertices)| - 1] ==> Valid()
    {
      visited := And(visited, Not(Bit(v)));
      vertices := vertices[..|vertices| - 1];
      MembersClear(old(visited), v);
      assert old(vertices) == vertices + [v] ==> Elems(old(vertices)) == Elems(vertices) + {v};
    }

    /** `contains_vertex(v)`: bit v of the mask; on a valid path, membership in the sequence. */
    function Contains(v: nat): (r: bool)
      reads this
      requires v < 64
      ensures r <==> v in Members(visited)
      ensures Valid() ==> (r <==> v in vertices)
    {
      BitTestMembers(visited, v);
      BitTest(visited, v)
    }

    /** `size()`: the number of edges, one less than the number of vertices (-1 for an empty path). */
    function Size(): (r: int)
      reads this
      ensures r + 1 == |vertices|
    {
      |vertices| - 1
    }

    /** A copy of the path: what passing `Path` by value and `paths.emplace_back(current_path)` make. */
    method Copy() returns (p: EdgePath)
      ensures fresh(p) && p.visited == visited && p.vertices == vertices
    {
      p := new EdgePath();
      p.visited := visited;
      p.vertices := vertices;
    }
  }

  /**
    Discovering a vertex not on the path and backtracking it restores both the
    mask and the sequence exactly.
  */
  lemma DiscoverBacktrackRestores(visited: Word, vertices: seq<nat>, v: nat)
    requires v < 64 && v !in Members(visited)
    ensures And(Or(visited, Bit(v)), Not(Bit(v))) == visited
    ensures (vertices + [v])[..|vertices + [v]| - 1] == vertices
  {
    MembersSet(visited, v);
    MembersClear(Or(visited, Bit(v)), v);
    MembersInjective(And(Or(visited, Bit(v)), Not(Bit(v))), visited);
  }

  /** `vertex_path` (path.hpp:50-101): one flag per possible vertex. */
  class VertexPath {
    /** `p_`: 64 flags, never resized. */
    const p: array<bool>

    /** The vertices whose flag is set. */
    ghost function Marked(): set<nat>
      reads p
    {
      set i: nat | i < p.Length && p[i]
    }

    /** `vertex_path()`: all 64 flags false. */
    constructor ()
      ensures fresh(p) && p.Length == 64 && Marked() == {}
    {
      p := new bool[64](_ => false);
    }

    /** `vertex_path(s)`: only flag s set. */
    constructor FromSource(s: nat)
      requires s < 64
      ensures fresh(p) && p.Length == 64 && Marked() == {s}
    {
      var flags := new bool[64](_ => false);
      flags[s] := true;
      p := flags;
    }

    /** `discover_vertex(v)`: sets flag v and no other. */
    method Discover(v: nat)
      requires v < p.Length
      modifies p
      ensures p[v] && forall i :: 0 <= i < p.Length && i != v ==> p[i] == old(p[i])
      ensures Marked() == old(Marked()) + {v}
    {
      p[v] := true;
    }

    /** `backtrack_vertex(v)`: clears flag v and no other. */
    method Backtrack(v: nat)
      requires v < p.Length
      modifies p
      ensures !p[v] && forall i :: 0 <= i < p.Length && i != v ==> p[i] == old(p[i])
      ensures Marked() == old(Marked()) - {v}
    {
      p[v] := false;
    }

    /** `contains_vertex(v)`: reads flag v. */
    function Contains(v: nat): (r: bool)
      reads p
      requires v < p.Length
      ensures r <==> v in Marked()
    {
      p[v]
    }

    /**
      `size()` as written: it returns `bool`, so the 64 flags convert to true
      whatever the path holds.
    */
    function Size(): (r: bool)
      reads this
      requires p.Length == 64
      ensures r
    {
      p.Length != 0
    }
  }

  // ---------------------------------------------------------------------------
  // to_edge_list

  function Min(a: nat, b: nat): nat { if a <= b then a else b }

  function Max(a: nat, b: nat): nat { if a <= b then b else a }

  /** The normalised edge list of a vertex sequence: (min, max) of each consecutive pair. */
  function EdgeListOf(vs: seq<nat>): (r: seq<nat>)
    ensures |vs| >= 1 ==> |r| == 2 * (|vs| - 1)
    ensures |vs| < 1 ==> r == []
  {
    if |vs| < 2 then [] else EdgeListOf(vs[..|vs| - 1]) + [Min(vs[|vs| - 2], vs[|vs| - 1]), Max(vs[|vs| - 2], vs[|vs| - 1])]
  }

  /** Pair i of the edge list is the sorted pair of vertices i and i + 1. */
  lemma {:induction false} EdgeListOfPairs(vs: seq<nat>, i: nat)
    requires i + 1 < |vs|
    ensures EdgeAt(EdgeListOf(vs), i) == (Min(vs[i], vs[i + 1]), Max(vs[i], vs[i + 1]))
  {
    if i + 2 < |vs| {
      var init := vs[..|vs| - 1];
      EdgeListOfPairs(init, i);
      assert EdgeAt(EdgeListOf(vs), i) == EdgeAt(EdgeListOf(init), i);
    }
  }

  /**
    `to_edge_list(p)`: needs a non-empty path (it takes `cend() - 1`); returns one
    (min, max) pair per consecutive pair of vertices, in path order, two integers
    per edge of the path.
  */
  method ToEdgeList(p: EdgePath) returns (r: seq<nat>)
    requires |p.vertices| >= 1
    ensures r == EdgeListOf(p.vertices)
    ensures |r| == 2 * p.Size()
    ensures forall i :: 0 <= i < |p.vertices| - 1 ==>
      EdgeAt(r, i) == (Min(p.vertices[i], p.vertices[i + 1]), Max(p.vertices[i], p.vertices[i + 1]))
  {
    var vs := p.vertices;
    r := [];
    var i := 0;
    while i != |vs| - 1
      invariant 0 <= i <= |vs| - 1
      invariant r == EdgeListOf(vs[..i + 1])
    {
      var a, b := vs[i], vs[i + 1];
      r := r + [Min(a, b), Max(a, b)];
      i := i + 1;
      assert vs[..i + 1][..i] == vs[..i];
    }
    assert vs[..i + 1] == vs;
    forall i | 0 <= i < |vs| - 1
      ensures EdgeAt(r, i) == (Min(vs[i], vs[i + 1]), Max(vs[i], vs[i + 1]))
    {
      EdgeListOfPairs(vs, i);
    }
  }

  /**
    The edge list of a simple path of a graph lists edges of that graph, each
    with its smaller endpoint first, and is a valid edge sequence for it.
  */
  lemma EdgeListOfWalk(adj: seq<Word>, vs: seq<nat>, i: nat)
    requires WellFormed(adj) && IsWalk(adj, vs) && i + 1 < |vs|
    ensures EdgeAt(EdgeListOf(vs), i).0 < EdgeAt(EdgeListOf(vs), i).1
    ensures Edge(adj, EdgeAt(EdgeListOf(vs), i).0, EdgeAt(EdgeListOf(vs), i).1)
  {
    EdgeListOfPairs(vs, i);
    assert Edge(adj, vs[i], vs[i + 1]);
  }
}
