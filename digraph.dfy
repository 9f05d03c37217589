/** The directed-graph ADT of digraph.py: two dictionaries of sets kept
    mutually consistent, `tosets[v]` (successors of v) and `fromsets[v]`
    (predecessors of v). */
module Digraphs {
  import opened Outcomes
  import opened Walks

  /** The two maps have the same vertices, and w is a successor of v exactly
      when v is a predecessor of w. */
  ghost predicate Consistent(to: Adjacency, from: Adjacency) {
    && to.Keys == from.Keys
    && (forall v, w :: v in to && w in to[v] ==> w in from && v in from[w])
    && (forall v, w :: w in from && v in from[w] ==> v in to && w in to[v])
  }

  /** `m` with `v` added as a key with no neighbours, unless already there. */
  function WithVertex(m: Adjacency, v: Vertex): Adjacency {
    if v in m then m else m[v := {}]
  }

  /** `m[a].add(b)` */
  function Link(m: Adjacency, a: Vertex, b: Vertex): Adjacency
    requires a in m
  {
    m[a := m[a] + {b}]
  }

  /** `m` after adding the vertices `a` and `b` and the link from `a` to
      `b`: the successor map after `add_edge((a, b))`. */
  function WithEdge(m: Adjacency, a: Vertex, b: Vertex): Adjacency {
    Link(WithVertex(WithVertex(m, a), b), a, b)
  }

  lemma WithVertexKeeps(to: Adjacency, from: Adjacency, v: Vertex)
    requires Consistent(to, from)
    ensures Consistent(WithVertex(to, v), WithVertex(from, v))
    ensures EdgeSet(WithVertex(to, v)) == EdgeSet(to)
  {
  }

  lemma LinkKeeps(to: Adjacency, from: Adjacency, a: Vertex, b: Vertex)
    requires Consistent(to, from) && a in to && b in to
    ensures Consistent(Link(to, a, b), Link(from, b, a))
    ensures EdgeSet(Link(to, a, b)) == EdgeSet(to) + {(a, b)}
  {
    var to', from' := Link(to, a, b), Link(from, b, a);
    forall v, w | v in to' && w in to'[v] ensures w in from' && v in from'[w] {
      if v != a || w != b { assert w in to[v]; }
    }
    forall v, w | w in from' && v in from'[w] ensures v in to' && w in to'[v] {
      if v != a || w != b { assert v in from[w]; }
    }
  }

  /** Adding an edge: both endpoints become vertices, the edge set grows by
      exactly that edge, the maps stay consistent, and an edge already
      present changes nothing. */
  lemma AddEdgeKeeps(to: Adjacency, from: Adjacency, e: Edge)
    requires Consistent(to, from)
    ensures var to1, from1 := WithVertex(WithVertex(to, e.0), e.1), WithVertex(WithVertex(from, e.0), e.1);
      && e.0 in to1 && e.1 in from1
      && Consistent(Link(to1, e.0, e.1), Link(from1, e.1, e.0))
      && Link(to1, e.0, e.1).Keys == to.Keys + {e.0, e.1}
      && EdgeSet(Link(to1, e.0, e.1)) == EdgeSet(to) + {e}
      && (e in EdgeSet(to) ==> Link(to1, e.0, e.1) == to && Link(from1, e.1, e.0) == from)
  {
    WithVertexKeeps(to, from, e.0);
    var to0, from0 := WithVertex(to, e.0), WithVertex(from, e.0);
    WithVertexKeeps(to0, from0, e.1);
    var to1, from1 := WithVertex(to0, e.1), WithVertex(from0, e.1);
    LinkKeeps(to1, from1, e.0, e.1);
    if e in EdgeSet(to) {
      assert e.1 in to[e.0] && e.0 in from[e.1];
      assert to1 == to && from1 == from;
      assert to[e.0] + {e.1} == to[e.0];
      assert from[e.1] + {e.0} == from[e.1];
    }
  }

  /** The elements of a list, as a set. */
  function Elements<T>(s: seq<T>): set<T> {
    set x | x in s
  }

  lemma PrefixElements<T>(s: seq<T>, i: nat)
    requires i < |s|
    ensures Elements(s[..i + 1]) == Elements(s[..i]) + {s[i]}
  {
    assert s[..i + 1] == s[..i] + [s[i]];
  }

  /** The vertices named by a set of edges. */
  function Endpoints(edges: set<Edge>): set<Vertex> {
    (set e | e in edges :: e.0) + (set e | e in edges :: e.1)
  }

  lemma EndpointsAdd(edges: set<Edge>, e: Edge)
    ensures Endpoints(edges + {e}) == Endpoints(edges) + {e.0, e.1}
  {
    assert (set x | x in edges + {e} :: x.0) == (set x | x in edges :: x.0) + {e.0};
    assert (set x | x in edges + {e} :: x.1) == (set x | x in edges :: x.1) + {e.1};
  }

  /** The edges leaving the vertices of D. */
  function EdgesOut(E: Adjacency, D: set<Vertex>): set<Edge> {
    set v, w | v in D && v in E && w in E[v] :: (v, w)
  }

  lemma {:induction false} InjectiveValuesCard<K, V>(m: map<K, V>)
    requires forall a, b :: a in m && b in m && m[a] == m[b] ==> a == b
    ensures |m.Values| == |m.Keys|
    decreases |m.Keys|
  {
    if m != map[] {
      var k :| k in m;
      var m' := m - {k};
      InjectiveValuesCard(m');
      forall x | x in m.Values ensures x in m'.Values + {m[k]} {
        var a :| a in m && m[a] == x;
        if a != k { assert m'[a] == x; }
      }
      forall x | x in m'.Values ensures x in m.Values {
        var a :| a in m' && m'[a] == x;
        assert m[a] == x;
      }
      assert m.Values == m'.Values + {m[k]};
      assert m[k] !in m'.Values;
      assert m.Keys == m'.Keys + {k};
    }
  }

  /** Taking one element out of a non-empty set leaves one fewer. */
  lemma TakeOne<T>(S: set<T>) returns (x: T)
    requires S != {}
    ensures x in S && |S - {x}| == |S| - 1
  {
    x :| x in S;
  }

  lemma {:induction false} FanCard(v: Vertex, S: set<Vertex>)
    ensures |set w | w in S :: (v, w)| == |S|
    decreases |S|
  {
    if S != {} {
      var x := TakeOne(S);
      FanCard(v, S - {x});
      assert (set w | w in S :: (v, w)) == (set w | w in S - {x} :: (v, w)) + {(v, x)};
    }
  }

  /** Adding one vertex's out-edges to the count adds its out-degree. */
  lemma EdgesOutGrow(E: Adjacency, D: set<Vertex>, v: Vertex)
    requires v in E && v !in D
    ensures |EdgesOut(E, D + {v})| == |EdgesOut(E, D)| + |E[v]|
  {
    var fan := set w | w in E[v] :: (v, w);
    FanCard(v, E[v]);
    forall x | x in EdgesOut(E, D + {v}) ensures x in EdgesOut(E, D) + fan {
      if x.0 != v { assert x in EdgesOut(E, D); }
    }
    assert EdgesOut(E, D + {v}) == EdgesOut(E, D) + fan;
    assert EdgesOut(E, D) !! fan;
  }

  class Digraph {
    var tosets: Adjacency
    var fromsets: Adjacency

    ghost predicate Valid()
      reads this
    {
      Consistent(tosets, fromsets)
    }

    /** `Digraph(edges)`: the graph holding exactly the given edges and
        their endpoints. */
    constructor (edges: seq<Edge>)
      ensures Valid()
      ensures Edges() == Elements(edges)
      ensures Vertices() == Endpoints(Edges())
    {
      tosets := map[];
      fromsets := map[];
      new;
      assert Edges() == {} == Elements(edges[..0]);
      assert Endpoints({}) == {};
      for i := 0 to |edges|
        invariant Valid()
        invariant Edges() == Elements(edges[..i])
        invariant Vertices() == Endpoints(Edges())
      {
        ghost var before := Edges();
        AddEdge(edges[i]);
        EndpointsAdd(before, edges[i]);
        PrefixElements(edges, i);
      }
      assert edges[..|edges|] == edges;
    }

    /** Adds `v` with empty successor and predecessor sets; a vertex already
        present keeps its sets. */
    method AddVertex(v: Vertex)
      requires Valid()
      modifies this
      ensures Valid()
      ensures v in old(tosets) ==> tosets == old(tosets) && fromsets == old(fromsets)
      ensures v !in old(tosets) ==> tosets == old(tosets)[v := {}] && fromsets == old(fromsets)[v := {}]
      ensures tosets == WithVertex(old(tosets), v) && fromsets == WithVertex(old(fromsets), v)
      ensures Vertices() == old(Vertices()) + {v}
      ensures Edges() == old(Edges())
    {
      WithVertexKeeps(tosets, fromsets, v);
      if v !in tosets {
        tosets := tosets[v := {}];
        fromsets := fromsets[v := {}];
      }
    }

    /** Adds both endpoints (if absent), then the edge on both sides. */
    method AddEdge(e: Edge)
      requires Valid()
      modifies this
      ensures Valid()
      ensures tosets == WithEdge(old(tosets), e.0, e.1)
      ensures fromsets == Link(WithVertex(WithVertex(old(fromsets), e.0), e.1), e.1, e.0)
      ensures Vertices() == old(Vertices()) + {e.0, e.1}
      ensures Edges() == old(Edges()) + {e}
      ensures e in old(Edges()) ==> tosets == old(tosets) && fromsets == old(fromsets)
    {
      AddEdgeKeeps(tosets, fromsets, e);
      AddVertex(e.0);
      AddVertex(e.1);
      tosets := tosets[e.0 := tosets[e.0] + {e.1}];
      fromsets := fromsets[e.1 := fromsets[e.1] + {e.0}];
    }

    /** The set of edges as ordered pairs; seen from the predecessor side
        it is the same set. */
    function Edges(): (r: set<Edge>)
      reads this
      ensures Valid() ==> forall v, w :: (v, w) in r <==> w in fromsets && v in fromsets[w]
    {
      EdgeSet(tosets)
    }

    /** The set of vertices; it is also the key set of `fromsets`. */
    function Vertices(): (r: set<Vertex>)
      reads this
      ensures Valid() ==> r == fromsets.Keys
    {
      tosets.Keys
    }

    function NumVertices(): (n: nat)
      reads this
      ensures n == |Vertices()|
    {
      |tosets|
    }

    /** Sums the out-degrees; the sum is the number of edges. */
    method NumEdges() returns (m: nat)
      ensures m == |Edges()|
    {
      m := 0;
      ghost var done: set<Vertex> := {};
      var rest := tosets.Keys;
      while rest != {}
        invariant rest !! done && rest + done == tosets.Keys
        invariant m == |EdgesOut(tosets, done)|
        decreases rest
      {
        var v := Choose(rest);
        EdgesOutGrow(tosets, done, v);
        m := m + |tosets[v]|;
        rest := rest - {v};
        done := done + {v};
      }
      assert EdgesOut(tosets, done) == EdgeSet(tosets);
    }

    /** Successors of `v`; a KeyError for a vertex not in the graph.  With
        the invariant, w is a successor of v iff v is a predecessor of w. */
    function AdjTo(v: Vertex): (r: Outcome<set<Vertex>>)
      reads this
      ensures r.KeyError? <==> v !in Vertices()
      ensures r.KeyError? ==> r.key == v
      ensures Valid() && r.Value? ==> forall w :: w in r.value <==> w in fromsets && v in fromsets[w]
    {
      if v in tosets then Value(tosets[v]) else KeyError(v)
    }

    /** Predecessors of `v`; a KeyError for a vertex not in the graph.  With
        the invariant, u is a predecessor of v iff v is a successor of u. */
    function AdjFrom(v: Vertex): (r: Outcome<set<Vertex>>)
      reads this
      ensures Valid() ==> (r.KeyError? <==> v !in Vertices())
      ensures r.KeyError? ==> r.key == v
      ensures Valid() && r.Value? ==> forall u :: u in r.value <==> HasEdge(tosets, u, v)
    {
      if v in fromsets then Value(fromsets[v]) else KeyError(v)
    }

    /** `is_path`: true for [], for [v] exactly when v is a vertex, and for a
        longer list exactly when every consecutive pair is an edge.  On a
        consistent graph the only lookup that can fail is that of the first
        vertex. */
    function IsPath(path: seq<Vertex>): (r: Outcome<bool>)
      reads this
      ensures |path| == 0 ==> r == Value(true)
      ensures |path| == 1 ==> r == Value(path[0] in Vertices())
      ensures Valid() ==> (r == Value(true) <==> IsWalk(tosets, path))
      ensures Valid() ==> (r.KeyError? <==> |path| >= 2 && path[0] !in Vertices())
      ensures r.KeyError? ==> r.key !in Vertices()
    {
      if |path| == 0 then Value(true)
      else if |path| == 1 then Value(path[0] in tosets)
      else
        var r := ScanSteps(tosets, path, 1);
        ConsistentIsClosed(tosets, fromsets);
        ScanStepsWalk(tosets, path);
        r
    }
  }

  /** The loop `for i in range(1, len(path))` of `is_path`, from index i on:
      a KeyError when `path[i-1]` is not a vertex, false when `path[i]` is
      not its successor. */
  function ScanSteps(E: Adjacency, path: seq<Vertex>, i: nat): (r: Outcome<bool>)
    requires 1 <= i <= |path|
    ensures r == Value(true) <==> forall j :: i <= j < |path| ==> HasEdge(E, path[j - 1], path[j])
    ensures r.KeyError? ==> r.key !in E
    ensures Closed(E) ==> (r.KeyError? <==> i < |path| && path[i - 1] !in E)
    decreases |path| - i
  {
    if i == |path| then Value(true)
    else if path[i - 1] !in E then
      assert !HasEdge(E, path[i - 1], path[i]);
      KeyError(path[i - 1])
    else if path[i] !in E[path[i - 1]] then
      assert !HasEdge(E, path[i - 1], path[i]);
      Value(false)
    else
      assert HasEdge(E, path[i - 1], path[i]);
      ScanSteps(E, path, i + 1)
  }

  /** The successor set `adj_to` hands out is the adjacency entry itself. */
  lemma AdjToSuccessors(G: Digraph, v: Vertex)
    requires v in G.tosets
    ensures G.AdjTo(v) == Value(G.tosets[v])
  {
  }

  lemma ConsistentIsClosed(to: Adjacency, from: Adjacency)
    ensures Consistent(to, from) ==> Closed(to)
  {
  }

  /** On a closed graph, a list of two or more vertices whose consecutive
      pairs are all edges is a walk. */
  lemma ScanStepsWalk(E: Adjacency, path: seq<Vertex>)
    requires |path| >= 2
    ensures Closed(E) ==> ((forall j :: 1 <= j < |path| ==> HasEdge(E, path[j - 1], path[j])) <==> IsWalk(E, path))
  {
    if Closed(E) && forall j :: 1 <= j < |path| ==> HasEdge(E, path[j - 1], path[j]) {
      forall i | 0 <= i < |path| ensures path[i] in E {
        if i == 0 { assert HasEdge(E, path[0], path[1]); }
        else { assert HasEdge(E, path[i - 1], path[i]); }
      }
    }
  }

  /** The documented examples of `is_path` on the graph with edges (1,2),
      (2,3), (2,4), (1,5), (2,5), (4,5), (5,2): 1,5,2,4,5 follows edges,
      1,5,4,2 stops at the missing edge (5,4). */
  lemma IsPathExamples()
    ensures var E := map[1 := {2, 5}, 2 := {3, 4, 5}, 3 := {}, 4 := {5}, 5 := {2}];
      && ScanSteps(E, [1, 5, 2, 4, 5], 1) == Value(true)
      && ScanSteps(E, [1, 5, 4, 2], 1) == Value(false)
  {
  }

  /** The documented examples of the class: the empty graph has no vertex
      and no edge, and the circular graph on 1, 2, 3 has three of each. */
  method ConstructorExamples() returns (empty: (nat, nat), circular: (nat, nat))
    ensures empty == (0, 0) && circular == (3, 3)
  {
    var G := new Digraph([]);
    assert Elements<Edge>([]) == {};
    var m := G.NumEdges();
    empty := (G.NumVertices(), m);
    var cycle := [(1, 2), (2, 3), (3, 1)];
    var H := new Digraph(cycle);
    ghost var E := {(1, 2), (2, 3), (3, 1)};
    assert Elements(cycle) == E by {
      assert cycle[0] == (1, 2) && cycle[1] == (2, 3) && cycle[2] == (3, 1);
    }
    Endpoints3(1, 2, 3);
    Card3((1, 2), (2, 3), (3, 1));
    Card3(1, 2, 3);
    m := H.NumEdges();
    circular := (H.NumVertices(), m);
  }

  lemma Endpoints3(a: Vertex, b: Vertex, c: Vertex)
    ensures Endpoints({(a, b), (b, c), (c, a)}) == {a, b, c}
  {
  }

  lemma Card3<T>(a: T, b: T, c: T)
    requires a != b && b != c && a != c
    ensures |{a, b, c}| == 3
  {
  }

  lemma Card4<T>(a: T, b: T, c: T, d: T)
    requires a != b && b != c && a != c && d !in {a, b, c}
    ensures |{a, b, c, d}| == 4
  {
    Card3(a, b, c);
    assert {a, b, c, d} == {a, b, c} + {d};
  }

  /** The documented example of `add_edge`: after adding (1, 2), (2, 1),
      (3, 4) and (1, 2) again to the graph with vertices 1 and 2, the
      successor map holds three edges and four vertices. */
  lemma AddEdgeExample()
    ensures var to := WithEdge(WithEdge(WithEdge(WithEdge(
                        WithVertex(WithVertex(map[], 1), 2), 1, 2), 2, 1), 3, 4), 1, 2);
            |EdgeSet(to)| == 3 && |to.Keys| == 4
  {
    var m0: Adjacency := map[1 := {}, 2 := {}];
    assert WithVertex(WithVertex(map[], 1), 2) == m0;
    var m1 := map[1 := {2}, 2 := {}];
    assert WithVertex(WithVertex(m0, 1), 2) == m0 && m0[1] + {2} == {2};
    assert WithEdge(m0, 1, 2) == m1;
    var m2 := map[1 := {2}, 2 := {1}];
    assert WithVertex(WithVertex(m1, 2), 1) == m1 && m1[2] + {1} == {1};
    assert WithEdge(m1, 2, 1) == m2;
    var to := map[1 := {2}, 2 := {1}, 3 := {4}, 4 := {}];
    var m3 := map[1 := {2}, 2 := {1}, 3 := {}, 4 := {}];
    assert WithVertex(WithVertex(m2, 3), 4) == m3 && m3[3] + {4} == {4};
    assert WithEdge(m2, 3, 4) == to;
    assert to[1] + {2} == to[1];
    assert WithEdge(to, 1, 2) == to;
    assert EdgeSet(to) == {(1, 2), (2, 1), (3, 4)} by {
      forall x | x in EdgeSet(to) ensures x in {(1, 2), (2, 1), (3, 4)} {
        assert x.0 in to.Keys;
      }
    }
    Card3((1, 2), (2, 1), (3, 4));
    assert to.Keys == {1, 2, 3, 4};
    Card4(1, 2, 3, 4);
  }
}
