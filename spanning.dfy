/** `spanning_tree` of digraph.py: a depth-first search from `start` with an
    explicit stack of (vertex, edge that reached it) entries.  The edge by
    which each vertex is first visited goes into a fresh Digraph. */
module SpanningTree {
  import opened Outcomes
  import opened Walks
  import opened Digraphs

  /** A stack entry: a vertex and the edge along which it was pushed
      (`None` for `start`). */
  type Entry = (Vertex, Option<Edge>)

  /** The vertices on the stack. */
  function Pending(todo: seq<Entry>): set<Vertex> {
    set x | x in todo :: x.0
  }

  /** The edges `(tp[v], v)` of a parent map. */
  function TreeEdges(tp: map<Vertex, Vertex>): set<Edge> {
    set v | v in tp :: (tp[v], v)
  }

  /** Every stack entry other than the initial one was pushed along an edge
      from a visited vertex to a vertex other than `start`. */
  ghost predicate WellPushed(E: Adjacency, start: Vertex, visited: set<Vertex>, todo: seq<Entry>) {
    forall k :: 0 <= k < |todo| ==>
      match todo[k].1
      case None => todo[k].0 == start && visited == {}
      case Some(e) => e.1 == todo[k].0 && e.0 in visited && HasEdge(E, e.0, e.1) && e.1 != start
  }

  /** Every successor of a visited vertex is visited or on the stack. */
  ghost predicate Explored(E: Adjacency, visited: set<Vertex>, todo: seq<Entry>) {
    forall u, w :: u in visited && HasEdge(E, u, w) ==> w in visited || w in Pending(todo)
  }

  /** The invariant of the search loop.  `tp` maps each visited vertex other
      than `start` to the vertex it was first reached from, and `rank`
      numbers the visited vertices in visiting order. */
  ghost predicate DfsState(E: Adjacency, start: Vertex, visited: set<Vertex>, todo: seq<Entry>,
                           tp: map<Vertex, Vertex>, rank: map<Vertex, nat>)
  {
    && visited <= E.Keys
    && (visited == {} ==> todo == [(start, None)])
    && (visited != {} ==> start in visited)
    && tp.Keys == visited - {start}
    && rank.Keys == visited && Ranked(tp, rank) && RankedBelow(rank, |visited|)
    && (forall v :: v in tp ==> HasEdge(E, tp[v], v))
    && WellPushed(E, start, visited, todo)
    && Explored(E, visited, todo)
  }

  /** `Et` is a tree of edges of `E` rooted at `start`: no vertex has two
      incoming edges and `start` has none, every vertex of `Et` is reachable
      from `start` in `Et`, and every vertex other than `start` reachable
      from `start` in `E` is a vertex of `Et`. */
  ghost predicate SpansFrom(E: Adjacency, Et: Adjacency, start: Vertex) {
    && (forall p, c :: HasEdge(Et, p, c) ==> HasEdge(E, p, c))
    && (forall p, q, c :: HasEdge(Et, p, c) && HasEdge(Et, q, c) ==> p == q)
    && (forall p :: !HasEdge(Et, p, start))
    && (forall v :: v in Et ==> Reachable(Et, start, v))
    && (forall v :: Reachable(E, start, v) && v != start ==> v in Et)
  }

  /** `spanning_tree(G, start)`.  A KeyError exactly when `start` is not a
      vertex.  Otherwise a new graph whose edges are edges of G, in which
      no vertex has two incoming edges and `start` has none, every vertex
      is reachable from `start`, and which holds every vertex other than
      `start` that is reachable from `start` in G. */
  method SpanningTree(G: Digraph, start: Vertex) returns (r: Outcome<Digraph>)
    requires G.Valid()
    ensures r.KeyError? <==> start !in G.Vertices()
    ensures r.KeyError? ==> r.key == start
    ensures r.Value? ==> fresh(r.value) && r.value.Valid() && SpansFrom(G.tosets, r.value.tosets, start)
  {
    ConsistentIsClosed(G.tosets, G.fromsets);
    var visited: set<Vertex> := {};
    var todo: seq<Entry> := [(start, None)];
    var T := new Digraph([]);
    ghost var tp: map<Vertex, Vertex> := map[];
    ghost var rank: map<Vertex, nat> := map[];
    DfsStarts(G.tosets, start);

    while todo != []
      invariant fresh(T) && T.Valid()
      invariant DfsState(G.tosets, start, visited, todo, tp, rank)
      invariant T.Edges() == TreeEdges(tp)
      invariant T.Vertices() == Endpoints(T.Edges())
      decreases |G.tosets.Keys - visited|, |todo|
    {
      var missing;
      missing, todo, visited, tp, rank := Step(G, T, start, todo, visited, tp, rank);
      if missing {
        return KeyError(start);
      }
    }

    TreeSpans(G.tosets, T, start, visited, tp, rank);
    r := Value(T);
  }

  /** One iteration of the search loop: pops the top entry and, when its
      vertex is new, visits it (recording the edge it came along in T and
      pushing its unvisited successors).  `missing` is the KeyError that
      `G.adj_to(cur)` raises, which only `start` can cause. */
  method Step(G: Digraph, T: Digraph, start: Vertex, todo0: seq<Entry>, visited0: set<Vertex>,
              ghost tp0: map<Vertex, Vertex>, ghost rank0: map<Vertex, nat>)
    returns (missing: bool, todo: seq<Entry>, visited: set<Vertex>,
             ghost tp: map<Vertex, Vertex>, ghost rank: map<Vertex, nat>)
    requires G.Valid() && T.Valid() && T != G && Closed(G.tosets)
    requires DfsState(G.tosets, start, visited0, todo0, tp0, rank0) && todo0 != []
    requires T.Edges() == TreeEdges(tp0) && T.Vertices() == Endpoints(T.Edges())
    modifies T
    ensures T.Valid()
    ensures missing ==> start !in G.tosets
    ensures !missing ==> DfsState(G.tosets, start, visited, todo, tp, rank)
    ensures !missing ==> T.Edges() == TreeEdges(tp) && T.Vertices() == Endpoints(T.Edges())
    ensures !missing ==> |G.tosets.Keys - visited| < |G.tosets.Keys - visited0| ||
                         (visited == visited0 && |todo| < |todo0|)
  {
    missing, tp, rank := false, tp0, rank0;
    var cur, e := todo0[|todo0| - 1].0, todo0[|todo0| - 1].1;
    todo := todo0[..|todo0| - 1];
    if cur in visited0 {
      PopVisited(G.tosets, start, visited0, todo0, tp0, rank0);
      visited := visited0;
      return;
    }
    visited := visited0 + {cur};
    if e.Some? {
      PushedEdge(G.tosets, start, visited0, todo0, tp0, rank0);
      ghost var before := T.Edges();
      TreeEdgesAdd(tp0, e.value.0, cur);
      T.AddEdge(e.value);
      EndpointsAdd(before, e.value);
      tp := tp0[cur := e.value.0];
    }
    var adj := G.AdjTo(cur);
    if adj.KeyError? {
      OnlyRootMissing(G.tosets, start, visited0, todo0, tp0, rank0);
      missing := true;
      return;
    }
    AdjToSuccessors(G, cur);
    assert adj.value == G.tosets[cur];
    todo := PushSuccessors(cur, adj.value, visited, todo);
    rank := rank0[cur := |visited0|];
    VisitKeeps(G.tosets, start, visited0, todo0, tp0, rank0, todo);
    VisitShrinks(G.tosets, visited0, cur);
  }

  /** The `for n in G.adj_to(cur)` loop: pushes, above the entries already
      on the stack, one entry `(n, (cur, n))` for each successor `n` not yet
      visited, and nothing else. */
  method PushSuccessors(cur: Vertex, adj: set<Vertex>, visited: set<Vertex>, todo0: seq<Entry>)
    returns (todo: seq<Entry>)
    ensures |todo| >= |todo0| && todo[..|todo0|] == todo0
    ensures Pushed(cur, adj, visited, todo[|todo0|..])
    ensures forall n :: n in adj && n !in visited ==> n in Pending(todo[|todo0|..])
  {
    todo := todo0;
    var rest := adj;
    assert todo[|todo0|..] == [];
    while rest != {}
      invariant rest <= adj
      invariant |todo| >= |todo0| && todo[..|todo0|] == todo0
      invariant Pushed(cur, adj, visited, todo[|todo0|..])
      invariant forall n :: n in adj - rest && n !in visited ==> n in Pending(todo[|todo0|..])
      decreases rest
    {
      var n := Choose(rest);
      if n !in visited {
        ghost var pushed := todo[|todo0|..];
        todo := todo + [(n, Some((cur, n)))];
        assert todo[|todo0|..] == pushed + [(n, Some((cur, n)))];
      }
      rest := rest - {n};
    }
  }

  /** Each entry of `pushed` is `(n, (cur, n))` for a successor `n` of
      `cur` not yet visited. */
  ghost predicate Pushed(cur: Vertex, adj: set<Vertex>, visited: set<Vertex>, pushed: seq<Entry>) {
    forall k :: 0 <= k < |pushed| ==>
      pushed[k].0 in adj && pushed[k].0 !in visited && pushed[k].1 == Some((cur, pushed[k].0))
  }

  lemma DfsStarts(E: Adjacency, start: Vertex)
    ensures DfsState(E, start, {}, [(start, None)], map[], map[])
  {
  }

  /** Popping an entry whose vertex is already visited keeps the
      invariant. */
  lemma PopVisited(E: Adjacency, start: Vertex, visited: set<Vertex>, todo: seq<Entry>,
                   tp: map<Vertex, Vertex>, rank: map<Vertex, nat>)
    requires DfsState(E, start, visited, todo, tp, rank)
    requires todo != [] && todo[|todo| - 1].0 in visited
    ensures DfsState(E, start, visited, todo[..|todo| - 1], tp, rank)
  {
    var todo' := todo[..|todo| - 1];
    assert todo == todo' + [todo[|todo| - 1]];
    forall u, w | u in visited && HasEdge(E, u, w) ensures w in visited || w in Pending(todo') {
      if w !in visited {
        var x :| x in todo && x.0 == w;
        assert x in todo';
      }
    }
  }

  /** An entry pushed along an edge names that edge. */
  lemma PushedEdge(E: Adjacency, start: Vertex, visited: set<Vertex>, todo: seq<Entry>,
                   tp: map<Vertex, Vertex>, rank: map<Vertex, nat>)
    requires DfsState(E, start, visited, todo, tp, rank)
    requires todo != [] && todo[|todo| - 1].1.Some?
    ensures var e := todo[|todo| - 1].1.value;
      e.1 == todo[|todo| - 1].0 && e.0 in visited && HasEdge(E, e.0, e.1) && e.1 != start
  {
  }

  /** Only `start` can be missing from the graph: every other entry was
      pushed along an edge. */
  lemma OnlyRootMissing(E: Adjacency, start: Vertex, visited: set<Vertex>, todo: seq<Entry>,
                        tp: map<Vertex, Vertex>, rank: map<Vertex, nat>)
    requires Closed(E) && DfsState(E, start, visited, todo, tp, rank)
    requires todo != [] && todo[|todo| - 1].0 !in E
    ensures todo[|todo| - 1].0 == start && start !in E
  {
    if todo[|todo| - 1].1.Some? {
      PushedEdge(E, start, visited, todo, tp, rank);
    }
  }

  /** Visiting the vertex on top of the stack, recording the edge it was
      pushed along and pushing its unvisited successors keeps the
      invariant. */
  lemma VisitKeeps(E: Adjacency, start: Vertex, visited: set<Vertex>, todo: seq<Entry>,
                   tp: map<Vertex, Vertex>, rank: map<Vertex, nat>, todo2: seq<Entry>)
    requires Closed(E) && DfsState(E, start, visited, todo, tp, rank)
    requires todo != [] && todo[|todo| - 1].0 !in visited && todo[|todo| - 1].0 in E
    requires var cur, n := todo[|todo| - 1].0, |todo| - 1;
      && |todo2| >= n && todo2[..n] == todo[..n]
      && Pushed(cur, E[cur], visited + {cur}, todo2[n..])
      && (forall w :: w in E[cur] && w !in visited + {cur} ==> w in Pending(todo2[n..]))
    ensures var cur, e := todo[|todo| - 1].0, todo[|todo| - 1].1;
      DfsState(E, start, visited + {cur}, todo2,
               if e.Some? then tp[cur := e.value.0] else tp, rank[cur := |visited|])
  {
    var cur, e := todo[|todo| - 1].0, todo[|todo| - 1].1;
    if e.Some? {
      PushedEdge(E, start, visited, todo, tp, rank);
    }
    VisitParents(E, start, visited, tp, rank, cur, e);
    VisitPushed(E, start, visited, todo, todo2);
    VisitExplored(E, visited, todo, todo2);
  }

  /** Visiting `cur`, reached along `e`, records `e`'s tail as its parent
      and ranks it last; the parent and rank maps keep their invariant. */
  lemma VisitParents(E: Adjacency, start: Vertex, visited: set<Vertex>, tp: map<Vertex, Vertex>,
                     rank: map<Vertex, nat>, cur: Vertex, e: Option<Edge>)
    requires tp.Keys == visited - {start} && rank.Keys == visited
    requires Ranked(tp, rank) && RankedBelow(rank, |visited|)
    requires forall v :: v in tp ==> HasEdge(E, tp[v], v)
    requires cur !in visited
    requires e.None? ==> cur == start && visited == {}
    requires e.Some? ==> e.value.1 == cur && e.value.0 in visited && HasEdge(E, e.value.0, cur) && cur != start
    ensures var tp', rank' := if e.Some? then tp[cur := e.value.0] else tp, rank[cur := |visited|];
      && tp'.Keys == (visited + {cur}) - {start} && rank'.Keys == visited + {cur}
      && Ranked(tp', rank') && RankedBelow(rank', |visited + {cur}|)
      && (forall v :: v in tp' ==> HasEdge(E, tp'[v], v))
  {
    var tp' := if e.Some? then tp[cur := e.value.0] else tp;
    var rank' := rank[cur := |visited|];
    VisitKeys(start, visited, cur, tp, rank, tp', rank');
    VisitRanks(tp, rank, visited, cur, tp', rank');
  }

  lemma VisitKeys(start: Vertex, visited: set<Vertex>, cur: Vertex, tp: map<Vertex, Vertex>,
                  rank: map<Vertex, nat>, tp': map<Vertex, Vertex>, rank': map<Vertex, nat>)
    requires tp.Keys == visited - {start} && rank.Keys == visited
    requires (cur == start && visited == {} && tp' == tp) || (cur != start && tp'.Keys == tp.Keys + {cur})
    requires rank' == rank[cur := |visited|]
    ensures tp'.Keys == (visited + {cur}) - {start} && rank'.Keys == visited + {cur}
  {
  }

  lemma VisitRanks(tp: map<Vertex, Vertex>, rank: map<Vertex, nat>, visited: set<Vertex>, cur: Vertex,
                   tp': map<Vertex, Vertex>, rank': map<Vertex, nat>)
    requires Ranked(tp, rank) && rank.Keys == visited && RankedBelow(rank, |visited|)
    requires cur !in visited && tp.Keys <= visited
    requires tp' == tp || (exists p :: p in visited && tp' == tp[cur := p])
    requires rank' == rank[cur := |visited|]
    ensures Ranked(tp', rank') && RankedBelow(rank', |visited + {cur}|)
  {
    forall v | v in rank' && v in tp' ensures tp'[v] in rank' && rank'[tp'[v]] < rank'[v] {
      if v == cur {
        assert tp'[cur] in rank && tp'[cur] != cur;
      } else {
        assert tp'[v] == tp[v] && tp[v] in rank && tp[v] != cur;
      }
    }
  }

  lemma VisitPushed(E: Adjacency, start: Vertex, visited: set<Vertex>, todo: seq<Entry>, todo2: seq<Entry>)
    requires todo != [] && todo[|todo| - 1].0 in E && todo[|todo| - 1].0 !in visited
    requires WellPushed(E, start, visited, todo) && start in visited + {todo[|todo| - 1].0}
    requires visited == {} ==> |todo| == 1
    requires var cur, n := todo[|todo| - 1].0, |todo| - 1;
      && |todo2| >= n && todo2[..n] == todo[..n]
      && Pushed(cur, E[cur], visited + {cur}, todo2[n..])
    ensures WellPushed(E, start, visited + {todo[|todo| - 1].0}, todo2)
  {
    var cur, n := todo[|todo| - 1].0, |todo| - 1;
    forall k | 0 <= k < |todo2|
      ensures match todo2[k].1
        case None => todo2[k].0 == start && visited + {cur} == {}
        case Some(e) => e.1 == todo2[k].0 && e.0 in visited + {cur} && HasEdge(E, e.0, e.1) && e.1 != start
    {
      if k < n {
        assert todo2[k] == todo[k];
      } else {
        assert todo2[k] == todo2[n..][k - n];
      }
    }
  }

  lemma VisitExplored(E: Adjacency, visited: set<Vertex>, todo: seq<Entry>, todo2: seq<Entry>)
    requires Explored(E, visited, todo)
    requires todo != [] && todo[|todo| - 1].0 in E
    requires var cur, n := todo[|todo| - 1].0, |todo| - 1;
      && |todo2| >= n && todo2[..n] == todo[..n]
      && (forall w :: w in E[cur] && w !in visited + {cur} ==> w in Pending(todo2[n..]))
    ensures Explored(E, visited + {todo[|todo| - 1].0}, todo2)
  {
    var cur, n := todo[|todo| - 1].0, |todo| - 1;
    assert todo2 == todo[..n] + todo2[n..];
    assert todo == todo[..n] + [todo[n]];
    forall u, w | u in visited + {cur} && HasEdge(E, u, w) ensures w in visited + {cur} || w in Pending(todo2) {
      if w !in visited + {cur} {
        if u == cur {
          var x :| x in todo2[n..] && x.0 == w;
          assert x in todo2;
        } else {
          var x :| x in todo && x.0 == w;
          assert x in todo[..n];
          assert x in todo2;
        }
      }
    }
  }

  lemma TreeEdgesAdd(tp: map<Vertex, Vertex>, p: Vertex, v: Vertex)
    requires v !in tp
    ensures TreeEdges(tp[v := p]) == TreeEdges(tp) + {(p, v)}
  {
    var tp' := tp[v := p];
    forall x | x in TreeEdges(tp') ensures x in TreeEdges(tp) + {(p, v)} {
      var u :| u in tp' && x == (tp'[u], u);
      if u != v {
        assert x == (tp[u], u);
      }
    }
    forall x | x in TreeEdges(tp) ensures x in TreeEdges(tp') {
      var u :| u in tp && x == (tp[u], u);
      assert x == (tp'[u], u);
    }
    assert (p, v) == (tp'[v], v);
  }

  /** When the stack runs empty, the visited set is closed under edges and
      holds `start`, so it holds every vertex reachable from `start`; the
      parent edges are edges of the graph, one into each vertex other than
      `start`. */
  lemma DfsDone(E: Adjacency, start: Vertex, visited: set<Vertex>, tp: map<Vertex, Vertex>,
                rank: map<Vertex, nat>)
    requires DfsState(E, start, visited, [], tp, rank)
    ensures start in visited && start in E
    ensures forall v :: Reachable(E, start, v) ==> v in visited
    ensures TreeEdges(tp) <= EdgeSet(E)
    ensures forall p, q, c :: (p, c) in TreeEdges(tp) && (q, c) in TreeEdges(tp) ==> p == q
    ensures forall p :: (p, start) !in TreeEdges(tp)
  {
    assert ClosedSet(E, visited);
    forall v | Reachable(E, start, v) ensures v in visited {
      if v !in visited {
        ClosedSetBoundsReach(E, visited, start, v);
      }
    }
  }

  /** The graph built when the stack runs empty spans what is reachable
      from `start`. */
  lemma TreeSpans(E: Adjacency, T: Digraph, start: Vertex, visited: set<Vertex>, tp: map<Vertex, Vertex>,
                  rank: map<Vertex, nat>)
    requires DfsState(E, start, visited, [], tp, rank)
    requires T.Valid() && T.Edges() == TreeEdges(tp) && T.Vertices() == Endpoints(T.Edges())
    ensures SpansFrom(E, T.tosets, start)
  {
    DfsDone(E, start, visited, tp, rank);
    TreeReach(T, start, visited, tp, rank);
    forall p, c | HasEdge(T.tosets, p, c) ensures HasEdge(E, p, c) {
      assert (p, c) in T.Edges();
    }
    forall p, q, c | HasEdge(T.tosets, p, c) && HasEdge(T.tosets, q, c) ensures p == q {
      assert (p, c) in T.Edges() && (q, c) in T.Edges();
    }
    var treeEdges := T.Edges();
    forall p ensures !HasEdge(T.tosets, p, start) {
      assert HasEdge(T.tosets, p, start) ==> (p, start) in treeEdges;
    }
    forall v | Reachable(E, start, v) && v != start ensures v in T.tosets {
      assert v in tp;
      assert (tp[v], v) in TreeEdges(tp);
      assert v in Endpoints(T.Edges());
    }
  }

  /** Every vertex of the tree is reachable from `start` along tree
      edges. */
  lemma TreeReach(T: Digraph, start: Vertex, visited: set<Vertex>, tp: map<Vertex, Vertex>,
                  rank: map<Vertex, nat>)
    requires T.Valid() && T.Edges() == TreeEdges(tp) && T.Vertices() == Endpoints(T.Edges())
    requires start in visited && tp.Keys == visited - {start} && rank.Keys == visited && Ranked(tp, rank)
    requires forall v :: v in tp ==> tp[v] in visited
    ensures forall v :: v in T.Vertices() ==> Reachable(T.tosets, start, v)
  {
    ConsistentIsClosed(T.tosets, T.fromsets);
    forall v | v in T.Vertices() ensures Reachable(T.tosets, start, v) {
      assert v in visited;
      forall u | u in rank && u in tp ensures HasEdge(T.tosets, tp[u], u) {
        assert (tp[u], u) in TreeEdges(tp);
      }
      TraceWalk(T.tosets, tp, rank, start, v);
    }
  }
}
