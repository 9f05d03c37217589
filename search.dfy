/** `least_cost_path` of digraph.py: a Dijkstra search from `start` to
    `dest` with a caller-supplied edge cost, a linear-scan minimum over the
    tentative costs, and reconstruction of the path from parent links. */
module LeastCost {
  import opened Outcomes
  import opened Walks
  import opened Digraphs

  lemma {:induction false} MinimumExists<K>(todo: map<K, real>) returns (v: K)
    requires todo != map[]
    ensures v in todo && forall w :: w in todo ==> todo[v] <= todo[w]
    decreases |todo|
  {
    var k :| k in todo;
    var rest := todo - {k};
    if rest == map[] {
      assert rest.Keys == {};
      assert todo.Keys == rest.Keys + {k};
      v := k;
    } else {
      var m := MinimumExists(rest);
      v := if todo[k] <= rest[m] then k else m;
      forall w | w in todo ensures todo[v] <= todo[w] {
        if w != k { assert w in rest; }
      }
    }
  }

  /** The shape of the search state.  Visited vertices never re-enter
      `todo`; before the first step `todo` holds only `start`; every
      discovered vertex other than `start` has a visited parent, and the
      parent link is an edge of the graph. */
  ghost predicate Frontier(E: Adjacency, start: Vertex, todo: map<Vertex, real>,
                           visited: set<Vertex>, parent: map<Vertex, Vertex>)
  {
    && todo.Keys !! visited
    && visited <= E.Keys
    && (visited == {} ==> todo == map[start := 0.0] && parent == map[])
    && (visited != {} ==> start in visited && todo.Keys <= E.Keys)
    && parent.Keys == (visited + todo.Keys) - {start}
    && (forall v :: v in parent ==> parent[v] in visited && HasEdge(E, parent[v], v))
  }

  /** Settled (`dist`) and tentative (`todo`) costs are the costs of the
      parent chains. */
  ghost predicate Costed(cost: Edge -> real, start: Vertex, todo: map<Vertex, real>,
                         parent: map<Vertex, Vertex>, dist: map<Vertex, real>)
  {
    && (start in dist ==> dist[start] == 0.0)
    && (start in todo ==> todo[start] == 0.0)
    && (forall v :: v in dist && v != start ==>
          v in parent && parent[v] in dist && dist[v] == dist[parent[v]] + cost((parent[v], v)))
    && (forall v :: v in todo && v != start ==>
          v in parent && parent[v] in dist && todo[v] == dist[parent[v]] + cost((parent[v], v)))
  }

  /** Every successor of a visited vertex is visited or in `todo`. */
  ghost predicate Discovered(E: Adjacency, todo: map<Vertex, real>, dist: map<Vertex, real>) {
    forall u, w :: u in dist && HasEdge(E, u, w) ==> w in dist || w in todo
  }

  /** With non-negative costs: tentative costs are relaxed over every visited
      predecessor, no settled cost exceeds a tentative one, and settled
      costs are least. */
  ghost predicate Settled(E: Adjacency, cost: Edge -> real, start: Vertex,
                          todo: map<Vertex, real>, dist: map<Vertex, real>)
  {
    && Relaxed(E, cost, todo, dist)
    && AllLeast(E, cost, start, dist)
  }

  /** Every settled cost is least. */
  ghost predicate AllLeast(E: Adjacency, cost: Edge -> real, start: Vertex, dist: map<Vertex, real>) {
    forall v :: v in dist ==> NoCheaperWalk(E, cost, start, v, dist[v])
  }

  /** Tentative costs are relaxed over every visited predecessor, and no
      settled cost exceeds a tentative one. */
  ghost predicate Relaxed(E: Adjacency, cost: Edge -> real, todo: map<Vertex, real>, dist: map<Vertex, real>) {
    && (forall u, w :: u in dist && HasEdge(E, u, w) && w in todo ==> todo[w] <= dist[u] + cost((u, w)))
    && (forall u, w :: u in dist && w in todo ==> dist[u] <= todo[w])
  }

  /** The vertex of least tentative cost has no cheaper walk from `start`:
      any walk leaves the visited set through an edge whose head is in
      `todo`, and that edge alone already costs at least the minimum. */
  lemma SettleIsOptimal(E: Adjacency, cost: Edge -> real, start: Vertex,
                        todo: map<Vertex, real>, dist: map<Vertex, real>, cur: Vertex)
    requires NonNegative(cost)
    requires cur in todo && forall w :: w in todo ==> todo[cur] <= todo[w]
    requires todo.Keys !! dist.Keys
    requires dist == map[] ==> todo == map[start := 0.0]
    requires dist != map[] ==> start in dist
    requires Discovered(E, todo, dist)
    requires Settled(E, cost, start, todo, dist)
    ensures NoCheaperWalk(E, cost, start, cur, todo[cur])
  {
    forall q | PathFromTo(E, q, start, cur) ensures todo[cur] <= WalkCost(q, cost) {
      WalkCostNonNegative(q, cost);
      if dist != map[] {
        var k := ExitPoint(q, dist.Keys);
        var u, w := q[k - 1], q[k];
        assert HasEdge(E, u, w);
        PathPrefix(E, q, start, cur, k);
        WalkCostSplit(q, k, cost);
        WalkCostNonNegative(q[k..], cost);
        assert q[..k + 1] == q[..k] + [w];
        WalkCostAppend(q[..k], w, cost);
        assert dist[u] <= WalkCost(q[..k], cost);
      }
    }
  }

  /** Following parent links from a visited vertex gives a path from
      `start` whose cost is the vertex's settled cost. */
  lemma {:induction false} TraceIsPath(E: Adjacency, cost: Edge -> real, start: Vertex,
                                       todo: map<Vertex, real>, visited: set<Vertex>,
                                       parent: map<Vertex, Vertex>, dist: map<Vertex, real>,
                                       rank: map<Vertex, nat>, v: Vertex)
    requires Frontier(E, start, todo, visited, parent)
    requires dist.Keys == visited && rank.Keys == visited && Ranked(parent, rank)
    requires Costed(cost, start, todo, parent, dist)
    requires v in visited
    ensures PathFromTo(E, Trace(parent, rank, v), start, v)
    ensures WalkCost(Trace(parent, rank, v), cost) == dist[v]
    decreases rank[v]
  {
    if v in parent {
      var p := parent[v];
      TraceIsPath(E, cost, start, todo, visited, parent, dist, rank, p);
      PathExtend(E, Trace(parent, rank, p), start, p, v);
      WalkCostAppend(Trace(parent, rank, p), v, cost);
    }
  }

  /** `least_cost_path(G, start, dest, cost)`.  A KeyError exactly when
      `start` is not a vertex; otherwise `None` exactly when `dest` is not
      reachable from `start`, and a path from `start` to `dest` otherwise,
      `[start]` when the two are equal.  With non-negative costs no walk
      from `start` to `dest` is cheaper than the returned path.  The
      reconstruction loop as written is `FollowParentsAsWritten`, which
      `TruncatedTraceAgrees` shows agrees with this one when 0 is absent. */
  method LeastCostPath(G: Digraph, start: Vertex, dest: Vertex, cost: Edge -> real)
    returns (r: Outcome<Option<seq<Vertex>>>)
    requires G.Valid()
    ensures r.KeyError? <==> start !in G.Vertices()
    ensures r.KeyError? ==> r.key == start
    ensures r.Value? && dest == start ==> r.value == Some([start])
    ensures r.Value? ==> (r.value.Some? <==> Reachable(G.tosets, start, dest))
    ensures r.Value? && r.value.Some? ==> PathFromTo(G.tosets, r.value.value, start, dest)
    ensures r.Value? && r.value.Some? && NonNegative(cost) ==>
              NoCheaperWalk(G.tosets, cost, start, dest, WalkCost(r.value.value, cost))
  {
    ConsistentIsClosed(G.tosets, G.fromsets);
    assert G.Vertices() == G.tosets.Keys;
    var todo: map<Vertex, real> := map[start := 0.0];
    var visited: set<Vertex> := {};
    var parent: map<Vertex, Vertex> := map[];
    ghost var dist: map<Vertex, real> := map[];
    ghost var rank: map<Vertex, nat> := map[];
    SearchStarts(G.tosets, cost, start);

    while todo != map[] && dest !in visited
      invariant Searching(G.tosets, cost, start, todo, visited, parent, dist, rank)
      decreases |G.tosets.Keys - visited|
    {
      var missing;
      missing, todo, visited, parent, dist, rank := Visit(G, cost, start, todo, visited, parent, dist, rank);
      if missing {
        return KeyError(start);
      }
    }

    if dest in visited {
      SearchFound(G.tosets, cost, start, todo, visited, parent, dist, rank, dest);
      var path := FollowParents(parent, dest, rank);
      r := Value(Some(path));
    } else {
      SearchExhausted(G.tosets, cost, start, todo, visited, parent, dist, rank, dest);
      r := Value(None);
    }
  }

  /** One pass of the search loop: takes a vertex of least tentative cost
      out of `todo`, marks it visited and relaxes its successors.  Looking
      up the successors fails only for `start`, when it is not a vertex. */
  method Visit(G: Digraph, cost: Edge -> real, start: Vertex,
               todo0: map<Vertex, real>, visited0: set<Vertex>, parent0: map<Vertex, Vertex>,
               ghost dist0: map<Vertex, real>, ghost rank0: map<Vertex, nat>)
    returns (missing: bool, todo: map<Vertex, real>, visited: set<Vertex>, parent: map<Vertex, Vertex>,
             ghost dist: map<Vertex, real>, ghost rank: map<Vertex, nat>)
    requires G.Valid() && Closed(G.tosets)
    requires Searching(G.tosets, cost, start, todo0, visited0, parent0, dist0, rank0) && todo0 != map[]
    ensures missing ==> start !in G.tosets
    ensures !missing ==> Searching(G.tosets, cost, start, todo, visited, parent, dist, rank)
    ensures !missing ==> |G.tosets.Keys - visited| < |G.tosets.Keys - visited0|
  {
    ghost var E := G.tosets;
    ghost var least := MinimumExists(todo0);
    var cur :| cur in todo0 && forall w :: w in todo0 ==> todo0[cur] <= todo0[w];
    var c := todo0[cur];
    todo := todo0 - {cur};
    visited := visited0 + {cur};
    parent := parent0;
    var adj := G.AdjTo(cur);
    if adj.KeyError? {
      OnlyStartMissing(E, start, todo0, visited0, parent0, cur);
      missing := true;
      dist, rank := dist0, rank0;
      return;
    }
    missing := false;
    dist := dist0[cur := c];
    rank := rank0[cur := |visited0|];
    Settle(E, cost, start, todo0, visited0, parent0, dist0, rank0, cur);
    if NonNegative(cost) {
      SettleOptimal(E, cost, start, todo0, visited0, parent0, dist0, rank0, cur);
    }
    VisitShrinks(E, visited0, cur);
    AdjToSuccessors(G, cur);
    assert adj.value == E[cur];
    todo, parent := RelaxSuccessors(E, cost, start, cur, c, adj.value, todo, visited, parent, dist, rank);
  }

  lemma SearchStarts(E: Adjacency, cost: Edge -> real, start: Vertex)
    ensures Searching(E, cost, start, map[start := 0.0], {}, map[], map[], map[])
  {
    assert ({} + map[start := 0.0].Keys) - {start} == {};
  }

  /** Only `start` can be missing from the graph: every later vertex taken
      from `todo` was reached along an edge. */
  lemma OnlyStartMissing(E: Adjacency, start: Vertex, todo: map<Vertex, real>,
                         visited: set<Vertex>, parent: map<Vertex, Vertex>, cur: Vertex)
    requires Frontier(E, start, todo, visited, parent)
    requires cur in todo && cur !in E
    ensures cur == start && start !in E
  {
  }

  /** When `dest` is visited, its parent chain is a path from `start` whose
      cost is least if costs are non-negative. */
  lemma SearchFound(E: Adjacency, cost: Edge -> real, start: Vertex, todo: map<Vertex, real>,
                    visited: set<Vertex>, parent: map<Vertex, Vertex>, dist: map<Vertex, real>,
                    rank: map<Vertex, nat>, dest: Vertex)
    requires Searching(E, cost, start, todo, visited, parent, dist, rank)
    requires dest in visited
    ensures start in E && dest in rank && Ranked(parent, rank)
    ensures PathFromTo(E, Trace(parent, rank, dest), start, dest)
    ensures Reachable(E, start, dest)
    ensures dest == start ==> Trace(parent, rank, dest) == [start]
    ensures NonNegative(cost) ==> NoCheaperWalk(E, cost, start, dest, WalkCost(Trace(parent, rank, dest), cost))
  {
    TraceIsPath(E, cost, start, todo, visited, parent, dist, rank, dest);
  }

  /** When `todo` runs empty before `dest` is visited, the visited set is
      closed under edges, so `dest` is unreachable. */
  lemma SearchExhausted(E: Adjacency, cost: Edge -> real, start: Vertex, todo: map<Vertex, real>,
                        visited: set<Vertex>, parent: map<Vertex, Vertex>, dist: map<Vertex, real>,
                        rank: map<Vertex, nat>, dest: Vertex)
    requires Searching(E, cost, start, todo, visited, parent, dist, rank)
    requires todo == map[] && dest !in visited
    ensures start in E
    ensures !Reachable(E, start, dest)
  {
    assert ClosedSet(E, visited);
    ClosedSetBoundsReach(E, visited, start, dest);
  }

  /** The invariant of the search loop. */
  ghost predicate Searching(E: Adjacency, cost: Edge -> real, start: Vertex, todo: map<Vertex, real>,
                            visited: set<Vertex>, parent: map<Vertex, Vertex>, dist: map<Vertex, real>,
                            rank: map<Vertex, nat>)
  {
    && Shaped(E, cost, start, todo, visited, parent, dist, rank)
    && RankedBelow(rank, |visited|)
    && Discovered(E, todo, dist)
    && (NonNegative(cost) ==> Settled(E, cost, start, todo, dist))
  }

  /** The parts of the search invariant that hold between any two steps,
      including inside the relaxation loop. */
  ghost predicate Shaped(E: Adjacency, cost: Edge -> real, start: Vertex, todo: map<Vertex, real>,
                         visited: set<Vertex>, parent: map<Vertex, Vertex>, dist: map<Vertex, real>,
                         rank: map<Vertex, nat>)
  {
    && dist.Keys == visited && rank.Keys == visited
    && Frontier(E, start, todo, visited, parent)
    && Ranked(parent, rank)
    && Costed(cost, start, todo, parent, dist)
  }

  /** Moving the vertex of least tentative cost from `todo` to the visited
      set establishes the invariant of the relaxation loop. */
  lemma Settle(E: Adjacency, cost: Edge -> real, start: Vertex, todo: map<Vertex, real>,
               visited: set<Vertex>, parent: map<Vertex, Vertex>, dist: map<Vertex, real>,
               rank: map<Vertex, nat>, cur: Vertex)
    requires Closed(E)
    requires Searching(E, cost, start, todo, visited, parent, dist, rank)
    requires cur in todo && cur in E && forall w :: w in todo ==> todo[cur] <= todo[w]
    ensures Relaxing(E, cost, start, cur, todo[cur], E[cur], todo - {cur}, visited + {cur}, parent,
                     dist[cur := todo[cur]], rank[cur := |visited|])
    ensures RankedBelow(rank[cur := |visited|], |visited + {cur}|)
  {
    var todo', visited', dist', rank' := todo - {cur}, visited + {cur}, dist[cur := todo[cur]], rank[cur := |visited|];
    SettleShape(E, cost, start, todo, visited, parent, dist, rank, cur, todo', visited', dist', rank');
    SettlePending(E, todo, dist, cur, todo', dist');
    if NonNegative(cost) {
      SettleCosts(E, cost, todo, dist, cur, todo', dist');
    }
  }

  lemma SettleShape(E: Adjacency, cost: Edge -> real, start: Vertex, todo: map<Vertex, real>,
                    visited: set<Vertex>, parent: map<Vertex, Vertex>, dist: map<Vertex, real>,
                    rank: map<Vertex, nat>, cur: Vertex,
                    todo': map<Vertex, real>, visited': set<Vertex>, dist': map<Vertex, real>, rank': map<Vertex, nat>)
    requires Shaped(E, cost, start, todo, visited, parent, dist, rank)
    requires RankedBelow(rank, |visited|)
    requires cur in todo && cur in E
    requires todo' == todo - {cur} && visited' == visited + {cur}
    requires dist' == dist[cur := todo[cur]] && rank' == rank[cur := |visited|]
    ensures Shaped(E, cost, start, todo', visited', parent, dist', rank')
    ensures RankedBelow(rank', |visited'|)
  {
    SettleFrontier(E, start, todo, visited, parent, cur, todo', visited');
    SettleRanked(parent, rank, visited, cur, rank');
    SettleCosted(cost, start, todo, parent, dist, cur, todo', dist');
    UpdateKeys(dist, visited, cur, todo[cur]);
    UpdateKeys(rank, visited, cur, |visited|);
  }

  /** The key set after one update, stated on its own to keep the loop
      proofs small; it models nothing of the search. */
  lemma UpdateKeys<K, V>(m: map<K, V>, S: set<K>, k: K, x: V)
    requires m.Keys == S
    ensures m[k := x].Keys == S + {k}
  {
  }

  lemma SettleFrontier(E: Adjacency, start: Vertex, todo: map<Vertex, real>,
                       visited: set<Vertex>, parent: map<Vertex, Vertex>, cur: Vertex,
                       todo': map<Vertex, real>, visited': set<Vertex>)
    requires Frontier(E, start, todo, visited, parent)
    requires cur in todo && cur in E
    requires todo' == todo - {cur} && visited' == visited + {cur}
    ensures Frontier(E, start, todo', visited', parent)
  {
    assert visited == {} ==> cur == start;
  }

  lemma SettleRanked(parent: map<Vertex, Vertex>, rank: map<Vertex, nat>, visited: set<Vertex>, cur: Vertex,
                     rank': map<Vertex, nat>)
    requires Ranked(parent, rank) && rank.Keys == visited && RankedBelow(rank, |visited|)
    requires cur !in visited && (cur in parent ==> parent[cur] in visited)
    requires rank' == rank[cur := |visited|]
    ensures Ranked(parent, rank')
    ensures RankedBelow(rank', |visited + {cur}|)
  {
    forall v | v in rank' && v in parent ensures parent[v] in rank' && rank'[parent[v]] < rank'[v] {
      if v != cur {
        assert parent[v] in rank && parent[v] != cur;
      } else {
        assert parent[cur] in rank && parent[cur] != cur;
      }
    }
  }

  lemma SettleCosted(cost: Edge -> real, start: Vertex, todo: map<Vertex, real>,
                     parent: map<Vertex, Vertex>, dist: map<Vertex, real>, cur: Vertex,
                     todo': map<Vertex, real>, dist': map<Vertex, real>)
    requires Costed(cost, start, todo, parent, dist)
    requires cur in todo && cur !in dist
    requires todo' == todo - {cur} && dist' == dist[cur := todo[cur]]
    ensures Costed(cost, start, todo', parent, dist')
  {
  }

  lemma SettlePending(E: Adjacency, todo: map<Vertex, real>, dist: map<Vertex, real>, cur: Vertex,
                      todo': map<Vertex, real>, dist': map<Vertex, real>)
    requires Discovered(E, todo, dist) && cur in todo && cur in E
    requires todo' == todo - {cur} && dist' == dist[cur := todo[cur]]
    ensures Pending(E, cur, E[cur], todo', dist')
  {
  }

  lemma SettleCosts(E: Adjacency, cost: Edge -> real, todo: map<Vertex, real>,
                    dist: map<Vertex, real>, cur: Vertex, todo': map<Vertex, real>, dist': map<Vertex, real>)
    requires Relaxed(E, cost, todo, dist) && todo.Keys !! dist.Keys
    requires cur in todo && cur in E && forall w :: w in todo ==> todo[cur] <= todo[w]
    requires todo' == todo - {cur} && dist' == dist[cur := todo[cur]]
    ensures RelaxingCosts(E, cost, cur, todo[cur], E[cur], todo', dist')
  {
  }

  /** With non-negative costs, the settled costs stay least once the vertex
      of least tentative cost is settled at that cost. */
  lemma SettleOptimal(E: Adjacency, cost: Edge -> real, start: Vertex, todo: map<Vertex, real>,
                      visited: set<Vertex>, parent: map<Vertex, Vertex>, dist: map<Vertex, real>,
                      rank: map<Vertex, nat>, cur: Vertex)
    requires NonNegative(cost)
    requires Searching(E, cost, start, todo, visited, parent, dist, rank)
    requires cur in todo && forall w :: w in todo ==> todo[cur] <= todo[w]
    ensures AllLeast(E, cost, start, dist[cur := todo[cur]])
  {
    SettleIsOptimal(E, cost, start, todo, dist, cur);
  }

  /** The invariant of the relaxation loop over the successors of `cur`:
      the successors still in `succ` are the only ones not yet accounted
      for. */
  ghost predicate Relaxing(E: Adjacency, cost: Edge -> real, start: Vertex, cur: Vertex, c: real,
                           succ: set<Vertex>, todo: map<Vertex, real>, visited: set<Vertex>,
                           parent: map<Vertex, Vertex>, dist: map<Vertex, real>, rank: map<Vertex, nat>)
  {
    && Closed(E) && cur in E && succ <= E[cur]
    && cur in visited && cur in dist && dist[cur] == c
    && Shaped(E, cost, start, todo, visited, parent, dist, rank)
    && Pending(E, cur, succ, todo, dist)
    && (NonNegative(cost) ==> RelaxingCosts(E, cost, cur, c, succ, todo, dist))
  }

  /** Every successor of a visited vertex is visited or in `todo`, except
      the successors of `cur` still in `succ`. */
  ghost predicate Pending(E: Adjacency, cur: Vertex, succ: set<Vertex>, todo: map<Vertex, real>,
                          dist: map<Vertex, real>)
  {
    forall u, w :: u in dist && HasEdge(E, u, w) ==> w in dist || w in todo || (u == cur && w in succ)
  }

  ghost predicate RelaxingCosts(E: Adjacency, cost: Edge -> real, cur: Vertex, c: real,
                                succ: set<Vertex>, todo: map<Vertex, real>, dist: map<Vertex, real>)
  {
    && (forall u, w :: u in dist && HasEdge(E, u, w) && w in todo && !(u == cur && w in succ) ==>
          todo[w] <= dist[u] + cost((u, w)))
    && (forall u :: u in dist ==> dist[u] <= c)
    && (forall w :: w in todo ==> c <= todo[w])
  }

  /** Relaxing successor n with a cheaper tentative cost keeps the
      invariant. */
  lemma RelaxImproves(E: Adjacency, cost: Edge -> real, start: Vertex, cur: Vertex, c: real,
                      succ: set<Vertex>, todo: map<Vertex, real>, visited: set<Vertex>,
                      parent: map<Vertex, Vertex>, dist: map<Vertex, real>, rank: map<Vertex, nat>, n: Vertex)
    requires Relaxing(E, cost, start, cur, c, succ, todo, visited, parent, dist, rank)
    requires n in succ && n !in visited && (n !in todo || c + cost((cur, n)) < todo[n])
    ensures Relaxing(E, cost, start, cur, c, succ - {n}, todo[n := c + cost((cur, n))], visited,
                     parent[n := cur], dist, rank)
  {
    var todo', parent' := todo[n := c + cost((cur, n))], parent[n := cur];
    assert HasEdge(E, cur, n) && n in E;
    assert Frontier(E, start, todo', visited, parent') by {
      assert parent'.Keys == (visited + todo'.Keys) - {start};
    }
    assert Costed(cost, start, todo', parent', dist);
    if NonNegative(cost) {
      assert cost((cur, n)) >= 0.0;
      assert RelaxingCosts(E, cost, cur, c, succ - {n}, todo', dist);
    }
  }

  /** Passing over a visited successor, or one whose tentative cost is
      already no larger, keeps the invariant. */
  lemma RelaxSkips(E: Adjacency, cost: Edge -> real, start: Vertex, cur: Vertex, c: real,
                   succ: set<Vertex>, todo: map<Vertex, real>, visited: set<Vertex>,
                   parent: map<Vertex, Vertex>, dist: map<Vertex, real>, rank: map<Vertex, nat>, n: Vertex)
    requires Relaxing(E, cost, start, cur, c, succ, todo, visited, parent, dist, rank)
    requires n in succ && !(n !in visited && (n !in todo || c + cost((cur, n)) < todo[n]))
    ensures Relaxing(E, cost, start, cur, c, succ - {n}, todo, visited, parent, dist, rank)
  {
  }

  /** The `for n in G.adj_to(cur)` loop: relaxes every successor of the
      newly visited vertex `cur` that is not yet visited.  It restores the
      search invariants that removing `cur` from `todo` broke. */
  method RelaxSuccessors(ghost E: Adjacency, cost: Edge -> real, ghost start: Vertex,
                         cur: Vertex, c: real, adj: set<Vertex>,
                         todo0: map<Vertex, real>, visited: set<Vertex>, parent0: map<Vertex, Vertex>,
                         ghost dist: map<Vertex, real>, ghost rank: map<Vertex, nat>)
    returns (todo: map<Vertex, real>, parent: map<Vertex, Vertex>)
    requires cur in E
    requires Relaxing(E, cost, start, cur, c, E[cur], todo0, visited, parent0, dist, rank)
    requires adj == E[cur]
    ensures Shaped(E, cost, start, todo, visited, parent, dist, rank)
    ensures Discovered(E, todo, dist)
    ensures NonNegative(cost) ==> Relaxed(E, cost, todo, dist)
  {
    todo, parent := todo0, parent0;
    var succ := adj;
    while succ != {}
      invariant Relaxing(E, cost, start, cur, c, succ, todo, visited, parent, dist, rank)
      decreases succ
    {
      var n := Choose(succ);
      if n !in visited && (n !in todo || c + cost((cur, n)) < todo[n]) {
        RelaxImproves(E, cost, start, cur, c, succ, todo, visited, parent, dist, rank, n);
        todo := todo[n := c + cost((cur, n))];
        parent := parent[n := cur];
      } else {
        RelaxSkips(E, cost, start, cur, c, succ, todo, visited, parent, dist, rank, n);
      }
      succ := succ - {n};
    }
  }

  /** The reconstruction loop as the source writes it, `while curnode:`:
      the truthiness test stops at vertex 0 as well as at the root, so a
      0 on the parent chain and everything before it are lost. */
  method FollowParentsAsWritten(parent: map<Vertex, Vertex>, dest: Vertex, ghost rank: map<Vertex, nat>)
    returns (path: seq<Vertex>)
    requires dest in rank && Ranked(parent, rank)
    ensures path == TruncatedTrace(parent, rank, dest)
  {
    var rev: seq<Vertex> := [];
    var curnode: Option<Vertex> := Some(dest);
    while curnode.Some? && curnode.value != 0
      invariant curnode.Some? ==>
                  && curnode.value in rank
                  && TruncatedTrace(parent, rank, curnode.value) + Reverse(rev) == TruncatedTrace(parent, rank, dest)
      invariant curnode.None? ==> Reverse(rev) == TruncatedTrace(parent, rank, dest)
      decreases if curnode.Some? then rank[curnode.value] + 1 else 0
    {
      var x := curnode.value;
      ReverseAppend(rev, x);
      rev := rev + [x];
      if x in parent {
        curnode := Some(parent[x]);
      } else {
        curnode := None;
      }
    }
    path := Reverse(rev);
  }

  /** What the source's loop collects: the parent chain from `v`, cut
      where it reaches vertex 0. */
  ghost function TruncatedTrace(parent: map<Vertex, Vertex>, rank: map<Vertex, nat>, v: Vertex): seq<Vertex>
    requires v in rank && Ranked(parent, rank)
    decreases rank[v]
  {
    if v == 0 then []
    else if v in parent then TruncatedTrace(parent, rank, parent[v]) + [v]
    else [v]
  }

  /** Away from vertex 0 the truncated chain is the whole chain. */
  lemma {:induction false} TruncatedTraceAgrees(parent: map<Vertex, Vertex>, rank: map<Vertex, nat>, v: Vertex)
    requires v in rank && Ranked(parent, rank) && 0 !in rank
    ensures TruncatedTrace(parent, rank, v) == Trace(parent, rank, v)
    decreases rank[v]
  {
    if v in parent {
      TruncatedTraceAgrees(parent, rank, parent[v]);
    }
  }

  /** In the graph with the single edge (0, 5), searching from 0 settles 5
      with parent 0, and the source's loop returns [5], which does not
      start at 0; the full chain [0, 5] is the path. */
  lemma ZeroVertexDropped()
    ensures var parent, rank := map[5 := 0], map[0 := 0, 5 := 1];
      && Ranked(parent, rank)
      && TruncatedTrace(parent, rank, 5) == [5]
      && !PathFromTo(map[0 := {5}, 5 := {}], TruncatedTrace(parent, rank, 5), 0, 5)
      && Trace(parent, rank, 5) == [0, 5]
      && PathFromTo(map[0 := {5}, 5 := {}], Trace(parent, rank, 5), 0, 5)
  {
    var parent, rank := map[5 := 0], map[0 := 0, 5 := 1];
    assert TruncatedTrace(parent, rank, 0) == [];
    assert Trace(parent, rank, 0) == [0];
  }

  /** The reconstruction loop, stopping only when a vertex has no parent:
      follows parent links back from `dest`, collecting the vertices, and
      reverses the list. */
  method FollowParents(parent: map<Vertex, Vertex>, dest: Vertex, ghost rank: map<Vertex, nat>)
    returns (path: seq<Vertex>)
    requires dest in rank && Ranked(parent, rank)
    ensures path == Trace(parent, rank, dest)
  {
    var rev: seq<Vertex> := [];
    var curnode: Option<Vertex> := Some(dest);
    while curnode.Some?
      invariant curnode.Some? ==>
                  && curnode.value in rank
                  && Trace(parent, rank, curnode.value) + Reverse(rev) == Trace(parent, rank, dest)
      invariant curnode.None? ==> Reverse(rev) == Trace(parent, rank, dest)
      decreases if curnode.Some? then rank[curnode.value] + 1 else 0
    {
      var x := curnode.value;
      ReverseAppend(rev, x);
      rev := rev + [x];
      if x in parent {
        assert Trace(parent, rank, x) == Trace(parent, rank, parent[x]) + [x];
        curnode := Some(parent[x]);
      } else {
        curnode := None;
      }
    }
    path := Reverse(rev);
  }

  /** `pot` never drops along an edge by more than the edge's cost. */
  ghost predicate Potential(E: Adjacency, cost: Edge -> real, pot: map<Vertex, real>) {
    forall u, w :: HasEdge(E, u, w) ==> u in pot && w in pot && pot[w] <= pot[u] + cost((u, w))
  }

  /** Such a potential bounds the cost of every walk from below by the
      difference between its ends. */
  lemma {:induction false} PotentialBound(E: Adjacency, cost: Edge -> real, pot: map<Vertex, real>, q: seq<Vertex>)
    requires Potential(E, cost, pot) && IsWalk(E, q) && |q| > 0 && q[0] in pot && q[|q| - 1] in pot
    ensures pot[q[|q| - 1]] - pot[q[0]] <= WalkCost(q, cost)
    decreases |q|
  {
    if |q| >= 2 {
      assert HasEdge(E, q[0], q[1]);
      var r := q[1..];
      forall i | 0 < i < |r| ensures HasEdge(E, r[i - 1], r[i]) {
        assert r[i - 1] == q[i] && r[i] == q[i + 1];
      }
      assert r[|r| - 1] == q[|q| - 1];
      PotentialBound(E, cost, pot, r);
    }
  }

  /** The graph and costs of the first documented example. */
  function DocGraph(): Adjacency {
    map[1 := {2, 6}, 2 := {3}, 3 := {4}, 4 := {3, 5}, 5 := {}, 6 := {7}, 7 := {5}]
  }

  function DocCost(e: Edge): real {
    match e
    case (1, 2) => 0.0
    case (2, 3) => 2.0
    case (3, 4) => 0.0
    case (4, 3) => 1.0
    case (4, 5) => 10.0
    case (1, 6) => 1.0
    case (6, 7) => 6.0
    case (7, 5) => 0.0
    case _ => 0.0
  }

  /** The first documented example: the expected answer `[1, 6, 7, 5]` is a
      path from 1 to 5 of cost 7 and no walk from 1 to 5 is cheaper, so the
      path `LeastCostPath` returns there costs 7 as well. */
  lemma LeastCostPathExample()
    ensures PathFromTo(DocGraph(), [1, 6, 7, 5], 1, 5)
    ensures WalkCost([1, 6, 7, 5], DocCost) == 7.0
    ensures NoCheaperWalk(DocGraph(), DocCost, 1, 5, 7.0)
  {
    var E := DocGraph();
    var pot := map[1 := 0.0, 2 := 0.0, 3 := 2.0, 4 := 2.0, 5 := 7.0, 6 := 1.0, 7 := 7.0];
    forall u, w | HasEdge(E, u, w) ensures u in pot && w in pot && pot[w] <= pot[u] + DocCost((u, w)) {
      assert u in E.Keys;
    }
    forall q | PathFromTo(E, q, 1, 5) ensures 7.0 <= WalkCost(q, DocCost) {
      PotentialBound(E, DocCost, pot, q);
    }
  }

  /** The second documented example: in the graph with the edge (1, 2) and
      the isolated vertex 3, vertex 3 is not reachable from 1, so
      `LeastCostPath` returns `None`. */
  lemma NoPathExample()
    ensures !Reachable(map[1 := {2}, 2 := {}, 3 := {}], 1, 3)
  {
    ClosedSetBoundsReach(map[1 := {2}, 2 := {}, 3 := {}], {1, 2}, 1, 3);
  }
}
