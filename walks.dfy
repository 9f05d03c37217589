/** Walks, paths, reachability and walk costs over an adjacency map
    (vertex -> set of successors).  These are the specifications that the
    graph operations and search algorithms are proved against. */
module Walks {

  type Vertex = int
  type Edge = (Vertex, Vertex)
  type Adjacency = map<Vertex, set<Vertex>>

  predicate HasEdge(E: Adjacency, v: Vertex, w: Vertex) {
    v in E && w in E[v]
  }

  /** All ordered pairs (v, w) with w a successor of v. */
  function EdgeSet(E: Adjacency): set<Edge> {
    set v, w | v in E && w in E[v] :: (v, w)
  }

  /** Every successor is itself a vertex (a key of the map). */
  ghost predicate Closed(E: Adjacency) {
    forall v, w :: HasEdge(E, v, w) ==> w in E
  }

  /** Every element is a vertex and every consecutive pair is an edge. */
  ghost predicate IsWalk(E: Adjacency, p: seq<Vertex>) {
    && (forall i :: 0 <= i < |p| ==> p[i] in E)
    && (forall i :: 0 < i < |p| ==> HasEdge(E, p[i - 1], p[i]))
  }

  ghost predicate PathFromTo(E: Adjacency, p: seq<Vertex>, s: Vertex, d: Vertex) {
    |p| > 0 && p[0] == s && p[|p| - 1] == d && IsWalk(E, p)
  }

  ghost predicate Reachable(E: Adjacency, s: Vertex, d: Vertex) {
    exists p :: PathFromTo(E, p, s, d)
  }

  ghost predicate NonNegative(cost: Edge -> real) {
    forall e :: cost(e) >= 0.0
  }

  /** Sum of the costs of the consecutive pairs of `p`. */
  function WalkCost(p: seq<Vertex>, cost: Edge -> real): real {
    if |p| < 2 then 0.0 else cost((p[0], p[1])) + WalkCost(p[1..], cost)
  }

  /** `d` is no larger than the cost of any walk from `s` to `v`. */
  ghost predicate NoCheaperWalk(E: Adjacency, cost: Edge -> real, s: Vertex, v: Vertex, d: real) {
    forall q :: PathFromTo(E, q, s, v) ==> d <= WalkCost(q, cost)
  }

  /** A set of vertices that no edge leaves. */
  ghost predicate ClosedSet(E: Adjacency, S: set<Vertex>) {
    forall u, w :: u in S && HasEdge(E, u, w) ==> w in S
  }

  /** Python visits the elements of a set in an order it does not specify:
      the model takes any element. */
  method Choose<T>(S: set<T>) returns (x: T)
    requires S != {}
    ensures x in S
  {
    x :| x in S;
  }

  /** Visiting a vertex not yet visited shrinks the set of unvisited
      vertices: the measure that ends a graph search. */
  lemma VisitShrinks(E: Adjacency, visited: set<Vertex>, cur: Vertex)
    requires cur in E && cur !in visited
    ensures |E.Keys - (visited + {cur})| < |E.Keys - visited|
  {
    assert E.Keys - visited == (E.Keys - (visited + {cur})) + {cur};
  }

  /** `path[::-1]` */
  function Reverse<T>(s: seq<T>): (r: seq<T>)
    ensures |r| == |s|
    ensures forall i :: 0 <= i < |s| ==> r[i] == s[|s| - 1 - i]
  {
    if s == [] then [] else Reverse(s[1..]) + [s[0]]
  }

  lemma ReverseAppend<T>(s: seq<T>, x: T)
    ensures Reverse(s + [x]) == [x] + Reverse(s)
  {
    var l, r := Reverse(s + [x]), [x] + Reverse(s);
    assert |l| == |r|;
    forall i | 0 <= i < |l| ensures l[i] == r[i] {
      if i > 0 {
        assert l[i] == (s + [x])[|s| - i];
      }
    }
  }

  lemma {:induction false} WalkCostNonNegative(p: seq<Vertex>, cost: Edge -> real)
    requires NonNegative(cost)
    ensures WalkCost(p, cost) >= 0.0
    decreases |p|
  {
    if |p| >= 2 {
      WalkCostNonNegative(p[1..], cost);
    }
  }

  /** Appending one vertex adds the cost of the new last edge. */
  lemma {:induction false} WalkCostAppend(p: seq<Vertex>, x: Vertex, cost: Edge -> real)
    requires |p| >= 1
    ensures WalkCost(p + [x], cost) == WalkCost(p, cost) + cost((p[|p| - 1], x))
    decreases |p|
  {
    if |p| >= 2 {
      assert (p + [x])[1..] == p[1..] + [x];
      WalkCostAppend(p[1..], x, cost);
    }
  }

  /** A walk's cost is the cost up to position k plus the cost from k on. */
  lemma {:induction false} WalkCostSplit(p: seq<Vertex>, k: nat, cost: Edge -> real)
    requires k < |p|
    ensures WalkCost(p, cost) == WalkCost(p[..k + 1], cost) + WalkCost(p[k..], cost)
    decreases k
  {
    if k > 0 {
      WalkCostSplit(p[1..], k - 1, cost);
      assert p[1..][..k] == p[..k + 1][1..];
      assert p[1..][k - 1..] == p[k..];
    }
  }

  /** Extending a path by an edge gives a path to the edge's head. */
  lemma PathExtend(E: Adjacency, p: seq<Vertex>, s: Vertex, u: Vertex, w: Vertex)
    requires PathFromTo(E, p, s, u) && HasEdge(E, u, w) && w in E
    ensures PathFromTo(E, p + [w], s, w)
  {
    var q := p + [w];
    forall i | 0 < i < |q| ensures HasEdge(E, q[i - 1], q[i]) {
      if i < |p| { assert q[i - 1] == p[i - 1] && q[i] == p[i]; }
    }
  }

  /** A prefix of a path from s is a path from s. */
  lemma PathPrefix(E: Adjacency, p: seq<Vertex>, s: Vertex, d: Vertex, k: nat)
    requires PathFromTo(E, p, s, d) && 0 < k <= |p|
    ensures PathFromTo(E, p[..k], s, p[k - 1])
  {
  }

  /** Every vertex on a walk that starts inside a closed set stays inside it. */
  lemma {:induction false} ClosedSetContainsWalk(E: Adjacency, S: set<Vertex>, p: seq<Vertex>)
    requires ClosedSet(E, S) && IsWalk(E, p) && |p| > 0 && p[0] in S
    ensures forall i :: 0 <= i < |p| ==> p[i] in S
    decreases |p|
  {
    if |p| > 1 {
      var q := p[..|p| - 1];
      assert IsWalk(E, q);
      ClosedSetContainsWalk(E, S, q);
      assert p[|p| - 2] == q[|q| - 1];
      assert HasEdge(E, p[|p| - 2], p[|p| - 1]);
    }
  }

  /** Nothing outside a closed set containing s is reachable from s. */
  lemma ClosedSetBoundsReach(E: Adjacency, S: set<Vertex>, s: Vertex, d: Vertex)
    requires ClosedSet(E, S) && s in S && d !in S
    ensures !Reachable(E, s, d)
  {
    forall p | PathFromTo(E, p, s, d) ensures p[|p| - 1] in S {
      ClosedSetContainsWalk(E, S, p);
    }
  }

  /** A walk that starts inside S and ends outside it leaves S at some edge. */
  lemma {:induction false} ExitPoint(p: seq<Vertex>, S: set<Vertex>) returns (k: nat)
    requires |p| > 0 && p[0] in S && p[|p| - 1] !in S
    ensures 0 < k < |p| && p[k - 1] in S && p[k] !in S
    decreases |p|
  {
    if p[|p| - 2] in S {
      k := |p| - 1;
    } else {
      k := ExitPoint(p[..|p| - 1], S);
    }
  }

  /** A parent was reached before its child: following parent links
      terminates. */
  ghost predicate Ranked(parent: map<Vertex, Vertex>, rank: map<Vertex, nat>) {
    forall v :: v in rank && v in parent ==> parent[v] in rank && rank[parent[v]] < rank[v]
  }

  /** Every rank is below `n`: ranks number the first `n` vertices reached. */
  ghost predicate RankedBelow(rank: map<Vertex, nat>, n: nat) {
    forall v :: v in rank ==> rank[v] < n
  }

  /** The walk obtained by following parent links back from `v`. */
  ghost function Trace(parent: map<Vertex, Vertex>, rank: map<Vertex, nat>, v: Vertex): seq<Vertex>
    requires v in rank && Ranked(parent, rank)
    decreases rank[v]
  {
    if v in parent then Trace(parent, rank, parent[v]) + [v] else [v]
  }

  /** When every parent link is an edge and the only ranked vertex without
      a parent is `root`, following parent links from `v` gives a path from
      `root` to `v`. */
  lemma {:induction false} TraceWalk(E: Adjacency, parent: map<Vertex, Vertex>, rank: map<Vertex, nat>,
                                     root: Vertex, v: Vertex)
    requires Closed(E) && v in rank && Ranked(parent, rank)
    requires forall u :: u in rank && u !in parent ==> u == root
    requires forall u :: u in rank && u in parent ==> HasEdge(E, parent[u], u)
    requires root in E || v in parent
    ensures PathFromTo(E, Trace(parent, rank, v), root, v)
    decreases rank[v]
  {
    if v in parent {
      var p := parent[v];
      assert HasEdge(E, p, v);
      TraceWalk(E, parent, rank, root, p);
      PathExtend(E, Trace(parent, rank, p), root, p, v);
    }
  }
}
