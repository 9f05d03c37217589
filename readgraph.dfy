/** The turn-aware graph builder of readgraph.py (`read_graph` from the
    construction of the graph on).  Each road vertex `v` gets one auxiliary
    vertex per neighbour `u`, `aux[v][u]`; a road edge `(a, b)` becomes the
    "segment" edge `(aux[a][b], aux[b][a])`, and each pair of an in-edge
    `(a, v)` and an out-edge `(v, c)` becomes the "junction" edge
    `(aux[v][a], aux[v][c])`, whose cost is the cost of turning at `v`.

    The input is the parsed records: the position of every vertex and the
    set of edges.  Positions are of any type `P`; the turn-cost formula is
    the parameter `turn`. */
module RoadGraph {
  import opened Outcomes
  import opened Walks
  import opened Digraphs

  /** `vert_map[v]`: the position of `v` and its incoming and outgoing
      edges. */
  datatype VertexRecord<P> = VertexRecord(at: P, ine: set<Edge>, oute: set<Edge>)

  type VertMap<P> = map<Vertex, VertexRecord<P>>

  /** `aux_vert_map`: for each road vertex, its auxiliary vertex per
      neighbour. */
  type AuxMap = map<Vertex, map<Vertex, Vertex>>

  /** The `metadata` dictionary, split by the kind of its keys: the
      position of each auxiliary vertex and the cost of each edge. */
  datatype Metadata<P> = Metadata(positions: map<Vertex, P>, costs: map<Edge, real>)

  function InEdges(edges: set<Edge>, v: Vertex): set<Edge> {
    set e | e in edges && e.1 == v
  }

  function OutEdges(edges: set<Edge>, v: Vertex): set<Edge> {
    set e | e in edges && e.0 == v
  }

  /** The vertex records once every edge is entered at both ends. */
  function VertexRecords<P>(at: map<Vertex, P>, edges: set<Edge>): VertMap<P> {
    map v | v in at :: VertexRecord(at[v], InEdges(edges, v), OutEdges(edges, v))
  }

  /** Some edge names an endpoint that has no vertex record. */
  ghost predicate Dangling<P>(at: map<Vertex, P>, edges: set<Edge>) {
    exists e :: e in edges && (e.0 !in at || e.1 !in at)
  }

  function Sources(s: set<Edge>): set<Vertex> {
    set e | e in s :: e.0
  }

  function Targets(s: set<Edge>): set<Vertex> {
    set e | e in s :: e.1
  }

  /** The neighbours a vertex gets an auxiliary vertex for. */
  function Neighbours<P>(r: VertexRecord<P>): set<Vertex> {
    Sources(r.ine) + Targets(r.oute)
  }

  ghost predicate HasAux(aux: AuxMap, v: Vertex, u: Vertex) {
    v in aux && u in aux[v]
  }

  /** No two (vertex, neighbour) pairs share an auxiliary id. */
  ghost predicate Distinct(aux: AuxMap) {
    forall v, u, v', u' :: HasAux(aux, v, u) && HasAux(aux, v', u') && aux[v][u] == aux[v'][u'] ==>
      v == v' && u == u'
  }

  /** Every vertex has an auxiliary vertex for exactly its neighbours, and
      the auxiliary ids are positive and distinct. */
  ghost predicate Allocated<P>(vm: VertMap<P>, aux: AuxMap) {
    && aux.Keys == vm.Keys
    && (forall v :: v in aux ==> aux[v].Keys == Neighbours(vm[v]))
    && (forall v, u :: HasAux(aux, v, u) ==> aux[v][u] >= 1)
    && Distinct(aux)
  }

  function AuxIds(aux: AuxMap): set<Vertex> {
    set v, u | v in aux && u in aux[v] :: aux[v][u]
  }

  function AuxPairs(aux: AuxMap): set<(Vertex, Vertex)> {
    set v, u | v in aux && u in aux[v] :: (v, u)
  }

  /** Each auxiliary vertex is recorded at the position of its road
      vertex. */
  ghost predicate Positioned<P>(vm: VertMap<P>, aux: AuxMap, positions: map<Vertex, P>) {
    && positions.Keys == AuxIds(aux)
    && forall v, u :: HasAux(aux, v, u) ==> v in vm && positions[aux[v][u]] == vm[v].at
  }

  /** `in_edges` phase: enters every edge into the out-set of its source
      and the in-set of its target, and in no other set.  A KeyError when an endpoint has no
      vertex record, and then the key is such an endpoint. */
  method AssignEdgeSets<P>(at: map<Vertex, P>, edges: set<Edge>) returns (r: Outcome<VertMap<P>>)
    ensures r.KeyError? <==> Dangling(at, edges)
    ensures r.KeyError? ==> r.key !in at && exists e :: e in edges && (e.0 == r.key || e.1 == r.key)
    ensures r.Value? ==> r.value == VertexRecords(at, edges)
    ensures r.Value? ==> r.value.Keys == at.Keys && forall v, e :: v in r.value ==>
              && r.value[v].at == at[v]
              && (e in r.value[v].oute <==> e in edges && e.0 == v)
              && (e in r.value[v].ine <==> e in edges && e.1 == v)
  {
    var vm := VertexRecords(at, {});
    var done: set<Edge> := {};
    var rest := edges;
    while rest != {}
      invariant done + rest == edges && done !! rest
      invariant forall e :: e in done ==> e.0 in at && e.1 in at
      invariant vm == VertexRecords(at, done)
      decreases rest
    {
      var e := Choose(rest);
      if e.0 !in vm {
        return KeyError(e.0);
      }
      vm := vm[e.0 := vm[e.0].(oute := vm[e.0].oute + {e})];
      if e.1 !in vm {
        return KeyError(e.1);
      }
      vm := vm[e.1 := vm[e.1].(ine := vm[e.1].ine + {e})];
      AssignStep(at, done, e);
      done, rest := done + {e}, rest - {e};
    }
    return Value(vm);
  }

  lemma AssignStep<P>(at: map<Vertex, P>, done: set<Edge>, e: Edge)
    requires e.0 in at && e.1 in at
    ensures var vm := VertexRecords(at, done);
            var vm1 := vm[e.0 := vm[e.0].(oute := vm[e.0].oute + {e})];
            vm1[e.1 := vm1[e.1].(ine := vm1[e.1].ine + {e})] == VertexRecords(at, done + {e})
  {
    var vm := VertexRecords(at, done);
    var vm1 := vm[e.0 := vm[e.0].(oute := vm[e.0].oute + {e})];
    var vm2 := vm1[e.1 := vm1[e.1].(ine := vm1[e.1].ine + {e})];
    var want := VertexRecords(at, done + {e});
    forall v | v in at ensures vm2[v] == want[v] {
      assert InEdges(done + {e}, v) == InEdges(done, v) + (if e.1 == v then {e} else {});
      assert OutEdges(done + {e}, v) == OutEdges(done, v) + (if e.0 == v then {e} else {});
    }
    assert vm2.Keys == want.Keys;
  }

  /** The auxiliary ids of one vertex: a fresh id from the counter for the
      source of each in-edge, then for the target of each out-edge.  A
      neighbour at both ends keeps its out-edge id, so the counter skips
      the id it had first. */
  method AllocateVertex<P>(r: VertexRecord<P>, c0: int) returns (my: map<Vertex, Vertex>, c: int)
    ensures my.Keys == Neighbours(r)
    ensures c == c0 + |r.ine| + |r.oute|
    ensures forall u :: u in my ==> c0 <= my[u] < c
    ensures forall u :: u in my ==> (my[u] >= c0 + |r.ine| <==> u in Targets(r.oute))
    ensures Injective(my)
  {
    my, c := NumberSources(r.ine, c0);
    my, c := NumberTargets(r.oute, my, c0, c);
  }

  /** `for e in vdat['ine']`: numbers the source of each in-edge. */
  method NumberSources(ine: set<Edge>, c0: int) returns (my: map<Vertex, Vertex>, c: int)
    ensures my.Keys == Sources(ine) && c == c0 + |ine| && Numbered(my, c0, c)
  {
    my, c := map[], c0;
    var done: set<Edge> := {};
    var rest := ine;
    while rest != {}
      invariant done + rest == ine && done !! rest
      invariant my.Keys == Sources(done) && c == c0 + |done|
      invariant Numbered(my, c0, c)
      decreases rest
    {
      var e := Choose(rest);
      NumberNext(my, c0, c, e.0);
      SourcesAdd(done, e);
      my, c := my[e.0 := c], c + 1;
      done, rest := done + {e}, rest - {e};
    }
  }

  /** `for e in vdat['oute']`: numbers the target of each out-edge from
      `c1` on, overwriting the number of a target numbered before. */
  method NumberTargets(oute: set<Edge>, my0: map<Vertex, Vertex>, c0: int, c1: int)
    returns (my: map<Vertex, Vertex>, c: int)
    requires c0 <= c1 && Numbered(my0, c0, c1)
    ensures my.Keys == my0.Keys + Targets(oute) && c == c1 + |oute| && Numbered(my, c0, c)
    ensures forall u :: u in my ==> (my[u] >= c1 <==> u in Targets(oute))
    ensures forall u :: u in my0 && u !in Targets(oute) ==> my[u] == my0[u]
  {
    my, c := my0, c1;
    var done: set<Edge> := {};
    var rest := oute;
    while rest != {}
      invariant done + rest == oute && done !! rest
      invariant my.Keys == my0.Keys + Targets(done) && c == c1 + |done|
      invariant Numbered(my, c0, c)
      invariant forall u :: u in my ==> (my[u] >= c1 <==> u in Targets(done))
      invariant forall u :: u in my0 && u !in Targets(done) ==> my[u] == my0[u]
      decreases rest
    {
      var e := Choose(rest);
      TargetStep(my0, my, c0, c1, c, done, e);
      Advance(done, rest, e);
      my, c := my[e.1 := c], c + 1;
      done, rest := done + {e}, rest - {e};
    }
  }

  /** The ids `my` hands out: `my_aux_verts.values()`. */
  function Ids(my: map<Vertex, Vertex>): set<Vertex> {
    set u | u in my :: my[u]
  }

  ghost predicate Injective<K, V>(m: map<K, V>) {
    forall a, b :: a in m && b in m && m[a] == m[b] ==> a == b
  }

  /** `my` maps its keys one-to-one into `[lo, hi)`. */
  ghost predicate Numbered(my: map<Vertex, Vertex>, lo: int, hi: int) {
    Injective(my) && forall u :: u in my ==> lo <= my[u] < hi
  }

  lemma NumberNext(my: map<Vertex, Vertex>, lo: int, hi: int, u: Vertex)
    requires Numbered(my, lo, hi) && lo <= hi
    ensures Numbered(my[u := hi], lo, hi + 1)
    ensures forall w :: w in my && w != u ==> my[u := hi][w] == my[w]
  {
    var my' := my[u := hi];
    forall a, b | a in my' && b in my' && my'[a] == my'[b] ensures a == b {
      if a != u && b != u {
        assert my'[a] == my[a] && my'[b] == my[b];
      }
    }
  }

  lemma TargetStep(my0: map<Vertex, Vertex>, my: map<Vertex, Vertex>, c0: int, c1: int, c: int,
                   done: set<Edge>, e: Edge)
    requires c0 <= c1 <= c && Numbered(my, c0, c) && my.Keys == my0.Keys + Targets(done)
    requires forall u :: u in my ==> (my[u] >= c1 <==> u in Targets(done))
    ensures Numbered(my[e.1 := c], c0, c + 1)
    ensures my[e.1 := c].Keys == my0.Keys + Targets(done + {e})
    ensures forall u :: u in my[e.1 := c] ==> (my[e.1 := c][u] >= c1 <==> u in Targets(done + {e}))
  {
    NumberNext(my, c0, c, e.1);
    TargetsAdd(done, e);
    Regroup(my0.Keys, Targets(done), {e.1}, Targets(done + {e}));
  }

  lemma SourcesAdd(s: set<Edge>, e: Edge)
    ensures Sources(s + {e}) == Sources(s) + {e.0}
  {
  }

  lemma TargetsAdd(s: set<Edge>, e: Edge)
    ensures Targets(s + {e}) == Targets(s) + {e.1}
  {
  }

  /** `positions` is `positions0` with each of `ids` recorded as `p`. */
  ghost predicate Recorded<K, V>(positions0: map<K, V>, positions: map<K, V>, ids: set<K>, p: V) {
    && positions.Keys == positions0.Keys + ids
    && (forall id :: id in ids ==> positions[id] == p)
    && (forall id :: id in positions0 && id !in ids ==> positions[id] == positions0[id])
  }

  /** `for id in my_aux_verts.values()`: records the position of each new
      auxiliary vertex and adds it to the graph. */
  method AddAuxVertices<P>(graph: Digraph, my: map<Vertex, Vertex>, p: P, positions0: map<Vertex, P>)
    returns (positions: map<Vertex, P>)
    requires graph.Valid()
    modifies graph
    ensures graph.Valid()
    ensures graph.Vertices() == old(graph.Vertices()) + Ids(my) && graph.Edges() == old(graph.Edges())
    ensures Recorded(positions0, positions, Ids(my), p)
  {
    positions := positions0;
    var done: set<Vertex> := {};
    var rest := Ids(my);
    while rest != {}
      invariant graph.Valid()
      invariant done + rest == Ids(my) && done !! rest
      invariant graph.Vertices() == old(graph.Vertices()) + done && graph.Edges() == old(graph.Edges())
      invariant Recorded(positions0, positions, done, p)
      decreases rest
    {
      var id := Choose(rest);
      positions := positions[id := p];
      graph.AddVertex(id);
      done, rest := done + {id}, rest - {id};
    }
  }

  /** The invariant of the auxiliary-vertex loop: the vertices done so far
      have their ids, all below `counter`. */
  ghost predicate Allocating<P>(vm: VertMap<P>, aux: AuxMap, counter: int, positions: map<Vertex, P>) {
    && aux.Keys <= vm.Keys
    && (forall v :: v in aux ==> aux[v].Keys == Neighbours(vm[v]))
    && (forall v, u :: HasAux(aux, v, u) ==> 1 <= aux[v][u] < counter)
    && Distinct(aux)
    && Positioned(vm, aux, positions)
  }

  /** The auxiliary-vertex phase: allocates the ids of every vertex from a
      counter that starts at 1, adds them to the empty graph and records
      their positions. */
  method AllocateAux<P>(vm: VertMap<P>, graph: Digraph) returns (aux: AuxMap, positions: map<Vertex, P>)
    requires graph.Valid() && graph.Vertices() == {} && graph.Edges() == {}
    modifies graph
    ensures graph.Valid() && graph.Edges() == {} && graph.Vertices() == AuxIds(aux)
    ensures Allocated(vm, aux) && Positioned(vm, aux, positions)
  {
    aux, positions := map[], map[];
    var counter := 1;
    var rest := vm.Keys;
    while rest != {}
      invariant graph.Valid()
      invariant aux.Keys + rest == vm.Keys && aux.Keys !! rest
      invariant counter >= 1 && Allocating(vm, aux, counter, positions)
      invariant graph.Edges() == {} && graph.Vertices() == AuxIds(aux)
      decreases rest
    {
      var v := Choose(rest);
      Advance(aux.Keys, rest, v);
      aux, counter, positions := AllocateNext(vm, graph, v, aux, counter, positions);
      rest := rest - {v};
    }
    AllocateDone(vm, aux, counter, positions);
  }

  /** One round of `for v_id in vert_map`: numbers the neighbours of `v`,
      adds their auxiliary vertices and records `aux_vert_map[v_id]`. */
  method AllocateNext<P>(vm: VertMap<P>, graph: Digraph, v: Vertex, aux0: AuxMap, counter0: int,
                         positions0: map<Vertex, P>) returns (aux: AuxMap, counter: int, positions: map<Vertex, P>)
    requires graph.Valid() && v in vm && v !in aux0
    requires counter0 >= 1 && Allocating(vm, aux0, counter0, positions0)
    requires graph.Edges() == {} && graph.Vertices() == AuxIds(aux0)
    modifies graph
    ensures graph.Valid() && aux.Keys == aux0.Keys + {v}
    ensures counter >= 1 && Allocating(vm, aux, counter, positions)
    ensures graph.Edges() == {} && graph.Vertices() == AuxIds(aux)
  {
    var my;
    my, counter := AllocateVertex(vm[v], counter0);
    positions := AddAuxVertices(graph, my, vm[v].at, positions0);
    AllocateStep(vm, aux0, positions0, positions, counter0, counter, v, my);
    aux := aux0[v := my];
  }

  lemma AllocateDone<P>(vm: VertMap<P>, aux: AuxMap, counter: int, positions: map<Vertex, P>)
    requires Allocating(vm, aux, counter, positions) && aux.Keys == vm.Keys
    ensures Allocated(vm, aux) && Positioned(vm, aux, positions)
  {
  }

  lemma AllocateStep<P>(vm: VertMap<P>, aux: AuxMap, positions0: map<Vertex, P>, positions: map<Vertex, P>,
                        counter: int, next: int, v: Vertex, my: map<Vertex, Vertex>)
    requires v in vm && v !in aux && Allocating(vm, aux, counter, positions0) && counter >= 1
    requires my.Keys == Neighbours(vm[v]) && Numbered(my, counter, next) && counter <= next
    requires Recorded(positions0, positions, Ids(my), vm[v].at)
    ensures Allocating(vm, aux[v := my], next, positions)
    ensures AuxIds(aux[v := my]) == AuxIds(aux) + Ids(my)
  {
    var aux' := aux[v := my];
    AllocateIds(aux, v, my);
    forall x, y | HasAux(aux', x, y) ensures 1 <= aux'[x][y] < next {
      if x == v {
        assert aux'[x][y] == my[y];
      } else {
        assert HasAux(aux, x, y);
      }
    }
    AllocateDistinct(aux, counter, v, my);
    AllocatePositions(vm, aux, positions0, positions, counter, v, my);
  }

  lemma AllocateIds(aux: AuxMap, v: Vertex, my: map<Vertex, Vertex>)
    requires v !in aux
    ensures AuxIds(aux[v := my]) == AuxIds(aux) + Ids(my)
  {
    var aux' := aux[v := my];
    forall id | id in AuxIds(aux') ensures id in AuxIds(aux) + Ids(my) {
      var x, y :| x in aux' && y in aux'[x] && id == aux'[x][y];
      if x != v {
        assert id == aux[x][y];
      }
    }
    forall id | id in AuxIds(aux) + Ids(my) ensures id in AuxIds(aux') {
      if id in Ids(my) {
        var y :| y in my && my[y] == id;
        assert id == aux'[v][y];
      } else {
        var x, y :| x in aux && y in aux[x] && id == aux[x][y];
        assert id == aux'[x][y];
      }
    }
  }

  lemma AllocateDistinct(aux: AuxMap, counter: int, v: Vertex, my: map<Vertex, Vertex>)
    requires v !in aux && Distinct(aux) && Injective(my)
    requires forall x, y :: HasAux(aux, x, y) ==> aux[x][y] < counter
    requires forall u :: u in my ==> counter <= my[u]
    ensures Distinct(aux[v := my])
  {
    var aux' := aux[v := my];
    forall x, y, x', y' | HasAux(aux', x, y) && HasAux(aux', x', y') && aux'[x][y] == aux'[x'][y']
      ensures x == x' && y == y'
    {
      if x == v && x' == v {
      } else if x == v {
        assert HasAux(aux, x', y');
      } else if x' == v {
        assert HasAux(aux, x, y);
      } else {
        assert HasAux(aux, x, y) && HasAux(aux, x', y');
      }
    }
  }

  lemma AllocatePositions<P>(vm: VertMap<P>, aux: AuxMap, positions0: map<Vertex, P>, positions: map<Vertex, P>,
                             counter: int, v: Vertex, my: map<Vertex, Vertex>)
    requires v in vm && v !in aux && Positioned(vm, aux, positions0)
    requires forall x, y :: HasAux(aux, x, y) ==> aux[x][y] < counter
    requires forall u :: u in my ==> counter <= my[u]
    requires AuxIds(aux[v := my]) == AuxIds(aux) + Ids(my)
    requires Recorded(positions0, positions, Ids(my), vm[v].at)
    ensures Positioned(vm, aux[v := my], positions)
  {
    var aux' := aux[v := my];
    forall x, y | HasAux(aux', x, y) ensures x in vm && positions[aux'[x][y]] == vm[x].at {
      if x == v {
        assert aux'[x][y] in Ids(my);
      } else {
        assert HasAux(aux, x, y);
        assert aux[x][y] !in Ids(my);
      }
    }
  }

  lemma AuxIdIn(aux: AuxMap, v: Vertex, u: Vertex)
    requires HasAux(aux, v, u)
    ensures aux[v][u] in AuxIds(aux)
  {
  }

  /** Both auxiliary vertices of a road edge exist. */
  predicate SegmentDefined(aux: AuxMap, e: Edge) {
    e.0 in aux && e.1 in aux[e.0] && e.1 in aux && e.0 in aux[e.1]
  }

  /** The segment edges: `(aux[a][b], aux[b][a])` for each road edge
      `(a, b)`. */
  function Segments(edges: set<Edge>, aux: AuxMap): set<Edge> {
    set e | e in edges && SegmentDefined(aux, e) :: (aux[e.0][e.1], aux[e.1][e.0])
  }

  /** The segment phase: adds the segment edge of every road edge with cost
      0. */
  method AddSegments(graph: Digraph, edges: set<Edge>, aux: AuxMap, costs0: map<Edge, real>)
    returns (costs: map<Edge, real>)
    requires graph.Valid() && AuxIds(aux) <= graph.Vertices()
    requires forall e :: e in edges ==> SegmentDefined(aux, e)
    modifies graph
    ensures graph.Valid() && graph.Vertices() == old(graph.Vertices())
    ensures graph.Edges() == old(graph.Edges()) + Segments(edges, aux)
    ensures Recorded(costs0, costs, Segments(edges, aux), 0.0)
  {
    costs := costs0;
    var done: set<Edge> := {};
    var rest := edges;
    while rest != {}
      invariant graph.Valid()
      invariant done + rest == edges && done !! rest
      invariant graph.Vertices() == old(graph.Vertices())
      invariant graph.Edges() == old(graph.Edges()) + Segments(done, aux)
      invariant Recorded(costs0, costs, Segments(done, aux), 0.0)
      decreases rest
    {
      var e := Choose(rest);
      var s := (aux[e.0][e.1], aux[e.1][e.0]);
      AuxIdIn(aux, e.0, e.1);
      AuxIdIn(aux, e.1, e.0);
      SegmentsAdd(done, aux, e);
      ghost var costs1 := costs;
      costs := AddCostedEdge(graph, s, 0.0, costs);
      RecordOne(costs0, costs1, costs, Segments(done, aux), s, 0.0);
      Absorb(old(graph.Vertices()), s.0, s.1);
      Regroup(old(graph.Edges()), Segments(done, aux), {s}, Segments(done + {e}, aux));
      Advance(done, rest, e);
      done, rest := done + {e}, rest - {e};
    }
  }

  /** `graph.add_edge(e)` followed by `metadata[e] = c`. */
  method AddCostedEdge(graph: Digraph, e: Edge, c: real, costs0: map<Edge, real>) returns (costs: map<Edge, real>)
    requires graph.Valid()
    modifies graph
    ensures graph.Valid()
    ensures graph.Vertices() == old(graph.Vertices()) + {e.0, e.1} && graph.Edges() == old(graph.Edges()) + {e}
    ensures costs == costs0[e := c]
  {
    graph.AddEdge(e);
    costs := costs0[e := c];
  }

  lemma RecordOne<K, V>(m0: map<K, V>, m1: map<K, V>, m2: map<K, V>, ks: set<K>, k: K, x: V)
    requires Recorded(m0, m1, ks, x) && m2 == m1[k := x]
    ensures Recorded(m0, m2, ks + {k}, x)
  {
  }

  lemma SegmentsAdd(done: set<Edge>, aux: AuxMap, e: Edge)
    requires SegmentDefined(aux, e)
    ensures Segments(done + {e}, aux) == Segments(done, aux) + {(aux[e.0][e.1], aux[e.1][e.0])}
  {
  }

  /** A junction: a vertex `v`, one of its in-edges and one of its
      out-edges. */
  type Triple = (Vertex, Edge, Edge)

  /** All junctions of the road graph. */
  function Triples<P>(vm: VertMap<P>): set<Triple> {
    TriplesOf(vm, vm.Keys)
  }

  function TriplesOf<P>(vm: VertMap<P>, vs: set<Vertex>): set<Triple> {
    set v, i, o | v in vs && v in vm && i in vm[v].ine && o in vm[v].oute :: (v, i, o)
  }

  /** The junctions at `v` whose in-edge is one of `ins`. */
  function TriplesAt<P>(vm: VertMap<P>, v: Vertex, ins: set<Edge>): set<Triple>
    requires v in vm
  {
    set i, o | i in ins && o in vm[v].oute :: (v, i, o)
  }

  function Through(v: Vertex, i: Edge, outs: set<Edge>): set<Triple> {
    set o | o in outs :: (v, i, o)
  }

  predicate JunctionDefined(aux: AuxMap, t: Triple) {
    t.0 in aux && t.1.0 in aux[t.0] && t.2.1 in aux[t.0]
  }

  /** The junction edge `(aux[v][a], aux[v][c])` of in-edge `(a, v)` and
      out-edge `(v, c)`. */
  function Junction(aux: AuxMap, t: Triple): Edge
    requires JunctionDefined(aux, t)
  {
    (aux[t.0][t.1.0], aux[t.0][t.2.1])
  }

  function JunctionKeys(aux: AuxMap, T: set<Triple>): set<Edge> {
    set t | t in T && JunctionDefined(aux, t) :: Junction(aux, t)
  }

  predicate CostDefined<P>(vm: VertMap<P>, t: Triple) {
    t.0 in vm && t.1.0 in vm && t.2.1 in vm
  }

  /** The angle term is never negative on the recorded positions, as
      `acos` lies between 0 and pi. */
  ghost predicate NonNegativeTurn<P>(vm: VertMap<P>, turn: (P, P, P) -> real) {
    forall a, v, c :: a in vm && v in vm && c in vm ==> turn(vm[a].at, vm[v].at, vm[c].at) >= 0.0
  }

  /** The cost of turning from `a` through `v` to `c`: nothing at a vertex
      with exactly one in-edge and one out-edge (a bend in the road),
      otherwise `turn` of the three positions. */
  function TurnCost<P>(vm: VertMap<P>, turn: (P, P, P) -> real, t: Triple): (r: real)
    requires CostDefined(vm, t)
    ensures NonNegativeTurn(vm, turn) ==> r >= 0.0
    ensures |vm[t.0].ine| != 1 || |vm[t.0].oute| != 1 || r == 0.0
  {
    if |vm[t.0].ine| == 1 && |vm[t.0].oute| == 1 then 0.0
    else
      var a, v, c := t.1.0, t.0, t.2.1;
      turn(vm[a].at, vm[v].at, vm[c].at)
  }

  ghost predicate WellFormed<P>(vm: VertMap<P>, aux: AuxMap, T: set<Triple>) {
    forall t :: t in T ==> JunctionDefined(aux, t) && CostDefined(vm, t)
  }

  /** Each junction of `T` is in `costs` with its turn cost. */
  ghost predicate JunctionsCosted<P>(vm: VertMap<P>, aux: AuxMap, turn: (P, P, P) -> real, T: set<Triple>,
                                     costs: map<Edge, real>) {
    forall t :: t in T && JunctionDefined(aux, t) && CostDefined(vm, t) ==>
      Junction(aux, t) in costs && costs[Junction(aux, t)] == TurnCost(vm, turn, t)
  }

  /** `costs` is `costs0` with the junctions of `T` entered at their turn
      costs. */
  ghost predicate Extended<P>(vm: VertMap<P>, aux: AuxMap, turn: (P, P, P) -> real, T: set<Triple>,
                              costs0: map<Edge, real>, costs: map<Edge, real>) {
    && costs.Keys == costs0.Keys + JunctionKeys(aux, T)
    && JunctionsCosted(vm, aux, turn, T, costs)
    && (forall k :: k in costs0 && k !in JunctionKeys(aux, T) ==> costs[k] == costs0[k])
  }

  /** The junction phase: `for v_id in vert_map`, for each in-edge, for
      each out-edge, adds the junction edge with its turn cost. */
  method AddJunctions<P>(graph: Digraph, vm: VertMap<P>, aux: AuxMap, turn: (P, P, P) -> real,
                         costs0: map<Edge, real>) returns (costs: map<Edge, real>)
    requires graph.Valid() && AuxIds(aux) <= graph.Vertices()
    requires Distinct(aux) && WellFormed(vm, aux, Triples(vm))
    modifies graph
    ensures graph.Valid() && graph.Vertices() == old(graph.Vertices())
    ensures graph.Edges() == old(graph.Edges()) + JunctionKeys(aux, Triples(vm))
    ensures Extended(vm, aux, turn, Triples(vm), costs0, costs)
  {
    costs := costs0;
    var done: set<Vertex> := {};
    var rest := vm.Keys;
    while rest != {}
      invariant graph.Valid()
      invariant done + rest == vm.Keys && done !! rest
      invariant graph.Vertices() == old(graph.Vertices())
      invariant graph.Edges() == old(graph.Edges()) + JunctionKeys(aux, TriplesOf(vm, done))
      invariant Extended(vm, aux, turn, TriplesOf(vm, done), costs0, costs)
      decreases rest
    {
      var v := Choose(rest);
      ghost var costs1 := costs;
      TriplesOfAdd(vm, done, v);
      TriplesOfWithin(vm, aux, done + {v});
      TriplesOfWithin(vm, aux, {v});
      costs := JunctionsAt(graph, vm, aux, turn, v, costs);
      Compose(vm, aux, turn, TriplesOf(vm, done), TriplesAt(vm, v, vm[v].ine), costs0, costs1, costs);
      Regroup(old(graph.Edges()), JunctionKeys(aux, TriplesOf(vm, done)), JunctionKeys(aux, TriplesAt(vm, v, vm[v].ine)),
              JunctionKeys(aux, TriplesOf(vm, done + {v})));
      Advance(done, rest, v);
      done, rest := done + {v}, rest - {v};
    }
    assert done == vm.Keys;
  }

  /** `for (a,b) in vdat['ine']` at vertex `v`. */
  method JunctionsAt<P>(graph: Digraph, vm: VertMap<P>, aux: AuxMap, turn: (P, P, P) -> real, v: Vertex,
                        costs0: map<Edge, real>) returns (costs: map<Edge, real>)
    requires v in vm && graph.Valid() && AuxIds(aux) <= graph.Vertices()
    requires Distinct(aux) && WellFormed(vm, aux, TriplesAt(vm, v, vm[v].ine))
    modifies graph
    ensures graph.Valid() && graph.Vertices() == old(graph.Vertices())
    ensures graph.Edges() == old(graph.Edges()) + JunctionKeys(aux, TriplesAt(vm, v, vm[v].ine))
    ensures Extended(vm, aux, turn, TriplesAt(vm, v, vm[v].ine), costs0, costs)
  {
    costs := costs0;
    var done: set<Edge> := {};
    var rest := vm[v].ine;
    while rest != {}
      invariant graph.Valid()
      invariant done + rest == vm[v].ine && done !! rest
      invariant graph.Vertices() == old(graph.Vertices())
      invariant graph.Edges() == old(graph.Edges()) + JunctionKeys(aux, TriplesAt(vm, v, done))
      invariant Extended(vm, aux, turn, TriplesAt(vm, v, done), costs0, costs)
      decreases rest
    {
      var i := Choose(rest);
      ghost var costs1 := costs;
      TriplesAtAdd(vm, v, done, i);
      TriplesAtWithin(vm, aux, v, done + {i}, vm[v].ine);
      TriplesAtWithin(vm, aux, v, {i}, vm[v].ine);
      costs := JunctionsThrough(graph, vm, aux, turn, v, i, costs);
      Compose(vm, aux, turn, TriplesAt(vm, v, done), Through(v, i, vm[v].oute), costs0, costs1, costs);
      Regroup(old(graph.Edges()), JunctionKeys(aux, TriplesAt(vm, v, done)), JunctionKeys(aux, Through(v, i, vm[v].oute)),
              JunctionKeys(aux, TriplesAt(vm, v, done + {i})));
      Advance(done, rest, i);
      done, rest := done + {i}, rest - {i};
    }
  }

  /** `for (b,c) in vdat['oute']` for in-edge `i` at vertex `v`. */
  method JunctionsThrough<P>(graph: Digraph, vm: VertMap<P>, aux: AuxMap, turn: (P, P, P) -> real, v: Vertex,
                             i: Edge, costs0: map<Edge, real>) returns (costs: map<Edge, real>)
    requires v in vm && graph.Valid() && AuxIds(aux) <= graph.Vertices()
    requires Distinct(aux) && WellFormed(vm, aux, Through(v, i, vm[v].oute))
    modifies graph
    ensures graph.Valid() && graph.Vertices() == old(graph.Vertices())
    ensures graph.Edges() == old(graph.Edges()) + JunctionKeys(aux, Through(v, i, vm[v].oute))
    ensures Extended(vm, aux, turn, Through(v, i, vm[v].oute), costs0, costs)
  {
    costs := costs0;
    var done: set<Edge> := {};
    var rest := vm[v].oute;
    while rest != {}
      invariant graph.Valid()
      invariant done + rest == vm[v].oute && done !! rest
      invariant graph.Vertices() == old(graph.Vertices())
      invariant graph.Edges() == old(graph.Edges()) + JunctionKeys(aux, Through(v, i, done))
      invariant Extended(vm, aux, turn, Through(v, i, done), costs0, costs)
      decreases rest
    {
      var o := Choose(rest);
      var t := (v, i, o);
      JunctionStep(vm, aux, v, i, done, o);
      var j := (aux[v][i.0], aux[v][o.1]);
      ghost var costs1 := costs;
      costs := AddCostedEdge(graph, j, TurnCost(vm, turn, t), costs);
      JunctionCostStep(vm, aux, turn, v, i, done, o, costs0, costs1, costs);
      Absorb(old(graph.Vertices()), j.0, j.1);
      Regroup(old(graph.Edges()), JunctionKeys(aux, Through(v, i, done)), {j}, JunctionKeys(aux, Through(v, i, done + {o})));
      Advance(done, rest, o);
      done, rest := done + {o}, rest - {o};
    }
  }

  /** Set identities stated separately so that each loop step's proof
      stays small; they model nothing of the builder. */
  lemma Absorb<T>(S: set<T>, a: T, b: T)
    requires a in S && b in S
    ensures S + {a, b} == S
  {
  }

  lemma Regroup<T>(A: set<T>, B: set<T>, C: set<T>, BC: set<T>)
    requires BC == B + C
    ensures (A + B) + C == A + BC
  {
  }

  /** Moving `x` from `rest` to `done` keeps the two a partition (a proof
      step only). */
  lemma Advance<T>(done: set<T>, rest: set<T>, x: T)
    requires x in rest && done !! rest
    ensures (done + {x}) + (rest - {x}) == done + rest && (done + {x}) !! (rest - {x})
  {
  }

  lemma JunctionStep<P>(vm: VertMap<P>, aux: AuxMap, v: Vertex, i: Edge, done: set<Edge>, o: Edge)
    requires v in vm && o in vm[v].oute && WellFormed(vm, aux, Through(v, i, vm[v].oute))
    ensures JunctionDefined(aux, (v, i, o)) && CostDefined(vm, (v, i, o))
    ensures aux[v][i.0] in AuxIds(aux) && aux[v][o.1] in AuxIds(aux)
    ensures JunctionKeys(aux, Through(v, i, done + {o})) ==
            JunctionKeys(aux, Through(v, i, done)) + {(aux[v][i.0], aux[v][o.1])}
  {
    assert (v, i, o) in Through(v, i, vm[v].oute);
    AuxIdIn(aux, v, i.0);
    AuxIdIn(aux, v, o.1);
    ThroughAdd(v, i, done, o);
    assert JunctionKeys(aux, {(v, i, o)}) == {Junction(aux, (v, i, o))};
    JunctionKeysUnion(aux, Through(v, i, done), {(v, i, o)});
  }

  lemma JunctionCostStep<P>(vm: VertMap<P>, aux: AuxMap, turn: (P, P, P) -> real, v: Vertex, i: Edge,
                            done: set<Edge>, o: Edge, c0: map<Edge, real>, c1: map<Edge, real>, c2: map<Edge, real>)
    requires v in vm && o in vm[v].oute && done <= vm[v].oute
    requires Distinct(aux) && WellFormed(vm, aux, Through(v, i, vm[v].oute))
    requires Extended(vm, aux, turn, Through(v, i, done), c0, c1)
    requires JunctionDefined(aux, (v, i, o)) && CostDefined(vm, (v, i, o))
    requires c2 == c1[Junction(aux, (v, i, o)) := TurnCost(vm, turn, (v, i, o))]
    ensures Extended(vm, aux, turn, Through(v, i, done + {o}), c0, c2)
  {
    var t := (v, i, o);
    ExtendOne(vm, aux, turn, t, c1, c2);
    ThroughAdd(v, i, done, o);
    assert Through(v, i, done) + {t} <= Through(v, i, vm[v].oute);
    Compose(vm, aux, turn, Through(v, i, done), {t}, c0, c1, c2);
  }

  lemma JunctionKeysUnion(aux: AuxMap, T1: set<Triple>, T2: set<Triple>)
    ensures JunctionKeys(aux, T1 + T2) == JunctionKeys(aux, T1) + JunctionKeys(aux, T2)
  {
  }

  lemma TriplesAtWithin<P>(vm: VertMap<P>, aux: AuxMap, v: Vertex, ins: set<Edge>, all: set<Edge>)
    requires v in vm && ins <= all && WellFormed(vm, aux, TriplesAt(vm, v, all))
    ensures WellFormed(vm, aux, TriplesAt(vm, v, ins))
    ensures forall i :: i in ins ==> WellFormed(vm, aux, Through(v, i, vm[v].oute))
  {
    forall i | i in ins ensures WellFormed(vm, aux, Through(v, i, vm[v].oute)) {
      forall t | t in Through(v, i, vm[v].oute) ensures JunctionDefined(aux, t) && CostDefined(vm, t) {
        assert t in TriplesAt(vm, v, all);
      }
    }
  }

  lemma TriplesOfWithin<P>(vm: VertMap<P>, aux: AuxMap, vs: set<Vertex>)
    requires WellFormed(vm, aux, Triples(vm))
    ensures WellFormed(vm, aux, TriplesOf(vm, vs))
    ensures forall v :: v in vs && v in vm ==> WellFormed(vm, aux, TriplesAt(vm, v, vm[v].ine))
  {
    forall v | v in vs && v in vm ensures WellFormed(vm, aux, TriplesAt(vm, v, vm[v].ine)) {
      forall t | t in TriplesAt(vm, v, vm[v].ine) ensures JunctionDefined(aux, t) && CostDefined(vm, t) {
        assert t in Triples(vm);
      }
    }
    forall t | t in TriplesOf(vm, vs) ensures JunctionDefined(aux, t) && CostDefined(vm, t) {
      assert t in Triples(vm);
    }
  }

  lemma ThroughAdd(v: Vertex, i: Edge, done: set<Edge>, o: Edge)
    ensures Through(v, i, done + {o}) == Through(v, i, done) + {(v, i, o)}
  {
  }

  lemma TriplesAtAdd<P>(vm: VertMap<P>, v: Vertex, done: set<Edge>, i: Edge)
    requires v in vm
    ensures TriplesAt(vm, v, done + {i}) == TriplesAt(vm, v, done) + Through(v, i, vm[v].oute)
  {
  }

  lemma TriplesOfAdd<P>(vm: VertMap<P>, done: set<Vertex>, v: Vertex)
    requires v in vm
    ensures TriplesOf(vm, done + {v}) == TriplesOf(vm, done) + TriplesAt(vm, v, vm[v].ine)
  {
  }

  lemma ExtendOne<P>(vm: VertMap<P>, aux: AuxMap, turn: (P, P, P) -> real, t: Triple,
                     costs0: map<Edge, real>, costs: map<Edge, real>)
    requires JunctionDefined(aux, t) && CostDefined(vm, t)
    requires costs == costs0[Junction(aux, t) := TurnCost(vm, turn, t)]
    ensures JunctionKeys(aux, {t}) == {Junction(aux, t)}
    ensures Extended(vm, aux, turn, {t}, costs0, costs)
  {
    assert JunctionKeys(aux, {t}) == {Junction(aux, t)};
  }

  /** Two junctions with the same edge have the same cost: the edge names
      the vertex and both neighbours. */
  lemma SameJunctionSameCost<P>(vm: VertMap<P>, aux: AuxMap, turn: (P, P, P) -> real, t: Triple, t': Triple)
    requires Distinct(aux)
    requires JunctionDefined(aux, t) && CostDefined(vm, t) && JunctionDefined(aux, t') && CostDefined(vm, t')
    requires Junction(aux, t) == Junction(aux, t')
    ensures TurnCost(vm, turn, t) == TurnCost(vm, turn, t')
  {
    assert HasAux(aux, t.0, t.1.0) && HasAux(aux, t'.0, t'.1.0);
    assert HasAux(aux, t.0, t.2.1) && HasAux(aux, t'.0, t'.2.1);
  }

  lemma Compose<P>(vm: VertMap<P>, aux: AuxMap, turn: (P, P, P) -> real, T1: set<Triple>, T2: set<Triple>,
                   c0: map<Edge, real>, c1: map<Edge, real>, c2: map<Edge, real>)
    requires Distinct(aux) && WellFormed(vm, aux, T1 + T2)
    requires Extended(vm, aux, turn, T1, c0, c1) && Extended(vm, aux, turn, T2, c1, c2)
    ensures JunctionKeys(aux, T1 + T2) == JunctionKeys(aux, T1) + JunctionKeys(aux, T2)
    ensures Extended(vm, aux, turn, T1 + T2, c0, c2)
  {
    JunctionKeysUnion(aux, T1, T2);
    Regroup(c0.Keys, JunctionKeys(aux, T1), JunctionKeys(aux, T2), JunctionKeys(aux, T1 + T2));
    forall t | t in T1 ensures Junction(aux, t) in c2 && c2[Junction(aux, t)] == TurnCost(vm, turn, t) {
      var k := Junction(aux, t);
      if k in JunctionKeys(aux, T2) {
        var t' :| t' in T2 && JunctionDefined(aux, t') && Junction(aux, t') == k;
        SameJunctionSameCost(vm, aux, turn, t, t');
      }
    }
  }

  /** The graph and metadata `read_graph` returns for vertex records `vm`
      and road edges `edges`, given an allocation `aux`: exactly the
      auxiliary vertices, exactly the segment and junction edges, every
      auxiliary vertex at its road vertex's position, every junction at its
      turn cost, and every segment that is not also a junction at cost 0. */
  ghost predicate Augmented<P>(vm: VertMap<P>, edges: set<Edge>, turn: (P, P, P) -> real, aux: AuxMap,
                               vertices: set<Vertex>, graphEdges: set<Edge>, meta: Metadata<P>) {
    && Allocated(vm, aux)
    && vertices == AuxIds(aux)
    && graphEdges == Segments(edges, aux) + JunctionKeys(aux, Triples(vm))
    && Positioned(vm, aux, meta.positions)
    && meta.costs.Keys == graphEdges
    && JunctionsCosted(vm, aux, turn, Triples(vm), meta.costs)
    && (forall s :: s in Segments(edges, aux) && s !in JunctionKeys(aux, Triples(vm)) ==> meta.costs[s] == 0.0)
  }

  /** `read_graph` from the construction of the graph on.  A KeyError
      exactly when an edge names a vertex without a record; otherwise a new
      graph and its metadata, built from some allocation of auxiliary ids
      as `Augmented` describes. */
  method ReadGraph<P>(at: map<Vertex, P>, edges: set<Edge>, turn: (P, P, P) -> real)
    returns (r: Outcome<(Digraph, Metadata<P>)>)
    ensures r.KeyError? <==> Dangling(at, edges)
    ensures r.KeyError? ==> r.key !in at && exists e :: e in edges && (e.0 == r.key || e.1 == r.key)
    ensures r.Value? ==> fresh(r.value.0) && r.value.0.Valid()
    ensures r.Value? ==> exists aux :: Augmented(VertexRecords(at, edges), edges, turn, aux,
                                                 r.value.0.Vertices(), r.value.0.Edges(), r.value.1)
  {
    var graph := new Digraph([]);
    assert Elements<Edge>([]) == {};
    assert Endpoints({}) == {};
    var records := AssignEdgeSets(at, edges);
    if records.KeyError? {
      return KeyError(records.key);
    }
    var vm := records.value;
    var aux, positions := AllocateAux(vm, graph);
    Wired(at, edges, aux);
    var costs := AddSegments(graph, edges, aux, map[]);
    ghost var segmentCosts := costs;
    costs := AddJunctions(graph, vm, aux, turn, costs);
    r := Value((graph, Metadata(positions, costs)));
    Assembled(vm, edges, turn, aux, graph.Vertices(), graph.Edges(), r.value.1, segmentCosts);
  }

  /** Every lookup the segment and junction phases make succeeds: both
      auxiliary vertices of each road edge, and of each junction, exist. */
  lemma Wired<P>(at: map<Vertex, P>, edges: set<Edge>, aux: AuxMap)
    requires !Dangling(at, edges) && Allocated(VertexRecords(at, edges), aux)
    ensures forall e :: e in edges ==> SegmentDefined(aux, e)
    ensures WellFormed(VertexRecords(at, edges), aux, Triples(VertexRecords(at, edges)))
  {
    var vm := VertexRecords(at, edges);
    forall e | e in edges ensures SegmentDefined(aux, e) {
      assert e in vm[e.0].oute && e.1 in Targets(vm[e.0].oute);
      assert e in vm[e.1].ine && e.0 in Sources(vm[e.1].ine);
    }
    forall t | t in Triples(vm) ensures JunctionDefined(aux, t) && CostDefined(vm, t) {
      var v, i, o := t.0, t.1, t.2;
      assert i in vm[v].ine && i.0 in Sources(vm[v].ine);
      assert o in vm[v].oute && o.1 in Targets(vm[v].oute);
    }
  }

  lemma Assembled<P>(vm: VertMap<P>, edges: set<Edge>, turn: (P, P, P) -> real, aux: AuxMap,
                     vertices: set<Vertex>, graphEdges: set<Edge>, meta: Metadata<P>, segmentCosts: map<Edge, real>)
    requires Allocated(vm, aux) && vertices == AuxIds(aux)
    requires graphEdges == ({} + Segments(edges, aux)) + JunctionKeys(aux, Triples(vm))
    requires Positioned(vm, aux, meta.positions)
    requires Recorded(map[], segmentCosts, Segments(edges, aux), 0.0)
    requires Extended(vm, aux, turn, Triples(vm), segmentCosts, meta.costs)
    ensures Augmented(vm, edges, turn, aux, vertices, graphEdges, meta)
  {
    assert {} + Segments(edges, aux) == Segments(edges, aux);
  }

  /** There are as many auxiliary ids as (road vertex, neighbour) pairs,
      so the built graph, whose vertices are the auxiliary ids, has one
      vertex per pair. */
  lemma AuxIdsCount(aux: AuxMap)
    requires Distinct(aux)
    ensures |AuxIds(aux)| == |AuxPairs(aux)|
  {
    var m := map p | p in AuxPairs(aux) :: aux[p.0][p.1];
    forall a, b | a in m && b in m && m[a] == m[b] ensures a == b {
      assert HasAux(aux, a.0, a.1) && HasAux(aux, b.0, b.1);
    }
    InjectiveValuesCard(m);
    PairIds(aux, m);
    assert m.Keys == AuxPairs(aux);
  }

  lemma PairIds(aux: AuxMap, m: map<(Vertex, Vertex), Vertex>)
    requires m == map p | p in AuxPairs(aux) :: aux[p.0][p.1]
    ensures m.Values == AuxIds(aux)
  {
    forall id | id in m.Values ensures id in AuxIds(aux) {
      var p :| p in m && m[p] == id;
    }
    forall id | id in AuxIds(aux) ensures id in m.Values {
      var v, u :| v in aux && u in aux[v] && id == aux[v][u];
      assert (v, u) in m;
    }
  }

  /** No auxiliary id is 0, so every vertex of the built graph is a
      vertex `least_cost_path` can trace back to. */
  lemma NoZeroVertex<P>(vm: VertMap<P>, edges: set<Edge>, turn: (P, P, P) -> real, aux: AuxMap,
                        vertices: set<Vertex>, graphEdges: set<Edge>, meta: Metadata<P>)
    requires Augmented(vm, edges, turn, aux, vertices, graphEdges, meta)
    ensures 0 !in vertices
  {
    if 0 in vertices {
      var v, u :| v in aux && u in aux[v] && 0 == aux[v][u];
      assert HasAux(aux, v, u);
    }
  }

  /** The segment of a road edge `(a, b)` with `a != b` is an edge of the
      graph at cost 0: it joins auxiliary vertices of two different road
      vertices, which no junction edge does. */
  lemma SegmentCost<P>(at: map<Vertex, P>, edges: set<Edge>, turn: (P, P, P) -> real, aux: AuxMap,
                       vertices: set<Vertex>, graphEdges: set<Edge>, meta: Metadata<P>, e: Edge)
    requires !Dangling(at, edges) && Augmented(VertexRecords(at, edges), edges, turn, aux, vertices, graphEdges, meta)
    requires e in edges && e.0 != e.1
    ensures SegmentDefined(aux, e)
    ensures (aux[e.0][e.1], aux[e.1][e.0]) in graphEdges
    ensures meta.costs[(aux[e.0][e.1], aux[e.1][e.0])] == 0.0
  {
    var vm := VertexRecords(at, edges);
    Wired(at, edges, aux);
    var s := (aux[e.0][e.1], aux[e.1][e.0]);
    assert s in Segments(edges, aux);
    if s in JunctionKeys(aux, Triples(vm)) {
      var t :| t in Triples(vm) && JunctionDefined(aux, t) && Junction(aux, t) == s;
      assert HasAux(aux, e.0, e.1) && HasAux(aux, t.0, t.1.0);
      assert HasAux(aux, e.1, e.0) && HasAux(aux, t.0, t.2.1);
    }
  }

  /** Turning at a vertex with exactly one in-edge and one out-edge is
      free; at any other vertex the junction costs `turn` of the three
      positions. */
  lemma JunctionCost<P>(at: map<Vertex, P>, edges: set<Edge>, turn: (P, P, P) -> real, aux: AuxMap,
                        vertices: set<Vertex>, graphEdges: set<Edge>, meta: Metadata<P>, a: Vertex, v: Vertex, c: Vertex)
    requires !Dangling(at, edges) && Augmented(VertexRecords(at, edges), edges, turn, aux, vertices, graphEdges, meta)
    requires (a, v) in edges && (v, c) in edges
    ensures HasAux(aux, v, a) && HasAux(aux, v, c)
    ensures (aux[v][a], aux[v][c]) in graphEdges
    ensures var vm := VertexRecords(at, edges);
            meta.costs[(aux[v][a], aux[v][c])] ==
              if |vm[v].ine| == 1 && |vm[v].oute| == 1 then 0.0 else turn(at[a], at[v], at[c])
  {
    var vm := VertexRecords(at, edges);
    Wired(at, edges, aux);
    var t := (v, (a, v), (v, c));
    assert t in Triples(vm);
  }

  /** With a non-negative angle term every edge of the built graph has a
      non-negative cost, which is what the least-cost search needs to
      return a cheapest route. */
  lemma CostsNonNegative<P>(at: map<Vertex, P>, edges: set<Edge>, turn: (P, P, P) -> real, aux: AuxMap,
                            vertices: set<Vertex>, graphEdges: set<Edge>, meta: Metadata<P>)
    requires !Dangling(at, edges) && Augmented(VertexRecords(at, edges), edges, turn, aux, vertices, graphEdges, meta)
    requires NonNegativeTurn(VertexRecords(at, edges), turn)
    ensures forall e :: e in meta.costs ==> meta.costs[e] >= 0.0
  {
    var vm := VertexRecords(at, edges);
    Wired(at, edges, aux);
    forall e | e in meta.costs ensures meta.costs[e] >= 0.0 {
      if e in JunctionKeys(aux, Triples(vm)) {
        var t :| t in Triples(vm) && JunctionDefined(aux, t) && Junction(aux, t) == e;
        assert meta.costs[e] == TurnCost(vm, turn, t);
      }
    }
  }
}
