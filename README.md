# Road-network digraphs and turn-aware least-cost routing

This project is a Dafny model of the graph core of a route-finding
server for a road map. It covers two source files.

- `digraph.py` defines a directed-graph class `Digraph` and three
  algorithms over it:
  - `least_cost_path`: Dijkstra's search with a caller-supplied edge
    cost;
  - `compress`: removes the cycles from a walk;
  - `spanning_tree`: a depth-first spanning tree built with an explicit
    stack.
- `read_graph` in `readgraph.py` builds the turn-aware "augmented" graph.
  Each road vertex becomes one auxiliary vertex per neighbour. A road
  edge becomes a *segment* edge between two auxiliary vertices. Each pair
  of an incoming and an outgoing road edge at a vertex becomes a
  *junction* edge, whose cost is the cost of turning there.

## Modules

- `Outcomes` (outcomes.dfy): `Option` and `Outcome`. `Outcome` is a
  value or a `KeyError(key)`. It models the dictionary lookups of the
  source that raise `KeyError`.
- `Walks` (walks.dfy): the graph theory the contracts are stated in.
  - Adjacency maps, edge sets, walks, paths from `s` to `d`,
    reachability and walk costs.
  - Vertex sets closed under edges.
  - Parent chains (`Trace`) ranked by visiting order.
- `Digraphs` (digraph.dfy): `class Digraph`.
  - It keeps the two fields of the source, `tosets` (successors) and
    `fromsets` (predecessors), as maps of sets.
  - The class invariant `Valid` says the two maps have the same vertices
    and are mirror images.
  - Each method states the whole new state of both maps. Each query is
    tied to the edge set.
- `LeastCost` (search.dfy): `least_cost_path`.
  - The method keeps the source's `todo`, `visited` and `parent`. It adds
    two ghost maps: settled costs, and the visiting order.
  - It is proved to return a path exactly when `dest` is reachable.
  - With non-negative costs, no walk from `start` to `dest` is cheaper
    than the path it returns.
- `Compression` (compress.dfy): `compress`. Its two loops are proved
  against a recursive definition. The lemmas show that the result of a
  path is again a path between the same endpoints, and that it repeats
  no vertex.
- `SpanningTree` (spanning.dfy): `spanning_tree`. The resulting graph:
  - is a tree of edges of `G`, rooted at `start`;
  - reaches every one of its vertices from `start`;
  - contains every vertex other than `start` that `start` reaches in `G`.
- `RoadGraph` (readgraph.py's builder, readgraph.dfy):
  - the phases of `read_graph` from line 114 on are methods, each proved
    against a specification function;
  - the result is characterised by the predicate `Augmented`;
  - lemmas derive the cost of each segment and each junction.

## Model

| member | source | states |
|---|---|---|
| Digraphs.Digraph.constructor | digraph.py:27-32 | The new graph is valid, its edges are exactly the listed edges, and its vertices are exactly their endpoints |
| Digraphs.Digraph.AddVertex | digraph.py:37-48 | A new vertex gets empty successor and predecessor sets. An existing vertex leaves both maps unchanged. The vertex set grows by `v`, the edge set is unchanged, and the invariant is kept |
| Digraphs.Digraph.AddEdge | digraph.py:50-72 | Both endpoints are added if absent, then the edge is recorded on both sides. Vertices grow by the two endpoints and edges by exactly `e`. Re-adding an edge changes nothing. The invariant is kept |
| Digraphs.AddEdgeKeeps | digraph.py:66-72 | Adding an edge to mirror-image maps keeps them mirror images, adds exactly that edge and its endpoints, and is a no-op for an edge already present |
| Digraphs.WithVertexKeeps | digraph.py:46-48 | Adding an isolated vertex keeps the maps consistent and the edge set unchanged |
| Digraphs.LinkKeeps | digraph.py:71-72 | Recording an edge in both maps keeps them consistent and adds exactly that edge |
| Digraphs.Digraph.Edges | digraph.py:74-81 | The edge set, read from the successor side, is the same set read from the predecessor side |
| Digraphs.Digraph.Vertices | digraph.py:83-87 | The vertex set is the key set of both maps |
| Digraphs.Digraph.NumEdges | digraph.py:95-99 | The sum of the out-degrees is the number of edges |
| Digraphs.EdgesOutGrow | digraph.py:97-98 | Adding a vertex's out-degree to the running sum adds exactly the edges leaving it |
| Digraphs.Digraph.NumVertices | digraph.py:101-105 | The result is the number of vertices |
| Digraphs.Digraph.AdjTo | digraph.py:107-120 | A KeyError exactly for a vertex not in the graph. Otherwise `w` is returned exactly when `v` is among `w`'s predecessors |
| Digraphs.Digraph.AdjFrom | digraph.py:122-134 | On a valid graph, a KeyError exactly for a missing vertex. Otherwise `u` is returned exactly when `(u, v)` is an edge |
| Digraphs.Digraph.IsPath | digraph.py:136-162 | `[]` is a path, and `[v]` is one exactly when `v` is a vertex. On a valid graph the result is true exactly when the list is a walk. The only KeyError is for a first vertex of two or more that is not in the graph |
| Digraphs.ScanSteps | digraph.py:159-162 | The loop returns true exactly when every remaining consecutive pair is an edge. On a closed graph it raises KeyError exactly when the first predecessor looked up is missing |
| Digraphs.ScanStepsWalk | digraph.py:157-162 | On a closed graph, "every consecutive pair is an edge" is the same as "is a walk" for lists of two or more vertices |
| Digraphs.IsPathExamples | digraph.py:141-145 | The documented examples: `[1,5,2,4,5]` is a path and `[1,5,4,2]` is not |
| Digraphs.ConstructorExamples | digraph.py:13-24 | The documented class examples: the empty graph has 0 vertices and 0 edges, and the circular graph on 1, 2, 3 has 3 of each |
| Digraphs.AddEdgeExample | digraph.py:50-63 | The documented `add_edge` example: after adding (1, 2), (2, 1), (3, 4) and (1, 2) again to the graph with vertices 1 and 2, there are 3 edges and 4 vertices |
| SpanningTree.SpanningTree | digraph.py:193-214 | A KeyError exactly when `start` is not a vertex. Otherwise the result is a fresh valid graph. Its edges are edges of `G`, no vertex has two incoming edges, and `start` has none. Every vertex is reachable from `start` in the tree. Every vertex other than `start` that is reachable in `G` is in the tree |
| SpanningTree.Step | digraph.py:202-212 | One pop of the stack keeps the DFS invariant and ties the tree's edges to the parent map. A KeyError arises only for `start`. Either the visited set grows or the stack shrinks |
| SpanningTree.PushSuccessors | digraph.py:210-212 | The stack keeps its old entries. Every unvisited successor of `cur` is pushed as `(n, (cur, n))`, and nothing else is pushed |
| SpanningTree.DfsStarts | digraph.py:197-198 | The initial stack `[(start, None)]` with nothing visited satisfies the invariant |
| SpanningTree.PopVisited | digraph.py:203-205 | Discarding an entry whose vertex is already visited keeps the invariant |
| SpanningTree.PushedEdge | digraph.py:208 | The edge stored with an entry is an edge of `G` from a visited vertex into the entry's vertex |
| SpanningTree.OnlyRootMissing | digraph.py:210 | `adj_to` can fail only on `start`, because every other entry was pushed along an edge |
| SpanningTree.VisitKeeps | digraph.py:207-212 | Visiting a new vertex, recording its edge and pushing its unvisited successors keeps the invariant |
| SpanningTree.VisitParents | digraph.py:207-208 | Visiting a new vertex records the tail of the edge it came along as its parent, and ranks it after every visited vertex. Parent links stay edges of `G` and strictly ordered by rank |
| Walks.VisitShrinks | digraph.py:207 | Visiting a new vertex shrinks the set of unvisited vertices, which ends both graph searches |
| SpanningTree.TreeEdgesAdd | digraph.py:208 | Recording a parent for a new vertex adds exactly that edge to the tree |
| SpanningTree.DfsDone | digraph.py:202 | When the stack is empty, every vertex reachable from `start` is visited. The tree edges are edges of `G`, each vertex has one parent, and `start` has none |
| SpanningTree.TreeReach | digraph.py:207-208 | Every vertex of the tree is reachable from `start` along tree edges |
| SpanningTree.TreeSpans | digraph.py:202-214 | The final tree satisfies `SpansFrom` |
| LeastCost.LeastCostPath | digraph.py:217-287 | A KeyError exactly when `start` is not a vertex. Otherwise: a path exactly when `dest` is reachable, and `[start]` when `dest == start`. The path runs from `start` to `dest`. With non-negative costs, no walk is cheaper |
| LeastCost.Visit | digraph.py:251-268 | One iteration of the search keeps the search invariant and visits one new vertex. A KeyError arises only for a missing `start` |
| LeastCost.MinimumExists | digraph.py:257 | A non-empty `todo` has an entry of least tentative cost |
| LeastCost.SettleIsOptimal | digraph.py:257-261 | With non-negative costs, no walk from `start` is cheaper than the least tentative cost |
| LeastCost.Settle | digraph.py:257-261 | Moving the cheapest vertex to the visited set sets up the relaxation loop's invariant |
| LeastCost.SettleOptimal | digraph.py:257-261 | With non-negative costs, every settled cost stays least |
| LeastCost.SettleFrontier | digraph.py:258-261 | Settling keeps visited and tentative vertices apart, and keeps each parent link an edge from a visited vertex |
| LeastCost.SettleRanked | digraph.py:261 | Settling keeps parent chains strictly ordered by visiting time |
| LeastCost.SettleCosted | digraph.py:258-261 | Settling keeps every cost equal to the cost of the vertex's parent chain |
| LeastCost.OnlyStartMissing | digraph.py:263 | `adj_to` can fail only on `start` |
| LeastCost.RelaxSuccessors | digraph.py:263-268 | After the relaxation loop, every successor of a visited vertex is visited or tentative. With non-negative costs, each tentative cost is at most the cost through any visited predecessor |
| LeastCost.RelaxImproves | digraph.py:266-268 | Lowering a successor's tentative cost and recording its parent keeps the loop invariant |
| LeastCost.RelaxSkips | digraph.py:264-266 | Skipping a visited successor, or one with no cheaper cost, keeps the loop invariant |
| LeastCost.SearchStarts | digraph.py:243-249 | The initial state satisfies the search invariant |
| LeastCost.SearchFound | digraph.py:272-283 | Once `dest` is visited, its parent chain is a path from `start` (`[start]` when `dest == start`). With non-negative costs it is a least-cost path |
| LeastCost.TraceIsPath | digraph.py:272-283 | The parent chain of a visited vertex is a path from `start` whose cost is its settled cost |
| LeastCost.SearchExhausted | digraph.py:285-287 | When `todo` runs empty without visiting `dest`, `dest` is unreachable |
| LeastCost.FollowParents | digraph.py:273-283 | The reconstruction loop returns the whole parent chain of `dest`, in order from the root |
| LeastCost.FollowParentsAsWritten | digraph.py:273-283 | The loop with the source's `while curnode:` returns the parent chain cut at vertex 0 |
| LeastCost.TruncatedTraceAgrees | digraph.py:275 | Without vertex 0, the cut chain is the whole chain |
| LeastCost.ZeroVertexDropped | digraph.py:275 | A concrete graph in which the as-written loop drops the start vertex from the path |
| LeastCost.PotentialBound | digraph.py:217-221 | A vertex potential that no edge lowers by more than the edge's cost bounds the cost of every walk from below; used to state the documented least cost |
| LeastCost.LeastCostPathExample | digraph.py:228-231 | In the documented example the expected answer `[1, 6, 7, 5]` is a path from 1 to 5 of cost 7, and no walk from 1 to 5 costs less |
| LeastCost.NoPathExample | digraph.py:233-237 | In the documented example with the isolated vertex 3, vertex 3 is not reachable from 1, so the search answers `None` |
| Compression.Compress | digraph.py:291-311 | The two loops return `Compressed(walk, 0)` |
| Compression.LastTimes | digraph.py:300-303 | The first loop maps every vertex of the walk, and nothing else, to the index of its last occurrence |
| Compression.LastTimesGrow | digraph.py:302-303 | Recording index `i` for `walk[i]` turns the map for the prefix before `i` into the map for the prefix through `i` |
| Compression.KeepAndJump | digraph.py:307-309 | One pass of the second loop keeps `walk[i]`, jumps strictly forward, and keeps the loop invariant |
| Compression.CompressedStep | digraph.py:308-309 | The vertex at `i` is kept, then whatever is kept after its last occurrence, which is at or after `i` |
| Compression.LastIndex | digraph.py:300-303 | The recorded index is the last occurrence of the vertex, and -1 for a vertex not in the walk |
| Compression.CompressedFrom | digraph.py:305-309 | Every kept vertex occurs in the walk at or after its position |
| Compression.CompressedDistinct | digraph.py:292-293 | No vertex is kept twice |
| Compression.CompressedEnds | digraph.py:305-309 | The result starts with the first vertex of the walk and ends with its last |
| Compression.CompressedSteps | digraph.py:305-309 | Each consecutive pair of the result is a consecutive pair of the walk |
| Compression.CompressedPath | digraph.py:291-311 | Compressing a path from `s` to `d` gives a path from `s` to `d` with no repeated vertex |
| Compression.CompressKeepsPath | digraph.py:294-295 | The documented example `[1,2,3,4]` is kept whole |
| Compression.CompressCutsCycles | digraph.py:296-297 | The documented example `[1,3,0,1,6,4,8,6,2]` becomes `[1,6,2]` |
| RoadGraph.AssignEdgeSets | readgraph.py:121-124 | A KeyError exactly when an edge names a vertex without a record, and the key is such a vertex. Otherwise every record keeps its position, and each edge is in the `oute` of its tail and the `ine` of its head, and nowhere else |
| RoadGraph.AssignStep | readgraph.py:123-124 | Recording one edge adds it to exactly its tail's `oute` and its head's `ine` |
| RoadGraph.AllocateVertex | readgraph.py:133-140 | One auxiliary id per neighbour. The ids are distinct and lie among the next values of the counter, as many as the vertex has incident edges, and the counter advances by that number; a neighbour at both ends leaves a gap where its in-edge id was. An out-neighbour's id comes from the out-edge pass, overriding the in-edge pass |
| RoadGraph.NumberSources | readgraph.py:135-137 | The in-edge pass gives the source neighbours distinct ids among the next values of the counter, as many as `ine` has edges, and advances the counter by that number |
| RoadGraph.NumberTargets | readgraph.py:138-140 | The out-edge pass gives each target neighbour a fresh id at or above the counter, and every other neighbour keeps the id the in-edge pass gave it |
| RoadGraph.NumberNext | readgraph.py:136-137 | Assigning the next counter value keeps the ids distinct and in range |
| RoadGraph.TargetStep | readgraph.py:139-140 | One step of the out-edge pass keeps the pass invariant |
| RoadGraph.AddAuxVertices | readgraph.py:141-143 | Each new auxiliary id becomes a vertex positioned at its road vertex. No edge is added |
| RoadGraph.AllocateAux | readgraph.py:129-144 | The graph's vertices are exactly the auxiliary ids, with no edges. Every road vertex has one id per neighbour, ids are distinct and at least 1, and each id is positioned at its road vertex |
| RoadGraph.AllocateNext | readgraph.py:132-144 | Allocating one road vertex keeps the allocation invariant and adds its ids as vertices |
| RoadGraph.AllocateStep | readgraph.py:132-144 | One vertex's allocation extends the allocation invariant and the id set |
| RoadGraph.AllocateIds | readgraph.py:144 | Adding one vertex's map adds exactly its ids to the set of auxiliary ids |
| RoadGraph.AllocateDistinct | readgraph.py:133-140 | Fresh ids above the counter keep all auxiliary ids distinct |
| RoadGraph.AllocatePositions | readgraph.py:141-142 | Recording a vertex's ids at its position keeps every id positioned |
| RoadGraph.AllocateDone | readgraph.py:132 | Once every road vertex is allocated, the allocation is complete |
| RoadGraph.AuxIdsCount | readgraph.py:130-144 | There is exactly one auxiliary vertex per (road vertex, neighbour) pair |
| RoadGraph.NoZeroVertex | readgraph.py:131 | Ids start at 1, so the built graph has no vertex 0 |
| RoadGraph.AddSegments | readgraph.py:146-149 | Adds exactly the segment edges `(aux[a][b], aux[b][a])` of the road edges, each at cost 0, and no vertex |
| RoadGraph.AddCostedEdge | readgraph.py:148-149 | Adds one edge and records its cost, overwriting any earlier cost |
| RoadGraph.SegmentsAdd | readgraph.py:147-148 | One more road edge adds exactly its segment |
| RoadGraph.AddJunctions | readgraph.py:151-177 | Adds exactly the junction edges `(aux[v][a], aux[v][c])` for every in-edge `(a, v)` and out-edge `(v, c)`, and no vertex. Each junction is at its turn cost |
| RoadGraph.JunctionsAt | readgraph.py:152-177 | The junctions at one road vertex |
| RoadGraph.JunctionsThrough | readgraph.py:155-177 | The junctions from one in-edge to every out-edge of its vertex |
| RoadGraph.JunctionStep | readgraph.py:156-158 | Both lookups of a junction succeed, and the junction adds exactly one edge |
| RoadGraph.JunctionCostStep | readgraph.py:159-177 | Recording one junction at its turn cost extends the junction invariant |
| RoadGraph.SameJunctionSameCost | readgraph.py:176-177 | Two turns that give the same junction edge have the same cost, so a later write never changes an earlier junction's cost |
| RoadGraph.Compose | readgraph.py:152-177 | Junctions recorded in two successive passes are all recorded at their turn costs |
| RoadGraph.ExtendOne | readgraph.py:176-177 | Recording one junction records it at its turn cost |
| RoadGraph.Wired | readgraph.py:147-158 | With no dangling edge, every auxiliary lookup of the segment and junction passes succeeds |
| RoadGraph.Assembled | readgraph.py:179-180 | The phases together satisfy `Augmented` |
| RoadGraph.ReadGraph | readgraph.py:114-180 | A KeyError exactly when an edge names a vertex without a record. Otherwise a fresh valid graph with exactly the auxiliary vertices, exactly the segment and junction edges, every auxiliary vertex at its road vertex's position, and every edge costed |
| RoadGraph.SegmentCost | readgraph.py:147-149 | A road edge that is not a self-loop gives a segment edge of cost 0 |
| RoadGraph.JunctionCost | readgraph.py:155-177 | For road edges `(a, v)` and `(v, c)`, the junction `(aux[v][a], aux[v][c])` is an edge. It costs 0 when `v` has exactly one in-edge and one out-edge, and `turn(at[a], at[v], at[c])` otherwise |
| RoadGraph.TurnCost | readgraph.py:159-173 | The cost of a turn is 0 at a vertex with exactly one in-edge and one out-edge, and is never negative when the angle term is not |
| RoadGraph.CostsNonNegative | readgraph.py:146-177 | When the angle term is non-negative on the recorded positions (`acos` lies in [0, pi]), every edge of the built graph has a non-negative cost, which the least-cost search needs to return a cheapest route |

## Left out

- The rest of the repository is not part of this model: the serial-port
  request loop (server.py), the map-file tool (readgraph_tool.py), `Digraph.draw`,
  `__repr__`, `random_graph` and the doctest driver. They are I/O or
  randomness around the core.
- RoadGraph.ReadGraph: the parsing of the map file (readgraph.py:72-111)
  is left out, as are the old commented-out parser (13-67) and the unused
  `get_aux_verts` stub (116-119). The input is the parsed records: a map
  from vertex to position, and the set of edges.
- RoadGraph.ReadGraph: edge names (`edge_map[(start, stop)] = name`) are
  dropped. No part of the builder reads them.
- RoadGraph.ReadGraph: `metadata` is one dictionary keyed by both
  auxiliary ids and edges. It is modelled as two maps, `positions` and
  `costs`, because the two kinds of keys never meet.
- RoadGraph.ReadGraph: the angle formula (readgraph.py:165-173, `acos`
  of a normalised dot product times 10) is floating-point geometry. It is
  the parameter `turn`, applied to the positions of `a`, `v` and `c`.
  The source can raise on degenerate geometry (for example coincident
  points), and that is not modelled. Costs are `real`, not floats.
- RoadGraph.ReadGraph: the result is stated for *some* allocation of
  auxiliary ids with the stated properties. The exact numbering depends
  on the iteration order of dictionaries and sets, which is not modelled.
- RoadGraph.SegmentCost: does not cover the self-loop road edge
  `(v, v)`. Its segment is also a junction edge at `v`. When `v` has one
  in-edge and one out-edge the junction pass writes cost 0 again
  (readgraph.py:159-160). At any other vertex one direction of the turn
  is `at[v] - at[v]`, of length zero, so the source divides by zero at
  readgraph.py:172 and raises before line 177 writes anything. The model's
  `turn` is total and gives that segment the turn cost instead; this is
  the degenerate geometry noted above.
- Digraphs.Digraph: vertices are integers. The class accepts any
  immutable value as a vertex; every vertex the rest of the system builds
  is an integer id.
- LeastCost.LeastCostPath: `cost` is a total function from edges to
  reals. A Python cost function can raise (for example a dictionary
  lookup on an edge it does not know), and that exception is not modelled.
- LeastCost.LeastCostPath: optimality is stated only for non-negative
  costs. The source accepts any cost function, and with negative costs
  Dijkstra's search gives no guarantee.
- LeastCost.LeastCostPath: ties in `min` over the tentative costs are
  resolved by an arbitrary choice. The source takes the first minimum in
  dictionary order, so the model's path may differ from the source's
  among equally cheap ones.
- Set iteration order in `spanning_tree`, `num_edges` and `read_graph`
  is an arbitrary choice in the model. Which spanning tree is built
  depends on it, and the contracts hold for every order.
- Digraphs.Digraph.AdjTo: the source returns the stored set itself, so a
  caller that mutates it changes the graph. The model returns the set
  as a value, so this aliasing is not captured.

## Findings

| source | as written | input that shows it | evidently intended | confidence | as-written member | corrected member |
|---|---|---|---|---|---|---|
| digraph.py:275 | `while curnode:` stops the walk back from `dest` at vertex 0 as well as at the root, so a path through vertex 0 loses 0 and everything before it | the graph with the single edge (0, 5): `least_cost_path(G, 0, 5, cost)` returns `[5]` instead of `[0, 5]`, and `dest == start == 0` gives `[]` | stop only when there is no parent (`while curnode is not None`) | high (not executed) | LeastCost.FollowParentsAsWritten, LeastCost.ZeroVertexDropped | LeastCost.FollowParents |

`LeastCostPath` uses the corrected loop, so it needs no restriction on
vertex 0. The graphs built by `read_graph` never contain vertex 0
(`RoadGraph.NoZeroVertex`). On those graphs the two loops agree
(`LeastCost.TruncatedTraceAgrees`).
