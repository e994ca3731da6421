/** learning/algorithms/examples/graph_dp_lab.py: Dijkstra with stale heap entries skipped. */
module Dijkstra {
  import opened Graphs

  datatype Distance = Infinite | Finite(value: int)
  datatype Entry = Entry(distance: int, node: Vertex)
  datatype Outcome = NegativeWeight | Distances(dist: map<Vertex, Distance>)

  predicate AtMost(a: Distance, b: Distance) {
    b.Infinite? || (a.Finite? && a.value <= b.value)
  }

  predicate HasNegative(graph: Graph) {
    exists v, e | v in graph && e in graph[v] :: e.weight < 0
  }

  /** d is the least cost of a path to v, and Infinite exactly when there is none. */
  ghost predicate IsDistance(graph: Graph, source: Vertex, v: Vertex, d: Distance) {
    && (d.Finite? ==> CostReachable(graph, source, v, d.value))
    && forall p :: IsPath(graph, source, p, v) ==> d.Finite? && d.value <= Cost(p)
  }

  /** The first `count` edges out of u have been relaxed. */
  ghost predicate Relaxed(graph: Graph, dist: map<Vertex, Distance>, u: Vertex, count: nat)
    requires u in graph && count <= |graph[u]|
  {
    dist.Keys == graph.Keys && dist[u].Finite? &&
    forall i | 0 <= i < count :: var e := graph[u][i];
      e.target in dist && AtMost(dist[e.target], Finite(dist[u].value + e.weight))
  }

  /** Every finite entry of the table is the cost of some path. */
  ghost predicate TableSound(graph: Graph, source: Vertex, dist: map<Vertex, Distance>) {
    && dist.Keys == graph.Keys && source in dist && dist[source] == Finite(0)
    && forall v | v in dist && dist[v].Finite? :: CostReachable(graph, source, v, dist[v].value)
  }

  /** Heap entries never undercut the table or the distance popped last. */
  ghost predicate HeapSound(dist: map<Vertex, Distance>, heap: multiset<Entry>, floor: int) {
    forall e | e in heap :: e.node in dist && floor <= e.distance && AtMost(dist[e.node], Finite(e.distance))
  }

  /** A vertex that was reached but not expanded has exactly one current entry. */
  ghost predicate Pending(dist: map<Vertex, Distance>, heap: multiset<Entry>, expanded: seq<Vertex>) {
    forall v | v in dist && dist[v].Finite? && v !in expanded :: heap[Entry(dist[v].value, v)] == 1
  }

  /** An expanded vertex is settled: it lies below the floor and has no current entry. */
  ghost predicate Settled(dist: map<Vertex, Distance>, heap: multiset<Entry>, expanded: seq<Vertex>, floor: int) {
    forall v | v in expanded :: v in dist && dist[v].Finite? && dist[v].value <= floor
                             && heap[Entry(dist[v].value, v)] == 0
  }

  ghost predicate AllRelaxed(graph: Graph, dist: map<Vertex, Distance>, us: seq<Vertex>) {
    forall u | u in us :: u in graph && Relaxed(graph, dist, u, |graph[u]|)
  }

  /** What the loop keeps: `expanded` lists the vertices popped with their current distance,
      `floor` is the distance popped last. */
  ghost predicate Consistent(graph: Graph, source: Vertex, dist: map<Vertex, Distance>,
                             heap: multiset<Entry>, expanded: seq<Vertex>, floor: int)
  {
    && floor >= 0
    && TableSound(graph, source, dist) && HeapSound(dist, heap, floor)
    && Pending(dist, heap, expanded) && Settled(dist, heap, expanded, floor)
  }

  ghost predicate Ordered(dist: map<Vertex, Distance>, expanded: seq<Vertex>) {
    && (forall i | 0 <= i < |expanded| :: expanded[i] in dist && dist[expanded[i]].Finite?)
    && forall i, j | 0 <= i < j < |expanded| ::
         expanded[i] != expanded[j] && dist[expanded[i]].value <= dist[expanded[j]].value
  }

  lemma {:induction false} LeastEntry(heap: multiset<Entry>) returns (least: Entry)
    requires heap != multiset{}
    ensures least in heap && forall e | e in heap :: least.distance <= e.distance
    decreases |heap|
  {
    least :| least in heap;
    var rest := heap - multiset{least};
    assert heap == rest + multiset{least};
    if rest != multiset{} {
      var other := LeastEntry(rest);
      if other.distance < least.distance {
        least := other;
      }
    }
  }

  /** `heappop`: any entry of least distance; ties may be broken either way. */
  method HeapPop(heap: multiset<Entry>) returns (top: Entry, rest: multiset<Entry>)
    requires heap != multiset{}
    ensures top in heap && rest == heap - multiset{top}
    ensures forall e | e in heap :: top.distance <= e.distance
  {
    ghost var least := LeastEntry(heap);
    top :| top in heap && forall e | e in heap :: top.distance <= e.distance;
    rest := heap - multiset{top};
  }

  /** A popped entry that matches the table expands a new vertex; any other one is stale and changes nothing. */
  lemma PopKeeps(graph: Graph, source: Vertex, dist: map<Vertex, Distance>, heap: multiset<Entry>,
                 expanded: seq<Vertex>, floor: int, top: Entry)
    requires Consistent(graph, source, dist, heap, expanded, floor) && Ordered(dist, expanded)
    requires top in heap && forall e | e in heap :: top.distance <= e.distance
    ensures top.node in dist
    ensures var rest := heap - multiset{top};
      if Finite(top.distance) == dist[top.node] then
        && top.node !in expanded
        && Consistent(graph, source, dist, rest, expanded + [top.node], top.distance)
        && Ordered(dist, expanded + [top.node])
      else
        Consistent(graph, source, dist, rest, expanded, top.distance)
  {
    PopHeap(dist, heap, floor, top);
    PopPending(dist, heap, expanded, floor, top);
    PopSettled(dist, heap, expanded, floor, top);
    if Finite(top.distance) == dist[top.node] {
      PopOrdered(dist, heap, expanded, floor, top);
    }
    hide TableSound, HeapSound, Pending, Settled, Ordered;
  }

  lemma PopHeap(dist: map<Vertex, Distance>, heap: multiset<Entry>, floor: int, top: Entry)
    requires HeapSound(dist, heap, floor) && top in heap && forall e | e in heap :: top.distance <= e.distance
    ensures top.node in dist && floor <= top.distance
    ensures HeapSound(dist, heap - multiset{top}, top.distance)
  {}

  lemma PopPending(dist: map<Vertex, Distance>, heap: multiset<Entry>, expanded: seq<Vertex>, floor: int, top: Entry)
    requires HeapSound(dist, heap, floor) && Pending(dist, heap, expanded) && top in heap
    ensures top.node in dist
    ensures Pending(dist, heap - multiset{top},
                    if Finite(top.distance) == dist[top.node] then expanded + [top.node] else expanded)
  {}

  lemma PopSettled(dist: map<Vertex, Distance>, heap: multiset<Entry>, expanded: seq<Vertex>, floor: int, top: Entry)
    requires HeapSound(dist, heap, floor) && top in heap && top.node in dist
    requires Pending(dist, heap, expanded) && Settled(dist, heap, expanded, floor)
    ensures Settled(dist, heap - multiset{top},
                    if Finite(top.distance) == dist[top.node] then expanded + [top.node] else expanded, top.distance)
  {}

  lemma PopOrdered(dist: map<Vertex, Distance>, heap: multiset<Entry>, expanded: seq<Vertex>, floor: int, top: Entry)
    requires HeapSound(dist, heap, floor) && top in heap && Settled(dist, heap, expanded, floor)
    requires Ordered(dist, expanded) && top.node in dist && Finite(top.distance) == dist[top.node]
    ensures top.node !in expanded && Ordered(dist, expanded + [top.node])
  {
    assert top == Entry(dist[top.node].value, top.node);
    var longer := expanded + [top.node];
    forall i, j | 0 <= i < j < |longer|
      ensures longer[i] != longer[j] && dist[longer[i]].value <= dist[longer[j]].value
    {
      assert longer[i] == expanded[i] && expanded[i] in expanded;
    }
  }

  lemma OneMoreEdge(graph: Graph, source: Vertex, u: Vertex, e: Edge, d: int)
    requires u in graph && e in graph[u] && CostReachable(graph, source, u, d)
    ensures CostReachable(graph, source, e.target, d + e.weight)
  {
    var p :| IsPath(graph, source, p, u) && Cost(p) == d;
    var q := Extend(p, u, e.weight);
    assert IsPath(graph, source, q, e.target) && Cost(q) == d + e.weight;
  }

  /** Improving one neighbour of the vertex just expanded keeps the table and the heap consistent. */
  lemma RelaxKeeps(graph: Graph, source: Vertex, dist: map<Vertex, Distance>, heap: multiset<Entry>,
                   expanded: seq<Vertex>, node: Vertex, e: Edge)
    requires Closed(graph) && node in expanded && node in graph && e in graph[node] && e.weight >= 0
    requires node in dist && dist[node].Finite?
    requires Consistent(graph, source, dist, heap, expanded, dist[node].value)
    requires e.target in dist && !AtMost(dist[e.target], Finite(dist[node].value + e.weight))
    ensures e.target !in expanded
    ensures var candidate := dist[node].value + e.weight;
      Consistent(graph, source, dist[e.target := Finite(candidate)], heap + multiset{Entry(candidate, e.target)},
                 expanded, dist[node].value)
  {
    hide CostReachable, Closed;
    var floor := dist[node].value;
    var candidate, t := floor + e.weight, e.target;
    var dist', heap' := dist[t := Finite(candidate)], heap + multiset{Entry(candidate, t)};
    OneMoreEdge(graph, source, node, e, floor);
    assert TableSound(graph, source, dist');
    assert HeapSound(dist', heap', floor);
    assert heap[Entry(candidate, t)] == 0;
    assert Pending(dist', heap', expanded);
    assert Settled(dist', heap', expanded, floor);
  }

  /** Lowering the distance of a vertex that is not expanded keeps all other bookkeeping. */
  lemma LoweringKeeps(graph: Graph, dist: map<Vertex, Distance>, t: Vertex, d: int,
                      expanded: seq<Vertex>, node: Vertex, count: nat)
    requires t in dist && t !in expanded && !AtMost(dist[t], Finite(d)) && Ordered(dist, expanded + [node])
    requires t != node && node in graph && count <= |graph[node]|
    requires AllRelaxed(graph, dist, expanded) && Relaxed(graph, dist, node, count)
    ensures AllRelaxed(graph, dist[t := Finite(d)], expanded)
    ensures Relaxed(graph, dist[t := Finite(d)], node, count)
    ensures Ordered(dist[t := Finite(d)], expanded + [node])
  {
    var dist' := dist[t := Finite(d)];
    assert AtMost(dist'[t], dist[t]);
    assert forall i | 0 <= i < |expanded + [node]| :: (expanded + [node])[i] != t;
  }

  function InitialTable(graph: Graph, source: Vertex): map<Vertex, Distance> {
    map v | v in graph :: if v == source then Finite(0) else Infinite
  }

  lemma InitiallyConsistent(graph: Graph, source: Vertex)
    requires source in graph
    ensures Consistent(graph, source, InitialTable(graph, source), multiset{Entry(0, source)}, [], 0)
    ensures Ordered(InitialTable(graph, source), []) && AllRelaxed(graph, InitialTable(graph, source), [])
  {
    assert IsPath(graph, source, Start, source) && Cost(Start) == 0;
  }

  lemma {:induction false} PathsAreCovered(graph: Graph, source: Vertex, dist: map<Vertex, Distance>,
                                           expanded: seq<Vertex>, floor: int, p: Path, v: Vertex)
    requires Closed(graph) && source in graph && Consistent(graph, source, dist, multiset{}, expanded, floor)
    requires AllRelaxed(graph, dist, expanded)
    requires IsPath(graph, source, p, v)
    ensures v in expanded && dist[v].value <= Cost(p)
  {
    match p
    case Start =>
    case Extend(q, u, w) =>
      PathsAreCovered(graph, source, dist, expanded, floor, q, u);
      var i :| 0 <= i < |graph[u]| && graph[u][i] == Edge(v, w);
      assert AtMost(dist[graph[u][i].target], Finite(dist[u].value + w));
  }

  lemma FinalDistances(graph: Graph, source: Vertex, dist: map<Vertex, Distance>,
                       expanded: seq<Vertex>, floor: int)
    requires Closed(graph) && source in graph && Consistent(graph, source, dist, multiset{}, expanded, floor)
    requires AllRelaxed(graph, dist, expanded)
    ensures forall v | v in graph :: IsDistance(graph, source, v, dist[v])
    ensures forall v | v in graph :: v in expanded <==> Reachable(graph, source, v)
  {
    forall v | v in graph
      ensures IsDistance(graph, source, v, dist[v])
      ensures v in expanded <==> Reachable(graph, source, v)
    {
      forall p | IsPath(graph, source, p, v) ensures v in expanded && dist[v].value <= Cost(p) {
        PathsAreCovered(graph, source, dist, expanded, floor, p, v);
      }
    }
  }

  ghost function Unexpanded(graph: Graph, expanded: seq<Vertex>): set<Vertex> {
    graph.Keys - (set v | v in expanded)
  }

  lemma FewerUnexpanded(graph: Graph, expanded: seq<Vertex>, v: Vertex)
    requires v in graph && v !in expanded
    ensures Unexpanded(graph, expanded + [v]) < Unexpanded(graph, expanded)
  {
    assert v in Unexpanded(graph, expanded);
  }

  lemma RelaxedNext(graph: Graph, dist: map<Vertex, Distance>, u: Vertex, i: nat)
    requires u in graph && i < |graph[u]| && Relaxed(graph, dist, u, i)
    requires graph[u][i].target in dist && AtMost(dist[graph[u][i].target], Finite(dist[u].value + graph[u][i].weight))
    ensures Relaxed(graph, dist, u, i + 1)
  {}

  lemma ScanStarts(graph: Graph, dist: map<Vertex, Distance>, u: Vertex)
    requires dist.Keys == graph.Keys && u in graph && dist[u].Finite?
    ensures Relaxed(graph, dist, u, 0)
  {}

  lemma ScanEnds(graph: Graph, dist: map<Vertex, Distance>, us: seq<Vertex>, u: Vertex)
    requires u in graph && AllRelaxed(graph, dist, us) && Relaxed(graph, dist, u, |graph[u]|)
    ensures AllRelaxed(graph, dist, us + [u])
  {}

  /** The loop over the edges of the vertex just expanded. */
  method RelaxEdges(graph: Graph, source: Vertex, table: map<Vertex, Distance>, entries: multiset<Entry>,
                    node: Vertex, distance: int, ghost before: seq<Vertex>)
    returns (dist: map<Vertex, Distance>, heap: multiset<Entry>)
    requires Closed(graph) && !HasNegative(graph) && node in graph && table.Keys == graph.Keys
    requires Consistent(graph, source, table, entries, before + [node], distance) && Ordered(table, before + [node])
    requires table[node] == Finite(distance) && node !in before && AllRelaxed(graph, table, before)
    ensures dist.Keys == graph.Keys && dist[node] == Finite(distance)
    ensures Consistent(graph, source, dist, heap, before + [node], distance) && Ordered(dist, before + [node])
    ensures AllRelaxed(graph, dist, before) && Relaxed(graph, dist, node, |graph[node]|)
  {
    hide Consistent, Ordered, AllRelaxed, Relaxed;
    dist, heap := table, entries;
    ghost var expanded := before + [node];
    ScanStarts(graph, dist, node);
    for i := 0 to |graph[node]|
      invariant dist.Keys == graph.Keys && Consistent(graph, source, dist, heap, expanded, distance)
      invariant dist[node] == Finite(distance) && Ordered(dist, expanded)
      invariant AllRelaxed(graph, dist, before) && Relaxed(graph, dist, node, i)
    {
      var edge := graph[node][i];
      var candidate := distance + edge.weight;
      assert edge in graph[node] && edge.weight >= 0 && edge.target in dist;
      if !AtMost(dist[edge.target], Finite(candidate)) {
        RelaxKeeps(graph, source, dist, heap, expanded, node, edge);
        LoweringKeeps(graph, dist, edge.target, candidate, before, node, i);
        dist := dist[edge.target := Finite(candidate)];
        heap := heap + multiset{Entry(candidate, edge.target)};
      }
      RelaxedNext(graph, dist, node, i);
    }
  }

  method ShortestPaths(graph: Graph, source: Vertex) returns (r: Outcome, ghost expanded: seq<Vertex>)
    requires Closed(graph) && source in graph
    ensures r.NegativeWeight? <==> exists v, e | v in graph && e in graph[v] :: e.weight < 0
    ensures r.Distances? ==> r.dist.Keys == graph.Keys
    ensures r.Distances? ==> forall v | v in graph :: IsDistance(graph, source, v, r.dist[v])
    // Each vertex is expanded at most once, nearest first, and exactly the reachable ones are.
    ensures r.Distances? ==> Ordered(r.dist, expanded)
    ensures r.Distances? ==> forall v | v in graph :: v in expanded <==> Reachable(graph, source, v)
  {
    hide Consistent, IsPath, Ordered, AllRelaxed, Relaxed, Unexpanded, IsDistance, Reachable;
    expanded := [];
    if HasNegative(graph) {
      return NegativeWeight, [];
    }
    var dist := InitialTable(graph, source);
    var heap := multiset{Entry(0, source)};
    ghost var floor := 0;
    InitiallyConsistent(graph, source);
    while heap != multiset{}
      invariant dist.Keys == graph.Keys && Consistent(graph, source, dist, heap, expanded, floor)
      invariant Ordered(dist, expanded) && AllRelaxed(graph, dist, expanded)
      decreases Unexpanded(graph, expanded), |heap|
    {
      var top, rest := HeapPop(heap);
      PopKeeps(graph, source, dist, heap, expanded, floor, top);
      heap := rest;
      floor := top.distance;
      var distance, node := top.distance, top.node;
      if Finite(distance) != dist[node] {
        continue;
      }
      ghost var before := expanded;
      expanded := expanded + [node];
      FewerUnexpanded(graph, before, node);
      dist, heap := RelaxEdges(graph, source, dist, heap, node, distance, before);
      ScanEnds(graph, dist, before, node);
    }
    FinalDistances(graph, source, dist, expanded, floor);
    r := Distances(dist);
  }
}
