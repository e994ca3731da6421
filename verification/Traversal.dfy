/** learning/algorithms/examples/graph_dp_lab.py: breadth-first and depth-first traversal.
    An unweighted adjacency list is a Graph whose weights are ignored. */
module Traversal {
  import opened Graphs

  ghost predicate Distinct(vs: seq<Vertex>) {
    forall i, j | 0 <= i < j < |vs| :: vs[i] != vs[j]
  }

  ghost function Members(vs: seq<Vertex>): set<Vertex> {
    set v | v in vs
  }

  /** n is the least number of edges on a path to v. */
  ghost predicate IsHopDistance(graph: Graph, source: Vertex, v: Vertex, n: nat) {
    && HopReachable(graph, source, v, n)
    && forall p :: IsPath(graph, source, p, v) ==> n <= Hops(p)
  }

  // --- Breadth first ---

  /** `found` is everything discovered, in order; level holds the hop count it was discovered with. */
  ghost predicate Discovered(graph: Graph, source: Vertex, found: seq<Vertex>, level: map<Vertex, nat>) {
    && level.Keys == Members(found) && Distinct(found)
    && source in found && level[source] == 0
    && (forall v | v in found :: v in graph && HopReachable(graph, source, v, level[v]))
  }

  /** Levels never fall along the discovery order, and the queue spans at most two of them. */
  ghost predicate Layered(found: seq<Vertex>, level: map<Vertex, nat>, front: nat) {
    && (forall v | v in found :: v in level)
    && (forall i, j | 0 <= i < j < |found| :: level[found[i]] <= level[found[j]])
    && (front < |found| ==> forall i | 0 <= i < |found| :: level[found[i]] <= level[found[front]] + 1)
  }

  /** The first `count` neighbours of u are discovered, at most one level below it. */
  ghost predicate Spread(graph: Graph, level: map<Vertex, nat>, u: Vertex, count: nat) {
    && u in graph && u in level && count <= |graph[u]|
    && forall i | 0 <= i < count :: graph[u][i].target in level && level[graph[u][i].target] <= level[u] + 1
  }

  ghost predicate AllSpread(graph: Graph, level: map<Vertex, nat>, us: seq<Vertex>) {
    forall u | u in us :: u in graph && Spread(graph, level, u, |graph[u]|)
  }

  method Bfs(graph: Graph, start: Vertex) returns (order: seq<Vertex>, ghost level: map<Vertex, nat>)
    requires Closed(graph) && start in graph
    ensures Distinct(order)
    ensures forall v :: v in order <==> Reachable(graph, start, v)
    ensures forall v | v in order :: v in level && IsHopDistance(graph, start, v, level[v])
    ensures forall i, j | 0 <= i < j < |order| :: level[order[i]] <= level[order[j]]
    // The start, then the neighbours of each listed vertex in turn, first mentions only.
    ensures order == FirstMentions([start] + Mentions(graph, order))
  {
    hide Discovered, Spread, AllSpread, Layered, IsPath, Members, IsHopDistance, Lists;
    order := [];
    var queue := [start];
    var visited := {start};
    level := map[start := 0];
    ghost var found := [start];
    StartDiscovered(graph, start);
    StartListed(graph, start);
    while queue != []
      invariant found == order + queue && visited == level.Keys
      invariant Discovered(graph, start, found, level) && Layered(found, level, |order|)
      invariant AllSpread(graph, level, order) && Lists(graph, start, found, order, [])
      decreases graph.Keys - Members(order)
    {
      var node := queue[0];
      queue := queue[1..];
      ghost var before := order;
      order := order + [node];
      assert found == before + [node] + queue;
      assert found[..|before|] == before;
      PopFront(graph, start, found, level, |before|);
      ghost var targets := Targets(graph[node]);
      for i := 0 to |graph[node]|
        invariant found == before + [node] + queue && visited == level.Keys && node in level
        invariant Discovered(graph, start, found, level) && Layered(found, level, |before|)
        invariant AllSpread(graph, level, before) && Spread(graph, level, node, i)
        invariant Lists(graph, start, found, before, targets[..i])
      {
        var neighbor := graph[node][i].target;
        ListNext(graph, start, found, level, before, targets, i);
        if neighbor !in visited {
          DiscoverKeeps(graph, start, found, level, |before|, i);
          SpreadStays(graph, level, before, node, i, neighbor, level[node] + 1);
          visited := visited + {neighbor};
          queue := queue + [neighbor];
          found := found + [neighbor];
          level := level[neighbor := level[node] + 1];
        }
        SpreadNext(graph, start, found, level, |before|, i);
      }
      FrontSpread(graph, level, before, found, node);
      ListDone(graph, start, found, before, node);
    }
    assert found == order;
    ListedAll(graph, start, order);
    BfsComplete(graph, start, order, level);
  }

  /** The neighbours of these vertices, list after list. */
  ghost function Mentions(graph: Graph, vs: seq<Vertex>): seq<Vertex> {
    if vs == [] then []
    else
      var v := vs[|vs| - 1];
      Mentions(graph, vs[..|vs| - 1]) + (if v in graph then Targets(graph[v]) else [])
  }

  /** The sequence without its repetitions. */
  ghost function FirstMentions(vs: seq<Vertex>): seq<Vertex> {
    if vs == [] then []
    else
      var most, last := vs[..|vs| - 1], vs[|vs| - 1];
      if last in most then FirstMentions(most) else FirstMentions(most) + [last]
  }

  lemma {:induction false} MentionsStay(vs: seq<Vertex>, v: Vertex)
    ensures v in FirstMentions(vs) <==> v in vs
  {
    if vs != [] {
      MentionsStay(vs[..|vs| - 1], v);
      assert vs == vs[..|vs| - 1] + [vs[|vs| - 1]];
    }
  }

  /** What is found are the first mentions so far: of all neighbours of the vertices done, and of `more`. */
  ghost predicate Lists(graph: Graph, start: Vertex, found: seq<Vertex>, done: seq<Vertex>, more: seq<Vertex>) {
    found == FirstMentions([start] + Mentions(graph, done) + more)
  }

  lemma StartListed(graph: Graph, start: Vertex)
    ensures Lists(graph, start, [start], [], [])
  {
    assert [start] + Mentions(graph, []) + [] == [start];
    assert [start] == [] + [start];
  }

  /** A neighbour joins the discovery order exactly when it was not mentioned before. */
  lemma ListNext(graph: Graph, start: Vertex, found: seq<Vertex>, level: map<Vertex, nat>, done: seq<Vertex>,
                 targets: seq<Vertex>, i: nat)
    requires i < |targets| && Lists(graph, start, found, done, targets[..i])
    requires Discovered(graph, start, found, level)
    ensures Lists(graph, start, if targets[i] in level then found else found + [targets[i]], done, targets[..i + 1])
  {
    hide Mentions;
    var said := [start] + Mentions(graph, done) + targets[..i];
    MentionsStay(said, targets[i]);
    assert [start] + Mentions(graph, done) + targets[..i + 1] == said + [targets[i]];
    assert (said + [targets[i]])[..|said|] == said;
  }

  lemma ListDone(graph: Graph, start: Vertex, found: seq<Vertex>, done: seq<Vertex>, node: Vertex)
    requires node in graph && Lists(graph, start, found, done, Targets(graph[node])[..|graph[node]|])
    ensures Lists(graph, start, found, done + [node], [])
  {
    hide FirstMentions;
    var targets := Targets(graph[node]);
    assert targets[..|graph[node]|] == targets;
    assert (done + [node])[..|done|] == done;
    assert [start] + Mentions(graph, done + [node]) + [] == [start] + Mentions(graph, done) + targets;
  }

  lemma {:induction false} ListedAll(graph: Graph, start: Vertex, order: seq<Vertex>)
    requires Lists(graph, start, order, order, [])
    ensures order == FirstMentions([start] + Mentions(graph, order))
  {
    hide FirstMentions, Mentions;
    assert [start] + Mentions(graph, order) + [] == [start] + Mentions(graph, order);
  }

  lemma StartDiscovered(graph: Graph, start: Vertex)
    requires start in graph
    ensures Discovered(graph, start, [start], map[start := 0])
    ensures Layered([start], map[start := 0], 0) && AllSpread(graph, map[start := 0], [])
  {
    assert IsPath(graph, start, Start, start) && Hops(Start) == 0;
  }

  lemma PopFront(graph: Graph, source: Vertex, found: seq<Vertex>, level: map<Vertex, nat>, front: nat)
    requires Discovered(graph, source, found, level) && front < |found|
    ensures Spread(graph, level, found[front], 0)
    ensures found[front] in graph && found[front] in level && found[front] !in found[..front]
  {}

  /** A new vertex goes to the back of the discovery order, one level below the vertex being scanned. */
  lemma DiscoverKeeps(graph: Graph, source: Vertex, found: seq<Vertex>, level: map<Vertex, nat>, front: nat, i: nat)
    requires Closed(graph) && Discovered(graph, source, found, level) && Layered(found, level, front)
    requires front < |found| && found[front] in graph && i < |graph[found[front]]|
    requires graph[found[front]][i].target !in level && found[front] in level
    ensures var e := graph[found[front]][i];
      var level' := level[e.target := level[found[front]] + 1];
      && Discovered(graph, source, found + [e.target], level')
      && Layered(found + [e.target], level', front)
  {
    var u := found[front];
    var e := graph[u][i];
    OneMoreHop(graph, source, u, e, level[u]);
    DiscoveredNext(graph, source, found, level, e.target, level[u] + 1);
    hide Closed;
  }

  lemma OneMoreHop(graph: Graph, source: Vertex, u: Vertex, e: Edge, n: nat)
    requires u in graph && e in graph[u] && HopReachable(graph, source, u, n)
    ensures HopReachable(graph, source, e.target, n + 1)
  {
    var p :| IsPath(graph, source, p, u) && Hops(p) == n;
    var q := Extend(p, u, e.weight);
    assert IsPath(graph, source, q, e.target) && Hops(q) == n + 1;
  }

  lemma DiscoveredNext(graph: Graph, source: Vertex, found: seq<Vertex>, level: map<Vertex, nat>, t: Vertex, n: nat)
    requires Discovered(graph, source, found, level) && t !in level && t in graph && HopReachable(graph, source, t, n)
    ensures Discovered(graph, source, found + [t], level[t := n])
  {
    hide HopReachable;
  }

  lemma SpreadStays(graph: Graph, level: map<Vertex, nat>, us: seq<Vertex>, u: Vertex, count: nat, t: Vertex, n: nat)
    requires AllSpread(graph, level, us) && Spread(graph, level, u, count) && t !in level
    ensures AllSpread(graph, level[t := n], us) && Spread(graph, level[t := n], u, count)
  {}

  lemma SpreadNext(graph: Graph, source: Vertex, found: seq<Vertex>, level: map<Vertex, nat>, front: nat, i: nat)
    requires Discovered(graph, source, found, level) && Layered(found, level, front) && front < |found|
    requires Spread(graph, level, found[front], i) && i < |graph[found[front]]|
    requires graph[found[front]][i].target in level
    ensures Spread(graph, level, found[front], i + 1)
  {}

  /** When the front vertex is fully scanned, the next one becomes the front. */
  lemma FrontSpread(graph: Graph, level: map<Vertex, nat>, before: seq<Vertex>, found: seq<Vertex>, node: Vertex)
    requires Layered(found, level, |before|)
    requires |before| < |found| && found[|before|] == node && node in graph && node !in before
    requires AllSpread(graph, level, before) && Spread(graph, level, node, |graph[node]|)
    ensures Layered(found, level, |before + [node]|) && AllSpread(graph, level, before + [node])
    ensures graph.Keys - Members(before + [node]) < graph.Keys - Members(before)
  {
    assert node in graph.Keys - Members(before);
  }

  lemma BfsComplete(graph: Graph, source: Vertex, order: seq<Vertex>, level: map<Vertex, nat>)
    requires Closed(graph) && Discovered(graph, source, order, level) && Layered(order, level, |order|)
    requires AllSpread(graph, level, order)
    ensures Distinct(order)
    ensures forall v :: v in order <==> Reachable(graph, source, v)
    ensures forall v | v in order :: v in level && IsHopDistance(graph, source, v, level[v])
    ensures forall i, j | 0 <= i < j < |order| :: level[order[i]] <= level[order[j]]
  {
    forall v, p | IsPath(graph, source, p, v) ensures v in order && level[v] <= Hops(p) {
      PathIsSpread(graph, source, order, level, p, v);
    }
  }

  lemma {:induction false} PathIsSpread(graph: Graph, source: Vertex, order: seq<Vertex>, level: map<Vertex, nat>,
                                        p: Path, v: Vertex)
    requires Discovered(graph, source, order, level) && IsPath(graph, source, p, v)
    requires AllSpread(graph, level, order)
    ensures v in order && level[v] <= Hops(p)
  {
    match p
    case Start =>
    case Extend(q, u, w) =>
      PathIsSpread(graph, source, order, level, q, u);
      var i :| 0 <= i < |graph[u]| && graph[u][i] == Edge(v, w);
      assert Spread(graph, level, u, |graph[u]|);
      assert graph[u][i].target in level;
  }

  // --- Depth first ---

  function Targets(edges: seq<Edge>): (r: seq<Vertex>)
    ensures |r| == |edges| && forall i | 0 <= i < |r| :: r[i] == edges[i].target
  {
    seq(|edges|, i requires 0 <= i < |edges| => edges[i].target)
  }

  /** Recursive preorder: visit each vertex of `todo` in turn, and before the next one
      everything below it that was not seen. */
  ghost function Preorder(graph: Graph, todo: seq<Vertex>, seen: set<Vertex>): (r: seq<Vertex>)
    requires Closed(graph) && forall v | v in todo :: v in graph
    decreases graph.Keys - seen, |todo|
  {
    if todo == [] then []
    else if todo[0] in seen then Preorder(graph, todo[1..], seen)
    else
      var v := todo[0];
      assert v in graph.Keys - seen;
      var below := Preorder(graph, Targets(graph[v]), seen + {v});
      [v] + below + Preorder(graph, todo[1..], seen + {v} + Members(below))
  }

  /** Visiting a + b is visiting a and then, with all that was found, b. */
  lemma {:induction false} PreorderSplits(graph: Graph, a: seq<Vertex>, b: seq<Vertex>, seen: set<Vertex>)
    requires Closed(graph) && (forall v | v in a :: v in graph) && (forall v | v in b :: v in graph)
    ensures Preorder(graph, a + b, seen)
         == Preorder(graph, a, seen) + Preorder(graph, b, seen + Members(Preorder(graph, a, seen)))
    decreases graph.Keys - seen, |a|
  {
    if a == [] {
      assert a + b == b && seen + Members([]) == seen;
    } else {
      var v, rest := a[0], a[1..];
      assert (a + b)[1..] == rest + b;
      if v in seen {
        PreorderSplits(graph, rest, b, seen);
      } else {
        assert v in graph.Keys - seen;
        var below := Preorder(graph, Targets(graph[v]), seen + {v});
        var seen' := seen + {v} + Members(below);
        PreorderSplits(graph, rest, b, seen');
        var later := Preorder(graph, rest, seen');
        assert seen' + Members(later) == seen + Members([v] + below + later);
      }
    }
  }

  function Reverse(vs: seq<Vertex>): (r: seq<Vertex>)
    ensures |r| == |vs| && forall i | 0 <= i < |r| :: r[i] == vs[|vs| - 1 - i]
  {
    seq(|vs|, i requires 0 <= i < |vs| => vs[|vs| - 1 - i])
  }

  /** Popping an unvisited vertex and pushing its neighbours backwards continues the preorder. */
  lemma {:induction false} PopUnfolds(graph: Graph, below: seq<Vertex>, v: Vertex, seen: set<Vertex>)
    requires Closed(graph) && v in graph && v !in seen && forall u | u in below :: u in graph
    ensures forall u | u in Reverse(below + [v]) :: u in graph
    ensures forall u | u in Reverse(below + Reverse(Targets(graph[v]))) :: u in graph
    ensures Preorder(graph, Reverse(below + [v]), seen)
         == [v] + Preorder(graph, Reverse(below + Reverse(Targets(graph[v]))), seen + {v})
  {
    var next := Targets(graph[v]);
    InGraph(graph, below);
    PushedInGraph(graph, below, v);
    InGraph(graph, below + Reverse(next));
    ReverseLast(below, v);
    ReversePushed(below, next);
    hide Reverse;
    assert ([v] + Reverse(below))[1..] == Reverse(below);
    PreorderSplits(graph, next, Reverse(below), seen + {v});
  }

  lemma ReversePushed(below: seq<Vertex>, next: seq<Vertex>)
    ensures Reverse(below + Reverse(next)) == next + Reverse(below)
  {}

  method Dfs(graph: Graph, start: Vertex) returns (order: seq<Vertex>)
    requires Closed(graph) && start in graph
    ensures order == Preorder(graph, [start], {})
  {
    hide Preorder, Reverse;
    order := [];
    var stack := [start];
    var visited := {};
    ReverseOne(start);
    while stack != []
      invariant forall v | v in stack :: v in graph
      invariant forall v | v in Reverse(stack) :: v in graph
      invariant order + Preorder(graph, Reverse(stack), visited) == Preorder(graph, [start], {})
      decreases graph.Keys - visited, |stack|
    {
      var node := stack[|stack| - 1];
      var below := stack[..|stack| - 1];
      assert stack == below + [node];
      stack := below;
      if node in visited {
        PopVisited(graph, below, node, visited);
        continue;
      }
      PopUnfolds(graph, below, node, visited);
      assert node in graph.Keys - visited;
      visited := visited + {node};
      order := order + [node];
      stack := stack + Reverse(Targets(graph[node]));
      PushedInGraph(graph, below, node);
    }
    NothingLeft(graph, visited);
  }

  lemma ReverseOne(v: Vertex)
    ensures Reverse([v]) == [v] && Reverse([]) == []
  {}

  lemma {:induction false} NothingLeft(graph: Graph, seen: set<Vertex>)
    requires Closed(graph)
    ensures Reverse([]) == [] && Preorder(graph, [], seen) == []
  {}

  lemma PushedInGraph(graph: Graph, below: seq<Vertex>, v: Vertex)
    requires Closed(graph) && v in graph && forall u | u in below :: u in graph
    ensures forall u | u in below + Reverse(Targets(graph[v])) :: u in graph
  {
    var next := Targets(graph[v]);
    forall u | u in Reverse(next) ensures u in graph {
      var i :| 0 <= i < |next| && Reverse(next)[i] == u;
      assert graph[v][|next| - 1 - i] in graph[v];
    }
  }

  lemma ReverseLast(below: seq<Vertex>, v: Vertex)
    ensures Reverse(below + [v]) == [v] + Reverse(below)
  {}

  /** A vertex popped a second time changes nothing. */
  lemma {:induction false} PopVisited(graph: Graph, below: seq<Vertex>, v: Vertex, seen: set<Vertex>)
    requires Closed(graph) && v in graph && v in seen && forall u | u in below :: u in graph
    ensures forall u | u in Reverse(below) :: u in graph
    ensures forall u | u in Reverse(below + [v]) :: u in graph
    ensures Preorder(graph, Reverse(below + [v]), seen) == Preorder(graph, Reverse(below), seen)
  {
    InGraph(graph, below);
    ReverseLast(below, v);
    hide Reverse;
    assert ([v] + Reverse(below))[1..] == Reverse(below);
  }

  lemma InGraph(graph: Graph, vs: seq<Vertex>)
    requires forall u | u in vs :: u in graph
    ensures forall u | u in Reverse(vs) :: u in graph
  {}

  /** The preorder lists each newly reachable vertex once. */
  lemma {:induction false} PreorderFresh(graph: Graph, todo: seq<Vertex>, seen: set<Vertex>)
    requires Closed(graph) && forall v | v in todo :: v in graph
    ensures Distinct(Preorder(graph, todo, seen)) && Members(Preorder(graph, todo, seen)) !! seen
    decreases graph.Keys - seen, |todo|
  {
    if todo != [] {
      if todo[0] in seen {
        PreorderFresh(graph, todo[1..], seen);
      } else {
        var v := todo[0];
        assert v in graph.Keys - seen;
        PreorderFresh(graph, Targets(graph[v]), seen + {v});
        var below := Preorder(graph, Targets(graph[v]), seen + {v});
        var seen' := seen + {v} + Members(below);
        PreorderFresh(graph, todo[1..], seen');
        DistinctJoin([v] + below, Preorder(graph, todo[1..], seen'));
      }
    }
  }

  lemma DistinctJoin(a: seq<Vertex>, b: seq<Vertex>)
    requires Distinct(a) && Distinct(b) && Members(a) !! Members(b)
    ensures Distinct(a + b)
  {
    forall i, j | 0 <= i < j < |a + b| ensures (a + b)[i] != (a + b)[j] {
      if i < |a| <= j {
        assert a[i] in Members(a) && b[j - |a|] in Members(b);
      }
    }
  }

  /** After the preorder, everything on the list is seen and every new vertex has all its neighbours seen. */
  lemma {:induction false} PreorderCloses(graph: Graph, todo: seq<Vertex>, seen: set<Vertex>)
    requires Closed(graph) && forall v | v in todo :: v in graph
    ensures var found := Members(Preorder(graph, todo, seen));
      && ClosedUnder(graph, found, seen)
      && forall v | v in todo :: v in seen + found
    decreases graph.Keys - seen, |todo|
  {
    if todo != [] {
      if todo[0] in seen {
        PreorderCloses(graph, todo[1..], seen);
      } else {
        var v := todo[0];
        assert v in graph.Keys - seen;
        var below := Preorder(graph, Targets(graph[v]), seen + {v});
        var seen' := seen + {v} + Members(below);
        var later := Preorder(graph, todo[1..], seen');
        PreorderCloses(graph, Targets(graph[v]), seen + {v});
        PreorderCloses(graph, todo[1..], seen');
        TargetsListed(graph[v]);
        JoinClosed(graph, todo, seen, v, below, later);
      }
    }
  }

  lemma TargetsListed(edges: seq<Edge>)
    ensures forall e | e in edges :: e.target in Targets(edges)
  {
    forall e | e in edges ensures e.target in Targets(edges) {
      var i :| 0 <= i < |edges| && edges[i] == e;
      assert Targets(edges)[i] == e.target;
    }
  }

  /** New vertices lie in the graph and lead only to vertices that are seen or new. */
  ghost predicate ClosedUnder(graph: Graph, found: set<Vertex>, seen: set<Vertex>) {
    && found <= graph.Keys
    && forall u, e | u in found && e in graph[u] :: e.target in seen + found
  }

  lemma JoinClosed(graph: Graph, todo: seq<Vertex>, seen: set<Vertex>, v: Vertex, below: seq<Vertex>,
                   later: seq<Vertex>)
    requires todo != [] && todo[0] == v && v in graph
    requires ClosedUnder(graph, Members(below), seen + {v})
    requires ClosedUnder(graph, Members(later), seen + {v} + Members(below))
    requires forall e | e in graph[v] :: e.target in seen + {v} + Members(below)
    requires forall u | u in todo[1..] :: u in seen + {v} + Members(below) + Members(later)
    ensures ClosedUnder(graph, Members([v] + below + later), seen)
    ensures forall u | u in todo :: u in seen + Members([v] + below + later)
  {
    assert Members([v] + below + later) == {v} + Members(below) + Members(later);
    assert todo == [v] + todo[1..];
  }

  /** Everything the preorder lists is reachable. */
  lemma {:induction false} PreorderReachable(graph: Graph, source: Vertex, todo: seq<Vertex>, seen: set<Vertex>)
    requires Closed(graph) && forall v | v in todo :: v in graph && Reachable(graph, source, v)
    ensures forall v | v in Preorder(graph, todo, seen) :: Reachable(graph, source, v)
    decreases graph.Keys - seen, |todo|
  {
    if todo != [] {
      if todo[0] in seen {
        PreorderReachable(graph, source, todo[1..], seen);
      } else {
        var v := todo[0];
        assert v in graph.Keys - seen;
        var p :| IsPath(graph, source, p, v);
        forall u | u in Targets(graph[v]) ensures Reachable(graph, source, u) {
          var i :| 0 <= i < |graph[v]| && graph[v][i].target == u;
          assert IsPath(graph, source, Extend(p, v, graph[v][i].weight), u);
        }
        PreorderReachable(graph, source, Targets(graph[v]), seen + {v});
        var below := Preorder(graph, Targets(graph[v]), seen + {v});
        PreorderReachable(graph, source, todo[1..], seen + {v} + Members(below));
      }
    }
  }

  /** Depth-first search from one vertex lists exactly the reachable vertices, each once, the start first. */
  lemma {:induction false} PreorderIsReachableSet(graph: Graph, start: Vertex)
    requires Closed(graph) && start in graph
    ensures Distinct(Preorder(graph, [start], {}))
    ensures forall v :: v in Preorder(graph, [start], {}) <==> Reachable(graph, start, v)
    ensures Preorder(graph, [start], {})[..1] == [start]
  {
    var order := Preorder(graph, [start], {});
    PreorderFresh(graph, [start], {});
    PreorderCloses(graph, [start], {});
    assert IsPath(graph, start, Start, start);
    PreorderReachable(graph, start, [start], {});
    forall v | Reachable(graph, start, v) ensures v in order {
      var p :| IsPath(graph, start, p, v);
      PathStaysFound(graph, start, Members(order), p, v);
    }
  }

  lemma {:induction false} PathStaysFound(graph: Graph, source: Vertex, found: set<Vertex>, p: Path, v: Vertex)
    requires source in found && IsPath(graph, source, p, v) && ClosedUnder(graph, found, {})
    ensures v in found
  {
    if p.Extend? {
      PathStaysFound(graph, source, found, p.prefix, p.last);
      assert Edge(v, p.weight) in graph[p.last];
    }
  }
}
