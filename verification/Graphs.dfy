/** Graphs as the lab writes them: every vertex is a key, mapped to its outgoing edges in order. */
module Graphs {

  datatype Vertex = Vertex(name: string)
  datatype Edge = Edge(target: Vertex, weight: int)
  type Graph = map<Vertex, seq<Edge>>

  predicate Closed(graph: Graph) {
    forall v, e | v in graph && e in graph[v] :: e.target in graph
  }

  /** A walk from a source, last edge outermost. */
  datatype Path = Start | Extend(prefix: Path, last: Vertex, weight: int)

  ghost predicate IsPath(graph: Graph, source: Vertex, p: Path, v: Vertex) {
    match p
    case Start => v == source
    case Extend(q, u, w) => u in graph && Edge(v, w) in graph[u] && IsPath(graph, source, q, u)
  }

  ghost function Cost(p: Path): int {
    match p
    case Start => 0
    case Extend(q, _, w) => Cost(q) + w
  }

  ghost function Hops(p: Path): nat {
    match p
    case Start => 0
    case Extend(q, _, _) => Hops(q) + 1
  }

  ghost predicate Reachable(graph: Graph, source: Vertex, v: Vertex) {
    exists p :: IsPath(graph, source, p, v)
  }

  ghost predicate CostReachable(graph: Graph, source: Vertex, v: Vertex, d: int) {
    exists p :: IsPath(graph, source, p, v) && Cost(p) == d
  }

  ghost predicate HopReachable(graph: Graph, source: Vertex, v: Vertex, n: nat) {
    exists p :: IsPath(graph, source, p, v) && Hops(p) == n
  }
}
