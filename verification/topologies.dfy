/**
 * The network topology: a map from every node to the map of its direct
 * neighbours and the cost of the link to each.
 */
module Topologies {
  import opened Options

  type NodeId = string

  type Topology = map<NodeId, map<NodeId, int>>

  /** The cost of the link from `n` to `m`, if `n` declares one. */
  function Cost(topo: Topology, n: NodeId, m: NodeId): (c: Option<int>)
    ensures c.Some? <==> n in topo && m in topo[n]
  {
    if n in topo && m in topo[n] then Some(topo[n][m]) else None
  }

  /** Every neighbour is itself a node of the topology (no dangling reference). */
  ghost predicate Closed(topo: Topology)
  {
    forall n, m :: n in topo && m in topo[n] ==> m in topo
  }

  /** Every link is declared in both directions with the same cost. */
  ghost predicate Symmetric(topo: Topology)
  {
    forall n, m :: n in topo && m in topo[n] ==> m in topo && n in topo[m] && topo[m][n] == topo[n][m]
  }

  /** Every link cost is strictly positive. */
  ghost predicate PositiveCosts(topo: Topology)
  {
    forall n, m :: n in topo && m in topo[n] ==> topo[n][m] > 0
  }

  /** No node declares a link to itself. */
  ghost predicate NoSelfLoops(topo: Topology)
  {
    forall n :: n in topo ==> n !in topo[n]
  }
}
