/** Latency of a given trace (GraphProcessing.averageLatency): the walk is
    followed edge by edge, and the first missing edge gives no result. */
module Latency {
  import opened Graph

  /** The adjacency of a node, or None for a node with no out-edges (Java's
      null from the map lookup). */
  function Peers(g: Graph, v: Node): Option<map<Node, nat>>
  {
    if v in g then Some(g[v]) else None
  }

  /** averageLatency(nodes): despite the name, the summed latency of the
      trace. It is present exactly when every consecutive pair of nodes is
      an edge, and then it is the walk's cost. A one-node trace costs 0. */
  method AverageLatency(g: Graph, nodes: seq<Node>) returns (r: Option<nat>)
    requires |nodes| >= 1
    ensures r.Some? <==> IsWalk(g, nodes)
    ensures r.Some? ==> r.value == Cost(g, nodes)
  {
    var latency := 0;
    var next := Peers(g, nodes[0]);
    var i := 1;
    while i < |nodes|
      invariant 1 <= i <= |nodes|
      invariant IsWalk(g, nodes[..i]) && latency == Cost(g, nodes[..i])
      invariant next == Peers(g, nodes[i - 1])
      decreases |nodes| - i
    {
      var node := nodes[i];
      if next.None? || node !in next.value {
        assert !HasEdge(g, nodes[i - 1], nodes[i]);
        return None;
      }
      CostAppend(g, nodes[..i], node);
      assert nodes[..i] + [node] == nodes[..i + 1];
      latency := latency + next.value[node];
      next := Peers(g, node);
      i := i + 1;
    }
    assert nodes[..i] == nodes;
    return Some(latency);
  }
}
