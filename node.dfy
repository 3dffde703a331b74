/** graph/node.py: a vertex and its ordered list of outgoing (neighbor, weight) edges. */
module Nodes {
  import opened Wrappers
  import opened EdgeLists

  class Node {
    const name: string
    var edges: seq<Edge>

    constructor (name: string)
      ensures this.name == name && edges == []
    {
      this.name := name;
      edges := [];
    }

    /** Appends (neighbor, weight) at the end unless that exact pair is present. */
    method AddEdge(neighbor: string, weight: real := 1.0)
      modifies this
      ensures edges == WithEdge(old(edges), (neighbor, weight))
      ensures (neighbor, weight) in old(edges) ==> edges == old(edges)
      ensures (neighbor, weight) !in old(edges) ==> edges == old(edges) + [(neighbor, weight)]
    {
      if (neighbor, weight) !in edges {
        edges := edges + [(neighbor, weight)];
      }
    }

    /** Drops every edge to `neighbor`, whatever its weight. */
    method RemoveEdge(neighbor: string)
      modifies this
      ensures edges == Without(old(edges), neighbor)
    {
      edges := Without(edges, neighbor);
    }

    /** The edges, in order, as a fresh list. */
    function GetNeighbors(): (r: seq<Edge>)
      reads this
      ensures |r| == |edges| && forall i :: 0 <= i < |r| ==> r[i] == edges[i]
    {
      edges
    }

    /** Scans the edges in order and returns the weight of the first edge to `neighbor`. */
    method GetWeight(neighbor: string) returns (w: Option<real>)
      ensures w == WeightOf(edges, neighbor)
    {
      var i := 0;
      while i < |edges|
        invariant 0 <= i <= |edges|
        invariant forall j :: 0 <= j < i ==> edges[j].0 != neighbor
        invariant WeightOf(edges, neighbor) == WeightOf(edges[i..], neighbor)
      {
        if edges[i].0 == neighbor {
          return Some(edges[i].1);
        }
        assert edges[i..][1..] == edges[i + 1..];
        i := i + 1;
      }
      return None;
    }
  }
}
