/** graph/graph.py: a dictionary from name to Node, directed or undirected. */
module Graphs {
  import opened Wrappers
  import opened EdgeLists
  import opened Seqs
  import opened Adjacency
  import opened Nodes

  class Graph {
    var nodes: map<string, Node>
    /** The keys of `nodes` in insertion order, as Python's dict keeps them. */
    var order: seq<string>
    const isOriented: bool

    /** The graph as a value: each key mapped to its node's edge list. */
    function Adj(): AdjMap
      reads this, nodes.Values
    {
      map k | k in nodes :: nodes[k].edges
    }

    /** How the dictionary is laid out: `order` lists its keys once each, every key
        has its own Node object, and that node carries the key as its name. */
    ghost predicate Layout()
      reads this, nodes.Values
    {
      && Distinct(order)
      && (forall k :: k in order <==> k in nodes)
      && (forall k, k' :: k in nodes && k' in nodes && k != k' ==> nodes[k] != nodes[k'])
      && (forall k :: k in nodes ==> nodes[k].name == k)
    }

    ghost predicate Valid()
      reads this, nodes.Values
    {
      Layout() && WellFormed(Adj(), isOriented)
    }

    /** After one node's edges changed and nothing else did, the value changed at that key only. */
    twostate lemma OneNodeChanged(k: string)
      requires old(Layout()) && old(nodes) == nodes && k in nodes
      requires forall j :: j in nodes && j != k ==> nodes[j].edges == old(nodes[j].edges)
      ensures Adj() == old(Adj())[k := nodes[k].edges]
    {
    }

    /** After every surviving node lost its edges to `name` and `name` lost its key. */
    twostate lemma EveryNodeFiltered(name: string)
      requires old(Layout()) && name in old(nodes) && nodes == old(nodes) - {name}
      requires forall k :: k in nodes ==> nodes[k].edges == Without(old(nodes[k].edges), name)
      ensures Adj() == Adjacency.RemoveVertex(old(Adj()), name)
    {
    }

    constructor (isOriented: bool := false)
      ensures Valid() && Adj() == map[] && order == [] && this.isOriented == isOriented
    {
      nodes := map[];
      order := [];
      this.isOriented := isOriented;
    }

    /** Adds a node with no edges unless `name` is already a key. */
    method AddVertex(name: string)
      requires Valid()
      modifies this
      ensures Valid()
      ensures Adj() == Adjacency.AddVertex(old(Adj()), name)
      ensures order == if name in old(nodes) then old(order) else old(order) + [name]
      ensures forall k :: k in old(nodes) ==> k in nodes && nodes[k] == old(nodes[k])
      ensures name !in old(nodes) ==> fresh(nodes[name])
    {
      if name !in nodes {
        var n := new Node(name);
        nodes := nodes[name := n];
        order := order + [name];
        assert Adj() == old(Adj())[name := []];
        assert Layout();
      }
      MutationsKeepWellFormed(old(Adj()), isOriented, name, name, 0.0);
    }

    /** Adds (v, weight) to u, and (u, weight) to v when the graph is not oriented,
        creating either node first if needed. */
    method AddEdge(u: string, v: string, weight: real := 1.0)
      requires Valid()
      modifies this, nodes.Values
      ensures Valid()
      ensures Adj() == Adjacency.AddEdge(old(Adj()), isOriented, u, v, weight)
      ensures order == old(order) + (if u in old(nodes) then [] else [u]) +
                       (if v in old(nodes) || v == u then [] else [v])
    {
      AddVertex(u);
      ghost var afterU := order;
      assert afterU == old(order) + (if u in old(nodes) then [] else [u]);
      AddVertex(v);
      assert order == afterU + (if v in old(nodes) || v == u then [] else [v]);
      ghost var g1 := Adj();
      AddArcAt(u, v, weight);
      if !isOriented {
        AddArcAt(v, u, weight);
      }
      MutationsKeepWellFormed(old(Adj()), isOriented, u, v, weight);
    }

    /** self.nodes[u].add_edge(v, weight) on a key `u`. */
    method AddArcAt(u: string, v: string, weight: real)
      requires Layout() && u in nodes
      modifies nodes[u]
      ensures Layout() && nodes == old(nodes) && order == old(order)
      ensures Adj() == AddArc(old(Adj()), u, v, weight)
    {
      nodes[u].AddEdge(v, weight);
      OneNodeChanged(u);
    }

    /** Removes every u->v edge, and every v->u edge when not oriented; missing endpoints are skipped. */
    method RemoveEdge(u: string, v: string)
      requires Valid()
      modifies nodes.Values
      ensures Valid()
      ensures Adj() == Adjacency.RemoveEdge(old(Adj()), isOriented, u, v)
    {
      if u in nodes {
        label beforeForward:
        nodes[u].RemoveEdge(v);
        OneNodeChanged@beforeForward(u);
      }
      if !isOriented && v in nodes {
        label beforeBackward:
        nodes[v].RemoveEdge(u);
        OneNodeChanged@beforeBackward(v);
      }
      MutationsKeepWellFormed(old(Adj()), isOriented, u, v, 0.0);
    }

    /** Removes `name` and every edge to it; an absent name changes nothing. */
    method RemoveVertex(name: string)
      requires Valid()
      modifies this, nodes.Values
      ensures Valid()
      ensures Adj() == Adjacency.RemoveVertex(old(Adj()), name)
      ensures order == Remove(old(order), name)
    {
      if name in nodes {
        RemoveEdgesTo(name);
        nodes := nodes - {name};
        order := Remove(order, name);
        EveryNodeFiltered(name);
      } else {
        RemoveAbsent(order, name);
      }
      MutationsKeepWellFormed(old(Adj()), isOriented, name, name, 0.0);
    }

    /** The loop of remove_vertex: every node, in key order, drops its edges to `name`. */
    method RemoveEdgesTo(name: string)
      requires Layout()
      modifies nodes.Values
      ensures forall k :: k in nodes ==> nodes[k].edges == Without(old(nodes[k].edges), name)
    {
      var i := 0;
      while i < |order|
        invariant 0 <= i <= |order|
        invariant forall k :: k in nodes && k in order[..i] ==> nodes[k].edges == Without(old(nodes[k].edges), name)
        invariant forall k :: k in nodes && k !in order[..i] ==> nodes[k].edges == old(nodes[k].edges)
      {
        assert order[..i + 1] == order[..i] + [order[i]];
        nodes[order[i]].RemoveEdge(name);
        i := i + 1;
      }
      assert order[..i] == order;
    }

    /** The node's edges in order, or the empty list for an unknown name. */
    function GetNeighbors(name: string): (r: seq<Edge>)
      reads this, nodes.Values
      ensures r == Neighbors(Adj(), name)
    {
      if name in nodes then nodes[name].GetNeighbors() else []
    }

    /** The weight of the first u->v edge, or None when u is unknown or has no edge to v. */
    method GetWeight(u: string, v: string) returns (w: Option<real>)
      ensures w == Weight(Adj(), u, v)
    {
      if u in nodes {
        w := nodes[u].GetWeight(v);
      } else {
        w := None;
      }
    }

    /** Scans u's neighbours for v. */
    method IsAdjacent(u: string, v: string) returns (b: bool)
      ensures b == Adjacent(Adj(), u, v)
      ensures b == Weight(Adj(), u, v).Some?
    {
      var neighbors := GetNeighbors(u);
      var i := 0;
      while i < |neighbors|
        invariant 0 <= i <= |neighbors|
        invariant forall j :: 0 <= j < i ==> neighbors[j].0 != v
      {
        if neighbors[i].0 == v {
          return true;
        }
        i := i + 1;
      }
      return false;
    }
  }

  /** In an undirected graph, is_adjacent(u, v) == is_adjacent(v, u). */
  lemma UndirectedAdjacency(graph: Graph, u: string, v: string)
    requires graph.Valid() && !graph.isOriented
    ensures Adjacent(graph.Adj(), u, v) == Adjacent(graph.Adj(), v, u)
  {
    AdjacentSymmetric(graph.Adj(), u, v);
  }
}
