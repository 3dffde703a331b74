/** The value a graph/graph.py Graph stands for: each key of `nodes` mapped to
    that node's edge list; the queries on it, and the effect of each mutation. */
module Adjacency {
  import opened Wrappers
  import opened EdgeLists

  type AdjMap = map<string, seq<Edge>>

  /** The edges of `u`; the empty list for an unknown node. */
  function Neighbors(g: AdjMap, u: string): seq<Edge> {
    if u in g then g[u] else []
  }

  /** `v` appears as a neighbour in `u`'s list. */
  predicate Adjacent(g: AdjMap, u: string, v: string) {
    u in g && HasNeighbor(g[u], v)
  }

  /** The weight of the first u->v edge; None for an unknown `u` or when `v` is not a neighbour. */
  function Weight(g: AdjMap, u: string, v: string): (r: Option<real>)
    ensures r.Some? <==> Adjacent(g, u, v)
    ensures u !in g ==> r.None?
    ensures r.Some? ==> (v, r.value) in g[u]
  {
    if u in g then WeightOf(g[u], v) else None
  }

  /** Every neighbour named in an edge list is a key. */
  ghost predicate Closed(g: AdjMap) {
    forall u, v, w :: u in g && (v, w) in g[u] ==> v in g
  }

  /** In a closed graph, both ends of an adjacent pair are nodes. */
  lemma AdjacentInside(g: AdjMap, u: string, v: string)
    requires Closed(g) && Adjacent(g, u, v)
    ensures u in g && v in g
  {
    var k :| 0 <= k < |g[u]| && g[u][k].0 == v;
    var w := g[u][k].1;
    assert g[u][k] == (v, w);
    assert (v, w) in g[u];
  }

  /** No node's list holds a (neighbor, weight) pair twice. */
  predicate Simple(g: AdjMap) {
    forall u :: u in g ==> NoDuplicates(g[u])
  }

  /** Undirected mode: an edge u->v of weight w is matched by v->u of weight w. */
  ghost predicate Symmetric(g: AdjMap) {
    forall u, v, w :: u in g && (v, w) in g[u] ==> v in g && (u, w) in g[v]
  }

  /** The invariants a Graph keeps: no duplicate pair in a list, every neighbour a key,
      and symmetry when the graph is not oriented. */
  ghost predicate WellFormed(g: AdjMap, oriented: bool) {
    Simple(g) && Closed(g) && (!oriented ==> Symmetric(g))
  }

  /** The graph has at least one edge. */
  predicate HasEdge(g: AdjMap) {
    exists u :: u in g && g[u] != []
  }

  /** In a symmetric graph adjacency goes both ways. */
  lemma AdjacentSymmetric(g: AdjMap, u: string, v: string)
    requires Symmetric(g)
    ensures Adjacent(g, u, v) <==> Adjacent(g, v, u)
  {
    forall a, b | Adjacent(g, a, b) ensures Adjacent(g, b, a) {
      var i :| 0 <= i < |g[a]| && g[a][i].0 == b;
      var w := g[a][i].1;
      assert (b, w) in g[a];
      assert (a, w) in g[b];
      var j :| 0 <= j < |g[b]| && g[b][j] == (a, w);
    }
  }

  /** Graph.add_vertex: a new key with no edges; an existing node is left untouched. */
  function AddVertex(g: AdjMap, name: string): (r: AdjMap)
    ensures r.Keys == g.Keys + {name}
    ensures name in g ==> r == g
    ensures name !in g ==> r[name] == []
    ensures forall k :: k in g ==> r[k] == g[k]
    ensures Closed(g) ==> Closed(r)
    ensures Simple(g) ==> Simple(r)
    ensures Symmetric(g) ==> Symmetric(r)
  {
    if name in g then g else g[name := []]
  }

  /** Node.add_edge(v, w) on the node `u`, which is a key. */
  function AddArc(g: AdjMap, u: string, v: string, w: real): (r: AdjMap)
    requires u in g
    ensures r.Keys == g.Keys
    ensures forall k, e :: k in r ==> (e in r[k] <==> e in g[k] || (k == u && e == (v, w)))
    ensures forall k :: k in g && k != u ==> r[k] == g[k]
    ensures Weight(r, u, v).Some?
    ensures !Adjacent(g, u, v) ==> Weight(r, u, v) == Some(w)
    ensures Adjacent(g, u, v) ==> Weight(r, u, v) == Weight(g, u, v)
    ensures forall x :: x != v ==> Weight(r, u, x) == Weight(g, u, x)
    ensures Closed(g) && v in g ==> Closed(r)
    ensures Simple(g) ==> Simple(r)
  {
    g[u := WithEdge(g[u], (v, w))]
  }

  /** Adding the arcs u->v and v->u with the same weight keeps a graph symmetric. */
  lemma BothArcsKeepSymmetric(g: AdjMap, r: AdjMap, u: string, v: string, w: real)
    requires Symmetric(g) && u in g && v in g && r.Keys == g.Keys
    requires forall k, e :: k in r ==> (e in r[k] <==> e in g[k] || (k == u && e == (v, w)) || (k == v && e == (u, w)))
    ensures Symmetric(r)
  {
    forall a, b, c | a in r && (b, c) in r[a] ensures b in r && (a, c) in r[b] {
      if (b, c) in g[a] {
        assert (a, c) in g[b];
      }
    }
  }

  /** Graph.add_edge: both ends become keys, (v, w) is added to u, and (u, w) to v when not oriented;
      no other node changes. */
  function AddEdge(g: AdjMap, oriented: bool, u: string, v: string, w: real): (r: AdjMap)
    ensures r.Keys == g.Keys + {u, v}
    ensures forall k, e :: k in r ==>
      (e in r[k] <==> e in Neighbors(g, k) || (k == u && e == (v, w)) || (!oriented && k == v && e == (u, w)))
    ensures forall k :: k in g && k != u && (oriented || k != v) ==> r[k] == g[k]
  {
    var g1 := AddVertex(AddVertex(g, u), v);
    var g2 := AddArc(g1, u, v, w);
    if oriented then g2 else AddArc(g2, v, u, w)
  }

  /** After Graph.add_edge, u reaches v (and v reaches u when not oriented); a new edge u->v
      carries the given weight, and so does a new mirror edge v->u. */
  lemma AddEdgeWeights(g: AdjMap, oriented: bool, u: string, v: string, w: real)
    ensures Weight(AddEdge(g, oriented, u, v, w), u, v).Some?
    ensures !oriented ==> Weight(AddEdge(g, oriented, u, v, w), v, u).Some?
    ensures !Adjacent(g, u, v) ==> Weight(AddEdge(g, oriented, u, v, w), u, v) == Some(w)
    ensures !oriented && !Adjacent(g, v, u) && u != v ==> Weight(AddEdge(g, oriented, u, v, w), v, u) == Some(w)
  {
    var g1 := AddVertex(AddVertex(g, u), v);
    var g2 := AddArc(g1, u, v, w);
    assert Adjacent(g1, u, v) == Adjacent(g, u, v);
    assert Adjacent(g1, v, u) == Adjacent(g, v, u);
    if !oriented {
      if u == v {
        assert !Adjacent(g, u, v) ==> Weight(g2, u, v) == Some(w);
      } else {
        assert Weight(AddArc(g2, v, u, w), u, v) == Weight(g2, u, v);
        assert Weight(g2, v, u) == Weight(g1, v, u);
      }
    }
  }

  /** Graph.add_edge keeps every neighbour a key, keeps lists free of duplicates, and keeps an
      undirected graph symmetric. */
  lemma AddEdgeKeepsInvariants(g: AdjMap, oriented: bool, u: string, v: string, w: real)
    ensures Simple(g) ==> Simple(AddEdge(g, oriented, u, v, w))
    ensures Closed(g) ==> Closed(AddEdge(g, oriented, u, v, w))
    ensures !oriented && Symmetric(g) ==> Symmetric(AddEdge(g, oriented, u, v, w))
  {
    var g1 := AddVertex(AddVertex(g, u), v);
    var g2 := AddArc(g1, u, v, w);
    if !oriented && Symmetric(g) {
      BothArcsKeepSymmetric(g1, AddArc(g2, v, u, w), u, v, w);
    }
  }

  /** Graph.remove_edge: every u->v edge goes, and every v->u edge too when not oriented;
      a missing endpoint is skipped. */
  function RemoveEdge(g: AdjMap, oriented: bool, u: string, v: string): (r: AdjMap)
    ensures r.Keys == g.Keys
    ensures !Adjacent(r, u, v) && (!oriented ==> !Adjacent(r, v, u))
    ensures forall k, e :: k in r ==>
      (e in r[k] <==> e in g[k] && !(k == u && e.0 == v) && !(!oriented && k == v && e.0 == u))
    ensures forall k :: k in g && k != u && (oriented || k != v) ==> r[k] == g[k]
    ensures Closed(g) ==> Closed(r)
    ensures Simple(g) ==> Simple(r)
  {
    var g1 := if u in g then g[u := Without(g[u], v)] else g;
    if !oriented && v in g1 then g1[v := Without(g1[v], u)] else g1
  }

  /** Graph.remove_vertex: the key goes and so does every edge to it; an absent name changes nothing. */
  function RemoveVertex(g: AdjMap, name: string): (r: AdjMap)
    ensures name in g ==> r.Keys == g.Keys - {name}
    ensures name !in g ==> r == g
    ensures name in g ==> forall k :: k in r ==> !HasNeighbor(r[k], name)
    ensures name in g ==> forall k, e :: k in r ==> (e in r[k] <==> e in g[k] && e.0 != name)
    ensures Closed(g) ==> Closed(r)
    ensures Simple(g) ==> Simple(r)
  {
    if name in g then map k | k in g && k != name :: Without(g[k], name) else g
  }

  /** In a symmetric graph each arc a->b of weight c has its mirror b->a. */
  lemma MirrorArc(g: AdjMap, a: string, b: string, c: real)
    requires Symmetric(g) && a in g && (b, c) in g[a]
    ensures b in g && (a, c) in g[b]
  {
  }

  /** Dropping the arcs u->v and v->u, whatever their weights, keeps a graph symmetric. */
  lemma DropArcsKeepsSymmetric(g: AdjMap, r: AdjMap, u: string, v: string)
    requires Symmetric(g) && r.Keys == g.Keys
    requires forall k, e :: k in r ==> (e in r[k] <==> e in g[k] && !(k == u && e.0 == v) && !(k == v && e.0 == u))
    ensures Symmetric(r)
  {
    forall a, b, c | a in r && (b, c) in r[a] ensures b in r && (a, c) in r[b] {
      MirrorArc(g, a, b, c);
    }
  }

  /** Removing an edge from both ends keeps an undirected graph symmetric. */
  lemma RemoveEdgeKeepsSymmetric(g: AdjMap, u: string, v: string)
    requires Symmetric(g)
    ensures Symmetric(RemoveEdge(g, false, u, v))
  {
    DropArcsKeepsSymmetric(g, RemoveEdge(g, false, u, v), u, v);
  }

  /** Dropping a node together with every edge into it keeps a graph symmetric. */
  lemma DropNodeKeepsSymmetric(g: AdjMap, r: AdjMap, name: string)
    requires Symmetric(g) && r.Keys == g.Keys - {name}
    requires forall k, e :: k in r ==> (e in r[k] <==> e in g[k] && e.0 != name)
    ensures Symmetric(r)
  {
    forall a, b, c | a in r && (b, c) in r[a] ensures b in r && (a, c) in r[b] {
      MirrorArc(g, a, b, c);
    }
  }

  /** Removing a node and every edge to it keeps a graph symmetric. */
  lemma RemoveVertexKeepsSymmetric(g: AdjMap, name: string)
    requires Symmetric(g)
    ensures Symmetric(RemoveVertex(g, name))
  {
    if name in g {
      DropNodeKeepsSymmetric(g, RemoveVertex(g, name), name);
    }
  }

  /** Each mutation of graph/graph.py keeps a graph well formed. */
  lemma MutationsKeepWellFormed(g: AdjMap, oriented: bool, u: string, v: string, w: real)
    requires WellFormed(g, oriented)
    ensures WellFormed(AddVertex(g, u), oriented)
    ensures WellFormed(AddEdge(g, oriented, u, v, w), oriented)
    ensures WellFormed(RemoveEdge(g, oriented, u, v), oriented)
    ensures WellFormed(RemoveVertex(g, u), oriented)
  {
    AddEdgeKeepsInvariants(g, oriented, u, v, w);
    if !oriented {
      RemoveEdgeKeepsSymmetric(g, u, v);
      RemoveVertexKeepsSymmetric(g, u);
    }
  }
}
