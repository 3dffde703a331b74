/** Pure functions over a node's edge list: the ordered list of
    (neighbor, weight) pairs that graph/node.py keeps in `edges`. */
module EdgeLists {
  import opened Wrappers

  /** An outgoing edge: the neighbour's name and the weight. */
  type Edge = (string, real)

  /** No (neighbor, weight) pair occurs twice. */
  predicate NoDuplicates(edges: seq<Edge>) {
    forall i, j :: 0 <= i < j < |edges| ==> edges[i] != edges[j]
  }

  /** Some edge of the list leads to `n`, whatever its weight. */
  predicate HasNeighbor(edges: seq<Edge>, n: string) {
    exists i :: 0 <= i < |edges| && edges[i].0 == n
  }

  /** The weight of the first edge to `n`; None when there is no edge to `n`. */
  function WeightOf(edges: seq<Edge>, n: string): (r: Option<real>)
    ensures r.None? <==> !HasNeighbor(edges, n)
    ensures r.Some? ==> exists i :: 0 <= i < |edges| && edges[i] == (n, r.value) &&
                                    forall j :: 0 <= j < i ==> edges[j].0 != n
  {
    if |edges| == 0 then None
    else if edges[0].0 == n then Some(edges[0].1)
    else
      var r := WeightOf(edges[1..], n);
      assert HasNeighbor(edges, n) ==> HasNeighbor(edges[1..], n) by {
        if HasNeighbor(edges, n) {
          var i :| 0 <= i < |edges| && edges[i].0 == n;
          assert edges[1..][i - 1].0 == n;
        }
      }
      assert r.Some? ==> exists i :: 0 <= i < |edges| && edges[i] == (n, r.value) &&
                                     forall j :: 0 <= j < i ==> edges[j].0 != n by {
        if r.Some? {
          var i :| 0 <= i < |edges[1..]| && edges[1..][i] == (n, r.value) &&
                   forall j :: 0 <= j < i ==> edges[1..][j].0 != n;
          assert edges[i + 1] == (n, r.value);
          assert forall j :: 0 <= j < i + 1 ==> edges[j].0 != n by {
            forall j | 0 <= j < i + 1 ensures edges[j].0 != n {
              if j > 0 { assert edges[j] == edges[1..][j - 1]; }
            }
          }
        }
      }
      r
  }

  /** The list with every edge to `n` dropped, whatever its weight, the others kept in order. */
  function Without(edges: seq<Edge>, n: string): (r: seq<Edge>)
    ensures forall e :: e in r <==> e in edges && e.0 != n
    ensures !HasNeighbor(r, n)
    ensures |r| <= |edges|
    ensures NoDuplicates(edges) ==> NoDuplicates(r)
  {
    if |edges| == 0 then []
    else
      var rest := Without(edges[1..], n);
      if edges[0].0 == n then rest
      else
        assert NoDuplicates(edges) ==> edges[0] !in edges[1..];
        [edges[0]] + rest
  }

  /** Dropping the edges to `n` touches no other neighbour's edges. */
  lemma WithoutKeepsOthers(edges: seq<Edge>, n: string, m: string)
    requires m != n
    ensures WeightOf(Without(edges, n), m) == WeightOf(edges, m)
    decreases edges
  {
    if |edges| > 0 {
      WithoutKeepsOthers(edges[1..], n, m);
    }
  }

  /** Without works element by element: it distributes over concatenation,
      so the kept edges stay in their original relative order. */
  lemma {:induction false} WithoutAppend(a: seq<Edge>, b: seq<Edge>, n: string)
    ensures Without(a + b, n) == Without(a, n) + Without(b, n)
  {
    if |a| > 0 {
      assert (a + b)[0] == a[0] && (a + b)[1..] == a[1..] + b;
      WithoutAppend(a[1..], b, n);
      var rest := Without(a[1..], n);
      if a[0].0 != n {
        assert Without(a + b, n) == [a[0]] + (rest + Without(b, n));
        assert [a[0]] + (rest + Without(b, n)) == ([a[0]] + rest) + Without(b, n);
      }
    } else {
      assert a + b == b;
    }
  }

  /** A list with no edge to `n` is left as it is. */
  lemma {:induction false} WithoutAbsent(edges: seq<Edge>, n: string)
    requires !HasNeighbor(edges, n)
    ensures Without(edges, n) == edges
  {
    if |edges| > 0 {
      WithoutAbsent(edges[1..], n);
      assert edges[0].0 != n;
      assert edges == [edges[0]] + edges[1..];
    }
  }

  /** WeightOf of a list extended at its end: earlier edges win. */
  lemma {:induction false} WeightOfAppend(edges: seq<Edge>, e: Edge, n: string)
    ensures WeightOf(edges + [e], n) ==
      if HasNeighbor(edges, n) then WeightOf(edges, n)
      else if e.0 == n then Some(e.1) else None
  {
    if |edges| > 0 {
      assert (edges + [e])[1..] == edges[1..] + [e];
      WeightOfAppend(edges[1..], e, n);
      if edges[0].0 != n {
        assert HasNeighbor(edges, n) <==> HasNeighbor(edges[1..], n) by {
          if HasNeighbor(edges, n) {
            var i :| 0 <= i < |edges| && edges[i].0 == n;
            assert edges[1..][i - 1].0 == n;
          }
          if HasNeighbor(edges[1..], n) {
            var i :| 0 <= i < |edges[1..]| && edges[1..][i].0 == n;
            assert edges[i + 1].0 == n;
          }
        }
      }
    } else {
      assert edges + [e] == [e];
    }
  }

  /** The list after Node.add_edge(e.0, e.1): the pair is appended unless it is already present. */
  function WithEdge(edges: seq<Edge>, e: Edge): (r: seq<Edge>)
    ensures forall x :: x in r <==> x in edges || x == e
    ensures e in edges ==> r == edges
    ensures NoDuplicates(edges) ==> NoDuplicates(r)
    ensures WeightOf(r, e.0).Some?
    ensures !HasNeighbor(edges, e.0) ==> WeightOf(r, e.0) == Some(e.1)
    ensures HasNeighbor(edges, e.0) ==> WeightOf(r, e.0) == WeightOf(edges, e.0)
    ensures forall n :: n != e.0 ==> WeightOf(r, n) == WeightOf(edges, n)
  {
    if e in edges then
      assert HasNeighbor(edges, e.0) by {
        var i :| 0 <= i < |edges| && edges[i] == e;
      }
      edges
    else
      var r := edges + [e];
      assert forall n :: WeightOf(r, n) == if HasNeighbor(edges, n) then WeightOf(edges, n)
                                          else if e.0 == n then Some(e.1) else None by {
        forall n { WeightOfAppend(edges, e, n); }
      }
      r
  }
}
