/** Paths, their lengths and edge desirability, shared by both optimizer variants
    (antoptimizer/AntOptimizer.py and ant.py). */
module Tours {
  import opened Wrappers
  import opened EdgeLists
  import opened Adjacency

  /** A path is the list of node names an ant walked. */
  type Path = seq<string>

  /** A path length: a finite sum of weights, or float("inf"). */
  datatype Length = Fin(value: real) | Inf

  /** a < b, as Python compares floats with inf as the largest value. */
  predicate Below(a: Length, b: Length) {
    a.Fin? && (b.Inf? || a.value < b.value)
  }

  /** a <= b. */
  predicate AtMost(a: Length, b: Length) {
    !Below(b, a)
  }

  /** Some consecutive pair of the path has no edge. */
  predicate HasMissingStep(g: AdjMap, p: Path) {
    exists i :: 0 <= i < |p| - 1 && Weight(g, p[i], p[i + 1]).None?
  }

  /** The length _calculate_path_length computes: the weights of the first edges
      between consecutive nodes added from the left, or Inf as soon as a pair has no edge. */
  function Cost(g: AdjMap, p: Path): (r: Length)
    ensures r.Fin? ==> forall i :: 0 <= i < |p| - 1 ==> Adjacent(g, p[i], p[i + 1])
    decreases |p|
  {
    if |p| <= 1 then Fin(0.0)
    else
      match Cost(g, p[..|p| - 1])
      case Inf => Inf
      case Fin(l) =>
        match Weight(g, p[|p| - 2], p[|p| - 1])
        case None => Inf
        case Some(w) => Fin(l + w)
  }

  /** The length is infinite exactly when some consecutive pair has no edge. */
  lemma {:induction false} CostInfinite(g: AdjMap, p: Path)
    ensures Cost(g, p).Inf? <==> HasMissingStep(g, p)
    decreases |p|
  {
    if |p| > 1 {
      var front := p[..|p| - 1];
      CostInfinite(g, front);
      if HasMissingStep(g, p) {
        var i :| 0 <= i < |p| - 1 && Weight(g, p[i], p[i + 1]).None?;
        if i < |p| - 2 {
          assert front[i] == p[i] && front[i + 1] == p[i + 1];
        }
      }
      if HasMissingStep(g, front) {
        var i :| 0 <= i < |front| - 1 && Weight(g, front[i], front[i + 1]).None?;
        assert p[i] == front[i] && p[i + 1] == front[i + 1];
      }
    }
  }

  /** The cost of a prefix one step longer adds that step's weight. */
  lemma CostStep(g: AdjMap, p: Path, i: nat, total: real)
    requires i + 1 < |p| && Cost(g, p[..i + 1]) == Fin(total) && Weight(g, p[i], p[i + 1]).Some?
    ensures Cost(g, p[..i + 2]) == Fin(total + Weight(g, p[i], p[i + 1]).value)
  {
    var q := p[..i + 2];
    assert q[..|q| - 1] == p[..i + 1];
    assert q[|q| - 2] == p[i] && q[|q| - 1] == p[i + 1];
  }

  /** Every consecutive pair of the path is adjacent. */
  predicate Walk(g: AdjMap, p: Path) {
    forall i :: 0 <= i < |p| - 1 ==> Adjacent(g, p[i], p[i + 1])
  }

  /** A walk has a finite length. */
  lemma WalkCost(g: AdjMap, p: Path)
    requires Walk(g, p)
    ensures Cost(g, p).Fin?
  {
    assert !HasMissingStep(g, p) by {
      forall i | 0 <= i < |p| - 1 ensures Weight(g, p[i], p[i + 1]).Some? {
        assert Adjacent(g, p[i], p[i + 1]);
      }
    }
    CostInfinite(g, p);
  }

  /** Extending a walk by a node adjacent to its last node gives a walk. */
  lemma WalkExtend(g: AdjMap, p: Path, v: string)
    requires |p| >= 1 && Walk(g, p) && Adjacent(g, p[|p| - 1], v)
    ensures Walk(g, p + [v])
  {
    var q := p + [v];
    forall i | 0 <= i < |q| - 1 ensures Adjacent(g, q[i], q[i + 1]) {
      if i < |p| - 1 {
        assert q[i] == p[i] && q[i + 1] == p[i + 1];
      }
    }
  }

  /** _calculate_path_length of AntOptimizer.py: None has an infinite length. */
  function PathLength(g: AdjMap, path: Option<Path>): (r: Length)
    ensures path.None? ==> r.Inf?
    ensures r.Fin? ==> path.Some? && r == Cost(g, path.value)
  {
    if path.None? then Inf else Cost(g, path.value)
  }

  /** Every consecutive pair of the path is joined by an edge whose first weight is `w`. */
  predicate UniformSteps(g: AdjMap, p: Path, w: real) {
    forall i :: 0 <= i < |p| - 1 ==> Weight(g, p[i], p[i + 1]) == Some(w)
  }

  /** On a graph whose edges all weigh w, a path of k steps costs k * w. */
  lemma {:induction false} UniformCost(g: AdjMap, p: Path, w: real)
    requires |p| >= 1 && UniformSteps(g, p, w)
    ensures Cost(g, p) == Fin((|p| - 1) as real * w)
    decreases |p|
  {
    if |p| > 1 {
      var front := p[..|p| - 1];
      assert UniformSteps(g, front, w) by {
        forall i | 0 <= i < |front| - 1 ensures Weight(g, front[i], front[i + 1]) == Some(w) {
          assert front[i] == p[i] && front[i + 1] == p[i + 1];
        }
      }
      UniformCost(g, front, w);
      assert Weight(g, p[|p| - 2], p[|p| - 1]) == Some(w);
    }
  }

  /** Every edge of the graph has a positive weight. */
  ghost predicate PositiveWeights(g: AdjMap) {
    forall u, v, w :: u in g && (v, w) in g[u] ==> w > 0.0
  }

  /** With positive weights, a finite path of at least one step has a positive length. */
  lemma {:induction false} PositiveCost(g: AdjMap, p: Path)
    requires PositiveWeights(g) && |p| >= 2 && Cost(g, p).Fin?
    ensures Cost(g, p).value > 0.0
    decreases |p|
  {
    var front := p[..|p| - 1];
    var w := Weight(g, p[|p| - 2], p[|p| - 1]);
    assert w.Some? && (p[|p| - 1], w.value) in g[p[|p| - 2]];
    if |p| > 2 {
      PositiveCost(g, front);
    }
  }

  /** x to the power n. */
  function Pow(x: real, n: nat): (r: real)
    ensures x >= 0.0 ==> r >= 0.0
    ensures x > 0.0 ==> r > 0.0
  {
    if n == 0 then 1.0 else x * Pow(x, n - 1)
  }

  /** pheromone ** alpha * (1 / weight) ** beta, and 0 for a weight of 0. */
  function Desirability(pheromone: real, weight: real, alpha: nat, beta: nat): (r: real)
    ensures weight == 0.0 ==> r == 0.0
    ensures pheromone >= 0.0 && weight > 0.0 ==> r >= 0.0
    ensures pheromone > 0.0 && weight > 0.0 ==> r > 0.0
  {
    var heuristic := if weight != 0.0 then Pow(1.0 / weight, beta) else 0.0;
    Pow(pheromone, alpha) * heuristic
  }

  /** set(start_node): Python builds the set of the start name's characters,
      each a one-character string. */
  function CharSet(s: string): (r: set<string>)
    ensures forall c :: c in r ==> |c| == 1
    ensures |s| == 1 ==> r == {s}
  {
    var r := set i | 0 <= i < |s| :: [s[i]];
    assert |s| == 1 ==> [s[0]] in r && s == [s[0]];
    r
  }
}
