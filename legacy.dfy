/** ant.py: the earlier copy of the optimizer. It differs from antoptimizer/AntOptimizer.py in
    that a choice with no unvisited neighbour falls back to any unvisited node, a cycle is closed
    without checking for an edge, reinforcement never happens, and run keeps the best of
    earlier calls. */
module LegacyOptimizer {
  import opened Wrappers
  import opened Seqs
  import opened EdgeLists
  import opened Adjacency
  import opened Graphs
  import opened Tours
  import opened Pheromones
  import opened Ranking
  import Optimizer

  /** (best_path, best_path_length). */
  type Best = (Option<Path>, Length)

  /** [node for node in nodes if node not in visited], visited being the path so far. */
  function Unvisited(ns: seq<string>, path: Path): (r: seq<string>)
    ensures forall n :: n in r <==> n in ns && n !in path
  {
    if |ns| == 0 then []
    else
      var rest := Unvisited(ns[1..], path);
      assert forall n :: n in ns <==> n == ns[0] || n in ns[1..];
      if ns[0] !in path then [ns[0]] + rest else rest
  }

  /** Lines 21-24 of run: min(lengths) replaces the best only when strictly shorter, together
      with paths[lengths.index(min)]. */
  function Better(best: Best, paths: seq<Path>, lengths: seq<Length>): (r: Best)
    requires |paths| == |lengths| > 0
    ensures AtMost(r.1, best.1)
    ensures r != best ==>
      && Below(r.1, best.1)
      && r == (Some(paths[FirstMinIndex(lengths)]), lengths[FirstMinIndex(lengths)])
    ensures Below(lengths[FirstMinIndex(lengths)], best.1) ==> r != best
  {
    var m := Minimum(lengths);
    MinimumIndex(lengths);
    if Below(m, best.1) then (Some(paths[IndexOf(lengths, m)]), m) else best
  }

  /** One iteration's paths and lengths. */
  type Round = (seq<Path>, seq<Length>)

  ghost predicate NonEmptyRounds(rounds: seq<Round>) {
    forall k :: 0 <= k < |rounds| ==> |rounds[k].0| == |rounds[k].1| > 0
  }

  /** The best after the given iterations of run, from the best `b` the optimizer held before. */
  function RunBest(b: Best, rounds: seq<Round>): (r: Best)
    requires NonEmptyRounds(rounds)
    ensures AtMost(r.1, b.1)
    decreases |rounds|
  {
    if |rounds| == 0 then b
    else
      var last := rounds[|rounds| - 1];
      Better(RunBest(b, rounds[..|rounds| - 1]), last.0, last.1)
  }

  /** RunBest over one more iteration. */
  lemma RunBestNext(b: Best, rounds: seq<Round>, paths: seq<Path>, lengths: seq<Length>)
    requires NonEmptyRounds(rounds) && |paths| == |lengths| > 0
    ensures NonEmptyRounds(rounds + [(paths, lengths)])
    ensures RunBest(b, rounds + [(paths, lengths)]) == Better(RunBest(b, rounds), paths, lengths)
  {
    assert (rounds + [(paths, lengths)])[..|rounds|] == rounds;
  }

  /** The best length never increases over the iterations, and no length of any iteration is shorter. */
  lemma {:induction false} RunBestIsShortest(b: Best, rounds: seq<Round>)
    requires NonEmptyRounds(rounds)
    ensures AtMost(RunBest(b, rounds).1, b.1)
    ensures forall k, j :: 0 <= k < |rounds| && 0 <= j < |rounds[k].1| ==> AtMost(RunBest(b, rounds).1, rounds[k].1[j])
    decreases |rounds|
  {
    if |rounds| > 0 {
      var front := rounds[..|rounds| - 1];
      var last := rounds[|rounds| - 1];
      assert forall k :: 0 <= k < |front| ==> front[k] == rounds[k];
      RunBestIsShortest(b, front);
      var prev := RunBest(b, front);
      var r := RunBest(b, rounds);
      assert r == Better(prev, last.0, last.1);
      forall k, j | 0 <= k < |rounds| && 0 <= j < |rounds[k].1| ensures AtMost(r.1, rounds[k].1[j]) {
        if k < |front| {
          assert AtMost(prev.1, front[k].1[j]);
        } else {
          var m := FirstMinIndex(last.1);
          assert AtMost(last.1[m], last.1[j]);
        }
      }
    }
  }

  /** The best is the one held before, or one of the iterations' paths with its length. */
  lemma {:induction false} RunBestAchieved(b: Best, rounds: seq<Round>)
    requires NonEmptyRounds(rounds)
    ensures RunBest(b, rounds) == b ||
      exists k, j :: 0 <= k < |rounds| && 0 <= j < |rounds[k].0| &&
        RunBest(b, rounds) == (Some(rounds[k].0[j]), rounds[k].1[j])
    decreases |rounds|
  {
    if |rounds| > 0 {
      var front := rounds[..|rounds| - 1];
      var last := rounds[|rounds| - 1];
      RunBestAchieved(b, front);
      var prev := RunBest(b, front);
      var r := RunBest(b, rounds);
      if r != prev {
        var m := FirstMinIndex(last.1);
        assert r == (Some(rounds[|rounds| - 1].0[m]), rounds[|rounds| - 1].1[m]);
      } else if prev != b {
        var k, j :| 0 <= k < |front| && 0 <= j < |front[k].0| && prev == (Some(front[k].0[j]), front[k].1[j]);
        assert front[k] == rounds[k];
      }
    }
  }

  /** run never resets the best: a second call continues from the best of the first, exactly as
      one call over the iterations of both. */
  lemma {:induction false} RunBestAppend(b: Best, first: seq<Round>, second: seq<Round>)
    requires NonEmptyRounds(first) && NonEmptyRounds(second)
    ensures NonEmptyRounds(first + second)
    ensures RunBest(b, first + second) == RunBest(RunBest(b, first), second)
    decreases |second|
  {
    if |second| == 0 {
      assert first + second == first;
    } else {
      var front := second[..|second| - 1];
      var last := second[|second| - 1];
      RunBestAppend(b, first, front);
      assert (first + second)[..|first + second| - 1] == first + front;
      assert (first + second)[|first + second| - 1] == last;
    }
  }

  /** The table after n calls of _update_pheromones: evaporated n times, nothing deposited. */
  function Decayed<K>(t: map<string, map<K, real>>, rate: real, n: nat): (r: map<string, map<K, real>>)
    ensures SameShape(t, r)
  {
    if n == 0 then t
    else
      var prev := Decayed(t, rate, n - 1);
      SameShapeTrans(t, prev, Evaporate(prev, rate));
      Evaporate(prev, rate)
  }

  /** x multiplied n times by f. */
  function Shrunk(x: real, f: real, n: nat): real {
    if n == 0 then x else Product(Shrunk(x, f, n - 1), f)
  }

  /** a * b, named so that a level's history can be followed step by step. */
  function Product(a: real, b: real): real {
    a * b
  }

  /** After n calls every level is its starting value multiplied n times by (1 - rate). */
  lemma {:induction false} DecayedLevel<K>(t: map<string, map<K, real>>, rate: real, n: nat, u: string, k: K)
    requires u in t && k in t[u]
    ensures u in Decayed(t, rate, n) && k in Decayed(t, rate, n)[u]
    ensures Decayed(t, rate, n)[u][k] == Shrunk(t[u][k], 1.0 - rate, n)
  {
    if n > 0 {
      DecayedLevel(t, rate, n - 1, u, k);
      var prev := Decayed(t, rate, n - 1);
      EvaporateLevel(prev, rate, u, k, prev[u][k]);
    }
  }


  /** One evaporation multiplies a level x by (1 - rate). */
  lemma EvaporateLevel<K>(t: map<string, map<K, real>>, rate: real, u: string, k: K, x: real)
    requires u in t && k in t[u] && t[u][k] == x
    ensures u in Evaporate(t, rate) && k in Evaporate(t, rate)[u]
    ensures Evaporate(t, rate)[u][k] == Product(x, 1.0 - rate)
  {
  }

  /** Multiplying n times by f is multiplying by f^n. */
  lemma {:induction false} ShrunkIsPower(x: real, f: real, n: nat)
    ensures Shrunk(x, f, n) == x * Pow(f, n)
  {
    if n > 0 {
      ShrunkIsPower(x, f, n - 1);
      var p := Pow(f, n - 1);
      assert (x * p) * f == x * (f * p);
    }
  }

  /** With a rate in (0, 1], a positive level strictly drops at every call of run's iterations,
      and a rate in [0, 1] never raises a non-negative level. */
  lemma {:induction false} DecayedNeverRises(t: Table, rate: real, n: nat, u: string, k: Edge)
    requires u in t && k in t[u] && t[u][k] >= 0.0 && 0.0 <= rate <= 1.0
    ensures u in Decayed(t, rate, n) && k in Decayed(t, rate, n)[u]
    ensures 0.0 <= Decayed(t, rate, n)[u][k] <= t[u][k]
    ensures 0.0 < rate && t[u][k] > 0.0 && n > 0 ==> Decayed(t, rate, n)[u][k] < t[u][k]
  {
    DecayedLevel(t, rate, n, u, k);
    ShrunkBounded(t[u][k], 1.0 - rate, n);
  }

  /** Shrinking by a factor in [0, 1] keeps a level in [0, level], and a positive level
      multiplied at least once by a factor below 1 strictly drops. */
  lemma {:induction false} ShrunkBounded(x: real, f: real, n: nat)
    requires x >= 0.0 && 0.0 <= f <= 1.0
    ensures 0.0 <= Shrunk(x, f, n) <= x
    ensures x > 0.0 && f < 1.0 && n > 0 ==> Shrunk(x, f, n) < x
  {
    if n > 0 {
      ShrunkBounded(x, f, n - 1);
      var y := Shrunk(x, f, n - 1);
      ScaleDown(y, f);
      assert Shrunk(x, f, n) == y * f;
      if x > 0.0 && f < 1.0 {
        if n == 1 {
          assert y == x && y * f < x;
        } else {
          assert y < x;
        }
      }
    }
  }

  /** Some path among the first min(len(paths), len(lengths)) has a step from a node that is not
      in the graph: self.pheromones[u] raises KeyError there. */
  ghost predicate UnknownStep(g: AdjMap, paths: seq<Path>, lengths: seq<Length>) {
    exists j, i :: 0 <= j < Min(|paths|, |lengths|) && 0 <= i < |paths[j]| - 1 && paths[j][i] !in g
  }

  class AntOptimizer {
    /** The graph's adjacency when the optimizer was built. */
    const adj: AdjMap
    /** list(graph.nodes.keys()) */
    const nodes: seq<string>
    const nAnts: int
    const nIterations: int
    const alpha: nat
    const beta: nat
    const evaporationRate: real
    var pheromones: Table
    var bestPath: Option<Path>
    var bestPathLength: Length

    ghost predicate Valid()
      reads this
    {
      && Closed(adj)
      && Distinct(nodes)
      && Elements(nodes) == adj.Keys
      && Mirrors(pheromones, adj)
    }

    /** Some neighbour of `current` is not in the path. */
    ghost predicate HasUnvisitedNeighbor(current: string, path: Path) {
      exists i :: 0 <= i < |Neighbors(adj, current)| && Neighbors(adj, current)[i].0 !in path
    }

    /** A path _construct_path can return: it starts at the start node (one of the nodes when
        none is given); its open part has max(len(nodes), 1) distinct nodes, every one after the
        first a node of the graph, and covers the graph when the start is one of its nodes; with
        `hamiltonian` the start is appended once more, whether or not an edge leads back to it. */
    ghost predicate Built(p: Path, start: Option<string>, hamiltonian: bool) {
      && |p| >= 1
      && (start.Some? ==> p[0] == start.value)
      && (start.None? ==> p[0] in adj)
      && (hamiltonian ==> |p| >= 2 && p[|p| - 1] == p[0])
      && var open := Optimizer.Open(p, hamiltonian);
         && Distinct(open)
         && |open| == (if |nodes| > 0 then |nodes| else 1)
         && (forall i :: 1 <= i < |open| ==> open[i] in adj)
         && (p[0] in adj ==> Elements(open) == adj.Keys)
    }

    /** The n_ants paths of one call of _construct_solutions, each with its length. */
    ghost predicate Solutions(paths: seq<Path>, lengths: seq<Length>, start: Option<string>, hamiltonian: bool) {
      && |paths| == |lengths| == (if nAnts > 0 then nAnts else 0)
      && forall j :: 0 <= j < |paths| ==> lengths[j] == Cost(adj, paths[j]) && Built(paths[j], start, hamiltonian)
    }

    /** The iterations run completed, each a full set of solutions, oldest first. */
    ghost predicate Recorded(rounds: seq<Round>, start: Option<string>, hamiltonian: bool) {
      |rounds| > 0 ==>
        && Recorded(rounds[..|rounds| - 1], start, hamiltonian)
        && Solutions(rounds[|rounds| - 1].0, rounds[|rounds| - 1].1, start, hamiltonian)
    }

    /** The exception one iteration of run raises: random.choice on an empty node list while
        building a path; KeyError in _update_pheromones when the start is not a node and its
        path has a step; min of an empty list when there are no ants. */
    function Failure(start: Option<string>, hamiltonian: bool): Option<Exception> {
      if nAnts > 0 && start.None? && |nodes| == 0 then Some(IndexError)
      else if nAnts > 0 && start.Some? && start.value !in adj && (|nodes| >= 2 || hamiltonian) then Some(KeyError)
      else if nAnts <= 0 then Some(ValueError)
      else None
    }

    /** The order of run's errors: with no ants, min([]) raises ValueError, and a run that raises
        nothing has ants and, without a start, nodes. */
    lemma FailureCases(start: Option<string>, hamiltonian: bool)
      ensures nAnts <= 0 ==> Failure(start, hamiltonian) == Some(ValueError)
      ensures Failure(start, hamiltonian).None? ==> nAnts > 0 && (start.None? ==> |nodes| > 0)
    { }

    constructor (graph: Graph, nAnts: int, nIterations: int, alpha: nat := 1, beta: nat := 2,
                 evaporationRate: real := 0.5, pheromoneInit: real := 0.1)
      requires graph.Valid()
      ensures adj == graph.Adj() && nodes == graph.order
      ensures this.nAnts == nAnts && this.nIterations == nIterations
      ensures this.alpha == alpha && this.beta == beta && this.evaporationRate == evaporationRate
      ensures pheromones == Initial(adj, pheromoneInit)
      ensures bestPath == None && bestPathLength == Inf
      ensures Valid()
    {
      adj := graph.Adj();
      nodes := graph.order;
      this.nAnts := nAnts;
      this.nIterations := nIterations;
      this.alpha := alpha;
      this.beta := beta;
      this.evaporationRate := evaporationRate;
      pheromones := Initial(graph.Adj(), pheromoneInit);
      bestPath := None;
      bestPathLength := Inf;
      new;
      assert Elements(nodes) == adj.Keys by {
        forall k ensures k in Elements(nodes) <==> k in adj {
          assert k in graph.order <==> k in graph.nodes;
        }
      }
    }

    /** The table has a level for every edge of `current`, so each lookup of line 55 succeeds and
        every unvisited neighbour is scored. */
    lemma EveryEdgeScored(current: string, visited: set<string>)
      requires Valid()
      ensures forall i :: 0 <= i < |Neighbors(adj, current)| ==>
        (Optimizer.Scored(pheromones, current, Neighbors(adj, current)[i], visited) <==> Neighbors(adj, current)[i].0 !in visited)
    {
      if current in adj {
        forall i | 0 <= i < |adj[current]| ensures adj[current][i] in pheromones[current] {
          assert adj[current][i] in adj[current];
        }
      }
    }

    /** _choose_next_node: a node not in the path. It is an unvisited neighbour of `current`
        when there is one; otherwise any unvisited node of the graph, adjacent or not, and
        random.choice raises IndexError when every node is in the path. */
    method ChooseNextNode(current: string, path: Path) returns (r: Outcome<string>)
      requires Valid()
      ensures r.Raise? <==> forall n :: n in nodes ==> n in path
      ensures r.Raise? ==> r.error == IndexError
      ensures r.Ok? ==> r.value !in path && r.value in adj
      ensures r.Ok? && HasUnvisitedNeighbor(current, path) ==> Adjacent(adj, current, r.value)
    {
      var visited := Elements(path);
      var neighbors := Neighbors(adj, current);
      var probabilities: seq<(string, real)> := [];
      var i := 0;
      while i < |neighbors|
        invariant 0 <= i <= |neighbors|
        invariant probabilities == Optimizer.Candidates(pheromones, current, neighbors[..i], visited, alpha, beta)
      {
        var (neighbor, weight) := neighbors[i];
        assert neighbors[..i + 1][..i] == neighbors[..i];
        assert neighbors[..i + 1][i] == (neighbor, weight);
        if neighbor !in visited {
          assert current in adj && neighbors[i] in adj[current];
          // pheromone ** alpha times the heuristic (1 / weight) ** beta, or 0 for a weight of 0
          var score := Desirability(pheromones[current][(neighbor, weight)], weight, alpha, beta);
          probabilities := probabilities + [(neighbor, score)];
        }
        i := i + 1;
      }
      assert neighbors[..i] == neighbors;
      EveryEdgeScored(current, visited);
      if |probabilities| == 0 {
        assert !HasUnvisitedNeighbor(current, path);
        var unvisited := Unvisited(nodes, path);
        if |unvisited| == 0 {
          return Raise(IndexError);
        }
        var k :| 0 <= k < |unvisited|;
        assert unvisited[k] in Elements(nodes);
        return Ok(unvisited[k]);
      }
      var total := Optimizer.Total(probabilities);
      var n: string;
      if total == 0.0 {
        var unvisited := Optimizer.UnvisitedNeighbors(neighbors, visited);
        assert probabilities[0].0 in unvisited;
        n :| n in unvisited;
      } else {
        var k :| 0 <= k < |probabilities|;
        n := probabilities[k].0;
      }
      assert current in adj && HasNeighbor(adj[current], n);
      AdjacentInside(adj, current, n);
      return Ok(n);
    }

    /** _construct_path: IndexError only when no start is given and there are no nodes;
        otherwise a built path. */
    method ConstructPath(start: Option<string>, hamiltonian: bool) returns (r: Outcome<Path>)
      requires Valid()
      ensures r.Raise? <==> start.None? && |nodes| == 0
      ensures r.Raise? ==> r.error == IndexError
      ensures r.Ok? ==> Built(r.value, start, hamiltonian)
    {
      var s: string;
      if start.Some? {
        s := start.value;
      } else {
        if |nodes| == 0 {
          return Raise(IndexError);
        }
        var k :| 0 <= k < |nodes|;
        s := nodes[k];
        assert s in Elements(nodes);
      }
      var path: Path := [s];
      while |path| < |nodes|
        invariant 1 <= |path| <= (if |nodes| > 0 then |nodes| else 1)
        invariant path[0] == s && Distinct(path)
        invariant forall i :: 1 <= i < |path| ==> path[i] in adj
        decreases |nodes| - |path|
      {
        var current := path[|path| - 1];
        MissingElement(path, nodes);
        var next := ChooseNextNode(current, path);
        assert next.Ok?;
        path := path + [next.value];
      }
      if s in adj {
        DistinctCard(path);
        DistinctCard(nodes);
        SubsetSameCard(Elements(path), adj.Keys);
      }
      if hamiltonian {
        ghost var walk := path;
        path := path + [path[0]];
        assert path[..|path| - 1] == walk;
      }
      return Ok(path);
    }

    /** _calculate_path_length. */
    method CalculatePathLength(path: Path) returns (length: Length)
      ensures length == Cost(adj, path)
    {
      var total := 0.0;
      var i := 0;
      while i < |path| - 1
        invariant 0 <= i <= |path|
        invariant |path| >= 1 ==> i <= |path| - 1 && Cost(adj, path[..i + 1]) == Fin(total)
        invariant |path| == 0 ==> total == 0.0
      {
        var weight := Weight(adj, path[i], path[i + 1]);
        if weight.None? {
          assert HasMissingStep(adj, path);
          CostInfinite(adj, path);
          return Inf;
        }
        CostStep(adj, path, i, total);
        total := total + weight.value;
        i := i + 1;
      }
      if |path| >= 1 {
        assert path[..i + 1] == path;
      }
      return Fin(total);
    }

    /** A cycle closed back to a start its last node has no edge to has an infinite length. */
    lemma UnclosedCycleInfinite(p: Path, start: Option<string>)
      requires Built(p, start, true) && !Adjacent(adj, p[|p| - 2], p[0])
      ensures Cost(adj, p).Inf?
    {
      assert Weight(adj, p[|p| - 2], p[|p| - 1]).None?;
      CostInfinite(adj, p);
    }

    /** _construct_solutions: n_ants built paths, each with its length. */
    method ConstructSolutions(start: Option<string>, hamiltonian: bool)
      returns (r: Outcome<(seq<Path>, seq<Length>)>)
      requires Valid()
      ensures r.Raise? <==> nAnts > 0 && start.None? && |nodes| == 0
      ensures r.Raise? ==> r.error == IndexError
      ensures r.Ok? ==> Solutions(r.value.0, r.value.1, start, hamiltonian)
    {
      var paths: seq<Path> := [];
      var lengths: seq<Length> := [];
      var n := 0;
      while n < nAnts
        invariant 0 <= n <= (if nAnts > 0 then nAnts else 0)
        invariant |paths| == |lengths| == n
        invariant n > 0 ==> !(start.None? && |nodes| == 0)
        invariant forall j :: 0 <= j < n ==> lengths[j] == Cost(adj, paths[j]) && Built(paths[j], start, hamiltonian)
      {
        var path := ConstructPath(start, hamiltonian);
        if path.Raise? {
          return Raise(path.error);
        }
        var length := CalculatePathLength(path.value);
        paths := paths + [path.value];
        lengths := lengths + [length];
        n := n + 1;
      }
      return Ok((paths, lengths));
    }

    /** The second loop of _update_pheromones: each step u->v looks up self.pheromones[u] and
        tests whether the node name v is one of its (neighbor, weight) keys. A name never equals
        a pair, so nothing is deposited; the lookup raises KeyError for a node that is not in the
        table. */
    method Reinforcement(table: Table, paths: seq<Path>, lengths: seq<Length>) returns (r: Outcome<()>)
      requires table.Keys == adj.Keys
      ensures r.Raise? <==> UnknownStep(adj, paths, lengths)
      ensures r.Raise? ==> r.error == KeyError
    {
      var n := Min(|paths|, |lengths|);
      var j := 0;
      while j < n
        invariant 0 <= j <= n
        invariant forall j', i :: 0 <= j' < j && 0 <= i < |paths[j']| - 1 ==> paths[j'][i] in adj
      {
        var path := paths[j];
        var i := 0;
        while i < |path| - 1
          invariant 0 <= i <= |path|
          invariant forall i' :: 0 <= i' < i && i' < |path| - 1 ==> path[i'] in adj
        {
          if path[i] !in table {
            return Raise(KeyError);
          }
          i := i + 1;
        }
        j := j + 1;
      }
      return Ok(());
    }

    /** _update_pheromones: the table is evaporated, then reinforcement either does nothing or
        raises KeyError; either way only evaporation changes it. */
    method UpdatePheromones(paths: seq<Path>, lengths: seq<Length>) returns (r: Outcome<()>)
      requires Valid()
      modifies this
      ensures Valid()
      ensures pheromones == Evaporate(old(pheromones), evaporationRate)
      ensures r.Raise? <==> UnknownStep(adj, paths, lengths)
      ensures r.Raise? ==> r.error == KeyError
      ensures bestPath == old(bestPath) && bestPathLength == old(bestPathLength)
    {
      pheromones := Evaporation(pheromones, evaporationRate);
      r := Reinforcement(pheromones, paths, lengths);
    }

    /** The only node of a built path that can be missing from the graph is its start, and only
        a path with a step looks it up. */
    lemma UnknownStepIsStart(paths: seq<Path>, lengths: seq<Length>, start: Option<string>, hamiltonian: bool)
      requires Solutions(paths, lengths, start, hamiltonian) && nAnts > 0
      ensures UnknownStep(adj, paths, lengths) <==>
        start.Some? && start.value !in adj && (|nodes| >= 2 || hamiltonian)
    {
      if UnknownStep(adj, paths, lengths) {
        var j, i :| 0 <= j < Min(|paths|, |lengths|) && 0 <= i < |paths[j]| - 1 && paths[j][i] !in adj;
        var p := paths[j];
        assert Built(p, start, hamiltonian);
        var open := Optimizer.Open(p, hamiltonian);
        assert i < |open| && open[i] == p[i];
        assert i == 0;
        assert |p| >= 2 && (!hamiltonian ==> |open| == |p|);
      }
      if start.Some? && start.value !in adj && (|nodes| >= 2 || hamiltonian) {
        var p := paths[0];
        assert Built(p, start, hamiltonian);
        assert |p| >= 2 && p[0] !in adj;
        assert 0 < Min(|paths|, |lengths|) && 0 < |paths[0]| - 1 && paths[0][0] !in adj;
      }
    }

    /** One iteration of the loop of run: build n_ants paths, update the pheromones with all of
        them, then let the shortest replace the best when strictly shorter. */
    method Iteration(start: Option<string>, hamiltonian: bool)
        returns (r: Outcome<()>, ghost paths: seq<Path>, ghost lengths: seq<Length>)
      requires Valid()
      modifies this
      ensures Valid()
      ensures r.Raise? <==> Failure(start, hamiltonian).Some?
      ensures r.Raise? ==>
        && r.error == Failure(start, hamiltonian).value
        && bestPath == old(bestPath) && bestPathLength == old(bestPathLength)
        && pheromones == if r.error == IndexError then old(pheromones) else Evaporate(old(pheromones), evaporationRate)
      ensures r.Ok? ==>
        && nAnts > 0
        && Solutions(paths, lengths, start, hamiltonian)
        && (bestPath, bestPathLength) == Better(old((bestPath, bestPathLength)), paths, lengths)
        && pheromones == Evaporate(old(pheromones), evaporationRate)
    {
      var solutions := ConstructSolutions(start, hamiltonian);
      if solutions.Raise? {
        return Raise(solutions.error), [], [];
      }
      var (ps, ls) := solutions.value;
      paths, lengths := ps, ls;
      if nAnts > 0 {
        UnknownStepIsStart(ps, ls, start, hamiltonian);
      }
      var update := UpdatePheromones(ps, ls);
      if update.Raise? {
        return Raise(update.error), ps, ls;
      }
      if |ls| == 0 {
        return Raise(ValueError), ps, ls;
      }
      var m := Minimum(ls);
      if Below(m, bestPathLength) {
        bestPathLength := m;
        bestPath := Some(ps[IndexOf(ls, m)]);
      }
      return Ok(()), ps, ls;
    }

    /** run. `rounds` records each completed iteration's paths and lengths. The best is not
        reset, so the result is never longer than the best held before the call. The first
        iteration either raises or every iteration succeeds. */
    method Run(start: Option<string> := None, hamiltonian: bool := false) returns (r: Outcome<Best>, ghost rounds: seq<Round>)
      requires Valid()
      modifies this
      ensures Valid()
      ensures r.Raise? <==> nIterations > 0 && Failure(start, hamiltonian).Some?
      ensures r.Raise? ==>
        && r.error == Failure(start, hamiltonian).value
        && bestPath == old(bestPath) && bestPathLength == old(bestPathLength)
        && pheromones == if r.error == IndexError then old(pheromones) else Evaporate(old(pheromones), evaporationRate)
      ensures r.Ok? ==>
        && |rounds| == (if nIterations > 0 then nIterations else 0)
        && Recorded(rounds, start, hamiltonian) && NonEmptyRounds(rounds)
        && r.value == (bestPath, bestPathLength) == RunBest(old((bestPath, bestPathLength)), rounds)
        && pheromones == Decayed(old(pheromones), evaporationRate, |rounds|)
      ensures r.Ok? ==> AtMost(r.value.1, old(bestPathLength))
    {
      rounds := [];
      var iteration := 0;
      while iteration < nIterations
        invariant 0 <= iteration <= (if nIterations > 0 then nIterations else 0)
        invariant Valid() && |rounds| == iteration
        invariant Recorded(rounds, start, hamiltonian) && NonEmptyRounds(rounds)
        invariant iteration > 0 ==> Failure(start, hamiltonian).None?
        invariant (bestPath, bestPathLength) == RunBest(old((bestPath, bestPathLength)), rounds)
        invariant pheromones == Decayed(old(pheromones), evaporationRate, iteration)
      {
        ghost var before := pheromones;
        var done, paths, lengths := Iteration(start, hamiltonian);
        if done.Raise? {
          assert iteration == 0 && before == old(pheromones);
          return Raise(done.error), rounds;
        }
        RunBestNext(old((bestPath, bestPathLength)), rounds, paths, lengths);
        RecordedNext(rounds, paths, lengths, start, hamiltonian);
        rounds := rounds + [(paths, lengths)];
        iteration := iteration + 1;
      }
      RunBestIsShortest(old((bestPath, bestPathLength)), rounds);
      return Ok((bestPath, bestPathLength)), rounds;
    }

    /** Recording one more iteration. */
    lemma RecordedNext(rounds: seq<Round>, paths: seq<Path>, lengths: seq<Length>, start: Option<string>, hamiltonian: bool)
      requires Recorded(rounds, start, hamiltonian)
      requires Solutions(paths, lengths, start, hamiltonian)
      ensures Recorded(rounds + [(paths, lengths)], start, hamiltonian)
    {
      assert (rounds + [(paths, lengths)])[..|rounds|] == rounds;
    }

    /** Every recorded iteration is a full set of solutions. */
    lemma {:induction false} RecordedEach(rounds: seq<Round>, start: Option<string>, hamiltonian: bool, k: nat)
      requires Recorded(rounds, start, hamiltonian) && k < |rounds|
      ensures Solutions(rounds[k].0, rounds[k].1, start, hamiltonian)
    {
      if k < |rounds| - 1 {
        RecordedEach(rounds[..|rounds| - 1], start, hamiltonian, k);
      }
    }
  }
}
