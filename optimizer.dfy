/** antoptimizer/AntOptimizer.py: the ant colony search for a shortest Hamiltonian cycle
    over a snapshot of a Graph, with a pheromone table keyed by (neighbor, weight). */
module Optimizer {
  import opened Wrappers
  import opened Seqs
  import opened EdgeLists
  import opened Adjacency
  import opened Graphs
  import opened Tours
  import opened Pheromones
  import opened Ranking

  /** The edge e out of `current` is scored by _choose_next_node: its neighbour is unvisited
      and (neighbor, weight) is a key of the current node's pheromone entry. */
  predicate Scored(t: Table, current: string, e: Edge, visited: set<string>) {
    e.0 !in visited && current in t && e in t[current]
  }

  /** The (neighbor, desirability) list _choose_next_node builds from the edge list `es`. */
  function Candidates(t: Table, current: string, es: seq<Edge>, visited: set<string>, alpha: nat, beta: nat)
    : (r: seq<(string, real)>)
    ensures forall j :: 0 <= j < |r| ==> r[j].0 !in visited && HasNeighbor(es, r[j].0)
    ensures |r| == 0 <==> forall i :: 0 <= i < |es| ==> !Scored(t, current, es[i], visited)
    decreases |es|
  {
    if |es| == 0 then []
    else
      var front := es[..|es| - 1];
      var e := es[|es| - 1];
      var rest := Candidates(t, current, front, visited, alpha, beta);
      assert forall n :: HasNeighbor(front, n) ==> HasNeighbor(es, n) by {
        forall n | HasNeighbor(front, n) ensures HasNeighbor(es, n) {
          var i :| 0 <= i < |front| && front[i].0 == n;
          assert es[i] == front[i];
        }
      }
      assert HasNeighbor(es, e.0) by {
        assert es[|es| - 1].0 == e.0;
      }
      if Scored(t, current, e, visited) then
        rest + [(e.0, Desirability(t[current][e], e.1, alpha, beta))]
      else
        assert forall i :: 0 <= i < |front| ==> front[i] == es[i];
        rest
  }

  /** sum(prob for _, prob in probabilities), added from the left. */
  function Total(probabilities: seq<(string, real)>): (r: real)
    ensures (forall i :: 0 <= i < |probabilities| ==> probabilities[i].1 >= 0.0) ==>
      r >= 0.0 && (r == 0.0 <==> forall i :: 0 <= i < |probabilities| ==> probabilities[i].1 == 0.0)
    decreases |probabilities|
  {
    if |probabilities| == 0 then 0.0
    else Total(probabilities[..|probabilities| - 1]) + probabilities[|probabilities| - 1].1
  }

  /** [neighbor for neighbor, _ in neighbors if neighbor not in visited] */
  function UnvisitedNeighbors(es: seq<Edge>, visited: set<string>): (r: seq<string>)
    ensures forall n :: n in r <==> n !in visited && HasNeighbor(es, n)
  {
    if |es| == 0 then []
    else
      var rest := UnvisitedNeighbors(es[1..], visited);
      assert forall n :: HasNeighbor(es, n) <==> es[0].0 == n || HasNeighbor(es[1..], n) by {
        forall n | HasNeighbor(es, n) && es[0].0 != n ensures HasNeighbor(es[1..], n) {
          var i :| 0 <= i < |es| && es[i].0 == n;
          assert es[1..][i - 1] == es[i];
        }
        forall n | HasNeighbor(es[1..], n) ensures HasNeighbor(es, n) {
          var i :| 0 <= i < |es[1..]| && es[1..][i].0 == n;
          assert es[i + 1] == es[1..][i];
        }
      }
      if es[0].0 !in visited then [es[0].0] + rest else rest
  }

  /** The open part of a constructed path: without the closing copy of the start when it is a cycle. */
  function Open(p: Path, isCycle: bool): Path
    requires |p| >= 1
  {
    if isCycle then p[..|p| - 1] else p
  }

  /** Every node of a walk that starts inside a closed graph is a node of the graph. */
  lemma StepInside(g: AdjMap, p: Path, i: nat)
    requires Closed(g) && Walk(g, p) && |p| >= 1 && p[0] in g && i < |p|
    ensures p[i] in g
  {
    if i > 0 {
      AdjacentInside(g, p[i - 1], p[i]);
    }
  }

  /** The visited set of _construct_path once it has grown `p`: set(start_node), then every node
      appended after the start. */
  function Visited(p: Path): set<string>
    requires |p| >= 1
  {
    CharSet(p[0]) + Elements(p[1..])
  }

  /** Appending a node to the path adds it to the visited set. */
  lemma VisitedNext(p: Path, x: string)
    requires |p| >= 1
    ensures Visited(p + [x]) == Visited(p) + {x}
  {
    assert (p + [x])[1..] == p[1..] + [x];
  }

  /** Every two different nodes are joined by an edge. */
  ghost predicate Complete(g: AdjMap) {
    forall u, v {:trigger Adjacent(g, u, v)} :: u in g && v in g && u != v ==> Adjacent(g, u, v)
  }

  /** What the ants of one iteration built: the n_ants results of _construct_path, their
      lengths, and the walk each of them grew before it stopped. */
  datatype Trial = Trial(paths: seq<Option<Path>>, lengths: seq<Length>, grown: seq<Path>)

  /** A walk with distinct one-character names on a graph closed under its edges,
      that started inside the graph or could not leave its start, and that stopped once it
      had as many names as `keys`: it has max(len(keys), 1) nodes, and it covers every
      node when it started inside the graph. */
  lemma FullWalk(g: AdjMap, keys: seq<string>, p: Path)
    requires Closed(g) && Distinct(keys) && Elements(keys) == g.Keys
    requires |p| >= 1 && Walk(g, p) && Distinct(p) && |Elements(p)| >= |keys|
    ensures |p| == if |keys| > 0 then |keys| else 1
    ensures p[0] in g ==> Elements(p) == g.Keys
  {
    DistinctCard(p);
    DistinctCard(keys);
    if p[0] in g {
      assert Elements(p) <= g.Keys by {
        forall x | x in Elements(p) ensures x in g {
          var i :| 0 <= i < |p| && p[i] == x;
          StepInside(g, p, i);
        }
      }
      SubsetCard(Elements(p), g.Keys);
      SubsetSameCard(Elements(p), g.Keys);
    } else {
      assert |p| > 1 ==> Adjacent(g, p[0], p[1]);
    }
  }

  /** The running best of find_hamiltonian_cycle: (best_path, best_path_length). */
  type Best = (Option<Path>, Length)

  /** One iteration of lines 47-54: the head of the sorted valid paths replaces the best
      only when it is strictly shorter. */
  function Improve(best: Best, valid: seq<Candidate>): (r: Best)
    ensures AtMost(r.1, best.1)
    ensures r != best ==>
      && |valid| > 0
      && Below(r.1, best.1)
      && r == (Some(valid[FirstMinIndex(LengthsOf(valid))].0), valid[FirstMinIndex(LengthsOf(valid))].1)
    ensures |valid| > 0 && Below(valid[FirstMinIndex(LengthsOf(valid))].1, best.1) ==> r != best
  {
    if |valid| == 0 then best
    else
      SortHeadIsFirstMinimum(valid);
      var head := SortByLength(valid)[0];
      if Below(head.1, best.1) then (Some(head.0), head.1) else best
  }

  /** The best after the given iterations' valid paths, starting from (None, inf). */
  function BestAfter(rounds: seq<seq<Candidate>>): (r: Best)
    ensures r.0.None? <==> r.1.Inf?
    decreases |rounds|
  {
    if |rounds| == 0 then (None, Inf)
    else Improve(BestAfter(rounds[..|rounds| - 1]), rounds[|rounds| - 1])
  }

  /** Every candidate of every iteration has a finite length. */
  ghost predicate FiniteRounds(rounds: seq<seq<Candidate>>) {
    forall k, c :: 0 <= k < |rounds| && c in rounds[k] ==> c.1.Fin?
  }

  /** The best is (None, inf) exactly when no iteration had a valid path, and a finite length otherwise. */
  lemma {:induction false} BestAfterEmpty(rounds: seq<seq<Candidate>>)
    requires FiniteRounds(rounds)
    ensures BestAfter(rounds).0.None? <==> forall k :: 0 <= k < |rounds| ==> |rounds[k]| == 0
    ensures BestAfter(rounds).0.None? ==> BestAfter(rounds).1 == Inf
    ensures BestAfter(rounds).0.Some? ==> BestAfter(rounds).1.Fin?
    decreases |rounds|
  {
    if |rounds| > 0 {
      var front := rounds[..|rounds| - 1];
      var last := rounds[|rounds| - 1];
      assert forall k :: 0 <= k < |front| ==> front[k] == rounds[k];
      BestAfterEmpty(front);
      if |last| > 0 {
        var m := FirstMinIndex(LengthsOf(last));
        assert last[m] in last;
      }
    }
  }

  /** A best path is one of the valid paths of some iteration, with its length. */
  lemma {:induction false} BestAfterAchieved(rounds: seq<seq<Candidate>>)
    ensures BestAfter(rounds).0.Some? ==>
      exists k :: 0 <= k < |rounds| && (BestAfter(rounds).0.value, BestAfter(rounds).1) in rounds[k]
    decreases |rounds|
  {
    if |rounds| > 0 {
      var front := rounds[..|rounds| - 1];
      var last := rounds[|rounds| - 1];
      BestAfterAchieved(front);
      var prev := BestAfter(front);
      var b := BestAfter(rounds);
      if b != prev {
        var m := FirstMinIndex(LengthsOf(last));
        assert (b.0.value, b.1) == last[m];
        assert (b.0.value, b.1) in rounds[|rounds| - 1];
      } else if prev.0.Some? {
        var k :| 0 <= k < |front| && (prev.0.value, prev.1) in front[k];
        assert front[k] == rounds[k];
      }
    }
  }

  /** No valid path of any iteration is shorter than the best. */
  lemma {:induction false} BestAfterIsShortest(rounds: seq<seq<Candidate>>)
    ensures forall k, c :: 0 <= k < |rounds| && c in rounds[k] ==> AtMost(BestAfter(rounds).1, c.1)
    decreases |rounds|
  {
    if |rounds| > 0 {
      var front := rounds[..|rounds| - 1];
      var last := rounds[|rounds| - 1];
      assert forall k :: 0 <= k < |front| ==> front[k] == rounds[k];
      BestAfterIsShortest(front);
      var prev := BestAfter(front);
      var b := BestAfter(rounds);
      assert b == Improve(prev, last);
      forall k, c | 0 <= k < |rounds| && c in rounds[k] ensures AtMost(b.1, c.1) {
        if k < |front| {
          assert c in front[k];
          assert AtMost(prev.1, c.1) && AtMost(b.1, prev.1);
        } else {
          var m := FirstMinIndex(LengthsOf(last));
          var j :| 0 <= j < |last| && last[j] == c;
          assert AtMost(last[m].1, last[j].1);
          assert AtMost(b.1, last[m].1);
        }
      }
    }
  }

  /** The best length after more iterations is no longer than after fewer. */
  lemma {:induction false} BestNeverIncreases(rounds: seq<seq<Candidate>>, k: nat)
    requires k <= |rounds|
    ensures AtMost(BestAfter(rounds).1, BestAfter(rounds[..k]).1)
    decreases |rounds|
  {
    if k < |rounds| {
      var front := rounds[..|rounds| - 1];
      assert front[..k] == rounds[..k];
      BestNeverIncreases(front, k);
    } else {
      assert rounds[..k] == rounds;
    }
  }

  /** The pheromone table after the given iterations: an iteration with valid paths applies
      _update_pheromones to the sorted valid paths and their lengths; one without leaves the
      table as it is. */
  function Replay(t: Table, g: AdjMap, rate: real, rounds: seq<seq<Candidate>>): (r: Table)
    ensures SameShape(t, r)
    decreases |rounds|
  {
    if |rounds| == 0 then t
    else
      var prev := Replay(t, g, rate, rounds[..|rounds| - 1]);
      var last := rounds[|rounds| - 1];
      if |last| == 0 then prev
      else
        var sorted := SortByLength(last);
        Update(prev, g, rate, PathsOf(sorted), LengthsOf(sorted))
  }

  /** With a rate in [0, 1] and non-negative lengths, replayed levels stay non-negative. */
  lemma {:induction false} ReplayKeepsNonNegative(t: Table, g: AdjMap, rate: real, rounds: seq<seq<Candidate>>)
    requires 0.0 <= rate <= 1.0 && NonNegative(t)
    requires forall k, c :: 0 <= k < |rounds| && c in rounds[k] ==> c.1.Fin? && c.1.value >= 0.0
    ensures NonNegative(Replay(t, g, rate, rounds))
    decreases |rounds|
  {
    if |rounds| > 0 {
      var front := rounds[..|rounds| - 1];
      assert forall k :: 0 <= k < |front| ==> front[k] == rounds[k];
      ReplayKeepsNonNegative(t, g, rate, front);
      var last := rounds[|rounds| - 1];
      if |last| > 0 {
        var sorted := SortByLength(last);
        var lengths := LengthsOf(sorted);
        forall j | 0 <= j < |lengths| && lengths[j].Fin? ensures lengths[j].value >= 0.0 {
          assert sorted[j] in last;
        }
        UpdateKeepsNonNegative(Replay(t, g, rate, front), g, rate, PathsOf(sorted), lengths);
      }
    }
  }

  /** Replay over one more iteration. */
  lemma ReplayNext(t: Table, g: AdjMap, rate: real, rounds: seq<seq<Candidate>>, valid: seq<Candidate>)
    ensures Replay(t, g, rate, rounds + [valid]) ==
      if |valid| == 0 then Replay(t, g, rate, rounds)
      else Update(Replay(t, g, rate, rounds), g, rate, PathsOf(SortByLength(valid)), LengthsOf(SortByLength(valid)))
  {
    assert (rounds + [valid])[..|rounds|] == rounds;
  }

  /** BestAfter over one more iteration. */
  lemma BestAfterNext(rounds: seq<seq<Candidate>>, valid: seq<Candidate>)
    ensures BestAfter(rounds + [valid]) == Improve(BestAfter(rounds), valid)
  {
    assert (rounds + [valid])[..|rounds|] == rounds;
  }

  /** Some iteration among rounds + [valid] has a valid path exactly when one of rounds has or valid is not empty. */
  lemma FoundNext(rounds: seq<seq<Candidate>>, valid: seq<Candidate>)
    ensures (exists k :: 0 <= k < |rounds| + 1 && |(rounds + [valid])[k]| > 0) <==>
      (exists k :: 0 <= k < |rounds| && |rounds[k]| > 0) || |valid| > 0
  {
    if exists k :: 0 <= k < |rounds| && |rounds[k]| > 0 {
      var k :| 0 <= k < |rounds| && |rounds[k]| > 0;
      assert (rounds + [valid])[k] == rounds[k];
    }
    if |valid| > 0 {
      assert (rounds + [valid])[|rounds|] == valid;
    }
  }

  class AntOptimizer {
    /** The graph's adjacency when the optimizer was built. */
    const adj: AdjMap
    /** list(graph.nodes.keys()) */
    const nodes: seq<string>
    const nAnts: int
    const nIterations: int
    const alpha: nat
    const beta: nat
    const evaporationRate: real
    var pheromones: Table
    var bestPath: Option<Path>
    var bestPathLength: Length

    ghost predicate Valid()
      reads this
    {
      && Closed(adj)
      && Distinct(nodes)
      && Elements(nodes) == adj.Keys
      && Mirrors(pheromones, adj)
    }

    /** Some unvisited neighbour of `current` is scored in the table `t`: the choice cannot fail. */
    ghost predicate CanExtend(t: Table, current: string, visited: set<string>) {
      exists i :: 0 <= i < |Neighbors(adj, current)| && Scored(t, current, Neighbors(adj, current)[i], visited)
    }

    /** A path _construct_path can return: it starts at the start node (one of the nodes when
        none is given), each step follows an edge, a cycle ends where it started, and with a
        one-character start name the open part has distinct nodes, max(len(nodes), 1) of them,
        covering the graph when the start is one of its nodes. */
    ghost predicate Constructed(p: Path, start: Option<string>, isCycle: bool) {
      && |p| >= 1
      && Walk(adj, p)
      && (start.Some? ==> p[0] == start.value)
      && (start.None? ==> p[0] in adj)
      && (isCycle ==> |p| >= 2 && p[|p| - 1] == p[0])
      && (|p[0]| == 1 ==>
            && Distinct(Open(p, isCycle))
            && |Open(p, isCycle)| == (if |nodes| > 0 then |nodes| else 1)
            && (p[0] in adj ==> Elements(Open(p, isCycle)) == adj.Keys))
    }

    /** The path the loop of _construct_path grows from `s`: a walk starting at s and, with a
        one-character s, the open-path shape of Constructed. */
    ghost predicate Grown(p: Path, s: string) {
      && |p| >= 1
      && p[0] == s
      && Walk(adj, p)
      && (|s| == 1 ==>
            && Distinct(p)
            && |p| == (if |nodes| > 0 then |nodes| else 1)
            && (s in adj ==> Elements(p) == adj.Keys))
    }

    /** A walk from the start (one of the nodes when none is given), without repeated nodes
        when the start's name has one character. */
    ghost predicate Began(p: Path, start: Option<string>) {
      && |p| >= 1
      && Walk(adj, p)
      && (start.Some? ==> p[0] == start.value)
      && (start.None? ==> p[0] in adj)
      && (|p[0]| == 1 ==> Distinct(p))
    }

    /** The loop of _construct_path, having grown `p` with the table `t`, has not yet visited
        len(nodes) names and the choice of the next node fails. */
    ghost predicate Stuck(t: Table, p: Path)
      requires |p| >= 1
    {
      |Visited(p)| < |nodes| && !CanExtend(t, p[|p| - 1], Visited(p))
    }

    /** One call of _construct_path with the table `t`: it grew the walk `grown` from the start
        until the visited set held len(nodes) names or the choice failed. The result is None
        exactly when the choice failed or a cycle could not be closed; otherwise it is the grown
        walk, closed back to its start when a cycle is asked for. */
    ghost predicate Attempt(t: Table, result: Option<Path>, grown: Path, start: Option<string>, isCycle: bool) {
      && Began(grown, start)
      && (Stuck(t, grown) || |Visited(grown)| >= |nodes|)
      && (result.None? <==> Stuck(t, grown) || (isCycle && !Adjacent(adj, grown[|grown| - 1], grown[0])))
      && (result.Some? ==>
            && result.value == (if isCycle then grown + [grown[0]] else grown)
            && Constructed(result.value, start, isCycle))
    }

    /** The n_ants results of one call of _construct_solutions with the table `t`, each with
        its length and the walk it grew. */
    ghost predicate Solutions(t: Table, paths: seq<Option<Path>>, lengths: seq<Length>, grown: seq<Path>,
                              start: Option<string>, isCycle: bool) {
      && |paths| == |lengths| == |grown| == (if nAnts > 0 then nAnts else 0)
      && forall j :: 0 <= j < |paths| ==>
           lengths[j] == PathLength(adj, paths[j]) && Attempt(t, paths[j], grown[j], start, isCycle)
    }

    /** One turn of the loop of _construct_path keeps its invariant. */
    lemma GrowStep(path: Path, visited: set<string>, next: string)
      requires |path| >= 1 && Walk(adj, path)
      requires |path[0]| == 1 ==> visited == Elements(path) && Distinct(path)
      requires next !in visited && Adjacent(adj, path[|path| - 1], next)
      ensures Walk(adj, path + [next]) && (path + [next])[0] == path[0]
      ensures |path[0]| == 1 ==> visited + {next} == Elements(path + [next]) && Distinct(path + [next])
    {
      WalkExtend(adj, path, next);
      assert Elements(path + [next]) == Elements(path) + {next};
    }

    /** Closing a grown path (when it is a cycle) gives a constructed path. */
    lemma Finish(p: Path, start: Option<string>, isCycle: bool)
      requires |p| >= 1 && Grown(p, p[0])
      requires start.Some? ==> p[0] == start.value
      requires start.None? ==> p[0] in adj
      requires isCycle ==> Adjacent(adj, p[|p| - 1], p[0])
      ensures Constructed(if isCycle then p + [p[0]] else p, start, isCycle)
    {
      if isCycle {
        WalkExtend(adj, p, p[0]);
        assert (p + [p[0]])[..|p|] == p;
      }
    }

    /** The loop stopped because the choice failed: the attempt yields None. */
    lemma StuckAttempt(t: Table, grown: Path, start: Option<string>, isCycle: bool)
      requires Began(grown, start) && Stuck(t, grown)
      ensures Attempt(t, None, grown, start, isCycle)
    { }

    /** The loop visited len(nodes) names: the attempt yields the grown walk, closed when a
        cycle is asked for and can be closed, and None when it cannot. */
    lemma FinishedAttempt(t: Table, grown: Path, start: Option<string>, isCycle: bool)
      requires Began(grown, start) && Grown(grown, grown[0]) && |Visited(grown)| >= |nodes|
      ensures isCycle && !Adjacent(adj, grown[|grown| - 1], grown[0]) ==> Attempt(t, None, grown, start, isCycle)
      ensures !isCycle ==> Attempt(t, Some(grown), grown, start, isCycle)
      ensures isCycle && Adjacent(adj, grown[|grown| - 1], grown[0]) ==>
        Attempt(t, Some(grown + [grown[0]]), grown, start, isCycle)
    {
      if !isCycle || Adjacent(adj, grown[|grown| - 1], grown[0]) {
        Finish(grown, start, isCycle);
      }
    }

    constructor (graph: Graph, nAnts: int, nIterations: int, alpha: nat := 1, beta: nat := 2,
                 evaporationRate: real := 0.5, pheromoneInit: real := 0.1)
      requires graph.Valid()
      ensures adj == graph.Adj() && nodes == graph.order
      ensures this.nAnts == nAnts && this.nIterations == nIterations
      ensures this.alpha == alpha && this.beta == beta && this.evaporationRate == evaporationRate
      ensures pheromones == Initial(adj, pheromoneInit)
      ensures bestPath == None && bestPathLength == Inf
      ensures Valid()
    {
      adj := graph.Adj();
      nodes := graph.order;
      this.nAnts := nAnts;
      this.nIterations := nIterations;
      this.alpha := alpha;
      this.beta := beta;
      this.evaporationRate := evaporationRate;
      pheromones := Initial(graph.Adj(), pheromoneInit);
      bestPath := None;
      bestPathLength := Inf;
      new;
      assert Elements(nodes) == adj.Keys by {
        forall k ensures k in Elements(nodes) <==> k in adj {
          assert k in graph.order <==> k in graph.nodes;
        }
      }
    }

    /** With the table mirroring the graph, the choice fails exactly when every neighbour of
        `current` is visited. */
    lemma StuckOnlyWhenSurrounded(t: Table, current: string, visited: set<string>)
      requires Mirrors(t, adj)
      ensures CanExtend(t, current, visited) <==>
        exists i :: 0 <= i < |Neighbors(adj, current)| && Neighbors(adj, current)[i].0 !in visited
    {
      if current in adj {
        forall i | 0 <= i < |adj[current]| ensures adj[current][i] in t[current] {
          assert adj[current][i] in adj[current];
        }
      }
    }

    /** _choose_next_node: an unvisited neighbour of `current`, picked among the scored ones,
        or among all unvisited neighbours when every score is 0; None when no neighbour is scored. */
    method ChooseNextNode(current: string, visited: set<string>) returns (next: Option<string>)
      requires Valid()
      ensures next.None? <==> !CanExtend(pheromones, current, visited)
      ensures next.Some? ==> next.value !in visited && Adjacent(adj, current, next.value)
    {
      var neighbors := Neighbors(adj, current);
      var probabilities: seq<(string, real)> := [];
      var i := 0;
      while i < |neighbors|
        invariant 0 <= i <= |neighbors|
        invariant probabilities == Candidates(pheromones, current, neighbors[..i], visited, alpha, beta)
      {
        var (neighbor, weight) := neighbors[i];
        assert neighbors[..i + 1][..i] == neighbors[..i];
        assert neighbors[..i + 1][i] == (neighbor, weight);
        if neighbor !in visited {
          var key := (neighbor, weight);
          assert current in pheromones;
          if key in pheromones[current] {
            // pheromone ** alpha times the heuristic (1 / weight) ** beta, or 0 for a weight of 0
            var score := Desirability(pheromones[current][key], weight, alpha, beta);
            probabilities := probabilities + [(neighbor, score)];
          }
        }
        i := i + 1;
      }
      assert neighbors[..i] == neighbors;
      if |probabilities| == 0 {
        return None;
      }
      assert current in adj;
      var total := Total(probabilities);
      if total == 0.0 {
        var unvisited := UnvisitedNeighbors(neighbors, visited);
        // the scored neighbour is unvisited, so the `else None` of the source is never taken
        assert probabilities[0].0 in unvisited;
        var n :| n in unvisited;
        return Some(n);
      }
      var k :| 0 <= k < |probabilities|;
      return Some(probabilities[k].0);
    }

    /** The loop of _construct_path from the start `s`: it stops when the visited set holds
        len(nodes) names, or, with `stuck`, when the choice of the next node fails. */
    method Grow(s: string) returns (path: Path, stuck: bool)
      requires Valid()
      ensures |path| >= 1 && path[0] == s && Walk(adj, path)
      ensures |s| == 1 ==> Visited(path) == Elements(path) && Distinct(path)
      ensures stuck ==> Stuck(pheromones, path)
      ensures !stuck ==> |Visited(path)| >= |nodes|
    {
      path := [s];
      var visited := CharSet(s);
      assert path[1..] == [];
      while |visited| < |nodes|
        invariant |path| >= 1 && path[0] == s
        invariant Walk(adj, path)
        invariant visited == Visited(path)
        invariant |s| == 1 ==> visited == Elements(path) && Distinct(path)
        decreases |nodes| - |visited|
      {
        var current := path[|path| - 1];
        var next := ChooseNextNode(current, visited);
        if next.None? {
          return path, true;
        }
        GrowStep(path, visited, next.value);
        VisitedNext(path, next.value);
        path := path + [next.value];
        visited := visited + {next.value};
      }
      return path, false;
    }

    /** _construct_path: `grown` is the walk its loop grew before it stopped. */
    method ConstructPath(start: Option<string>, isCycle: bool) returns (r: Outcome<Option<Path>>, ghost grown: Path)
      requires Valid()
      ensures r.Raise? <==> start.None? && |nodes| == 0
      ensures r.Raise? ==> r.error == IndexError
      ensures r.Ok? ==> Attempt(pheromones, r.value, grown, start, isCycle)
    {
      var s: string;
      if start.Some? {
        s := start.value;
      } else {
        if |nodes| == 0 {
          return Raise(IndexError), [];
        }
        var k :| 0 <= k < |nodes|;
        s := nodes[k];
        assert s in Elements(nodes);
      }
      var path, stuck := Grow(s);
      grown := path;
      if stuck {
        StuckAttempt(pheromones, path, start, isCycle);
        return Ok(None), grown;
      }
      if |s| == 1 {
        DistinctCard(path);
        FullWalk(adj, nodes, path);
      }
      assert Grown(path, s);
      FinishedAttempt(pheromones, path, start, isCycle);
      if isCycle {
        if Adjacent(adj, path[|path| - 1], path[0]) {
          path := path + [path[0]];
        } else {
          return Ok(None), grown;
        }
      }
      return Ok(Some(path)), grown;
    }

    /** _calculate_path_length. */
    method CalculatePathLength(path: Option<Path>) returns (length: Length)
      ensures length == PathLength(adj, path)
    {
      if path.None? {
        return Inf;
      }
      var p := path.value;
      var total := 0.0;
      var i := 0;
      while i < |p| - 1
        invariant 0 <= i <= |p|
        invariant |p| >= 1 ==> i <= |p| - 1 && Cost(adj, p[..i + 1]) == Fin(total)
        invariant |p| == 0 ==> total == 0.0
      {
        var weight := Weight(adj, p[i], p[i + 1]);
        if weight.None? {
          assert HasMissingStep(adj, p);
          CostInfinite(adj, p);
          return Inf;
        }
        CostStep(adj, p, i, total);
        total := total + weight.value;
        i := i + 1;
      }
      if |p| >= 1 {
        assert p[..i + 1] == p;
      }
      return Fin(total);
    }

    /** _construct_solutions: n_ants paths, each with its length. */
    method ConstructSolutions(start: Option<string>, isCycle: bool)
      returns (r: Outcome<(seq<Option<Path>>, seq<Length>)>, ghost grown: seq<Path>)
      requires Valid()
      ensures r.Raise? <==> start.None? && |nodes| == 0 && nAnts > 0
      ensures r.Raise? ==> r.error == IndexError
      ensures r.Ok? ==> Solutions(pheromones, r.value.0, r.value.1, grown, start, isCycle)
    {
      var paths: seq<Option<Path>> := [];
      var lengths: seq<Length> := [];
      grown := [];
      var n := 0;
      while n < nAnts
        invariant 0 <= n <= (if nAnts > 0 then nAnts else 0)
        invariant |paths| == |lengths| == |grown| == n
        invariant n > 0 ==> !(start.None? && |nodes| == 0)
        invariant forall j :: 0 <= j < n ==>
          lengths[j] == PathLength(adj, paths[j]) && Attempt(pheromones, paths[j], grown[j], start, isCycle)
      {
        var path, walk := ConstructPath(start, isCycle);
        if path.Raise? {
          return Raise(path.error), grown;
        }
        var length := CalculatePathLength(path.value);
        paths := paths + [path.value];
        lengths := lengths + [length];
        grown := grown + [walk];
        n := n + 1;
      }
      return Ok((paths, lengths)), grown;
    }

    /** One pass of the second loop of _update_pheromones: the steps of one path with a finite
        length. `t` is any table of the same shape, such as the one before evaporation. */
    method ReinforcePath(table: Table, path: Path, length: Length, ghost t: Table) returns (r: Outcome<Table>)
      requires table.Keys == adj.Keys && SameShape(t, table) && length.Fin?
      ensures r.Raise? <==> DividesPath(t, adj, path, length)
      ensures r.Raise? ==> r.error == ZeroDivisionError
      ensures r.Ok? ==> r.value == Contribution(table, adj, path, length)
    {
      var current := table;
      var l := length.value;
      ghost var amount := if l != 0.0 then 1.0 / l else 0.0;
      var i := 0;
      while i < |path| - 1
        invariant 0 <= i <= Steps(path)
        invariant current.Keys == adj.Keys && SameShape(t, current)
        invariant l != 0.0 ==> current == DepositSteps(table, adj, path, amount, i)
        invariant l == 0.0 ==>
          current == table && forall i' :: 0 <= i' < i ==> !TrackedStep(t, adj, path, i')
      {
        var u, v := path[i], path[i + 1];
        SameShapeTracks(t, current, adj, u, v);
        var next := DepositStep(current, u, v, l, amount);
        if next.Raise? {
          assert TrackedStep(t, adj, path, i);
          return Raise(next.error);
        }
        assert l == 0.0 ==> !TrackedStep(t, adj, path, i);
        if l != 0.0 {
          DepositStepsNext(table, adj, path, amount, i, current, next.value);
        }
        SameShapeTrans(t, current, next.value);
        current := next.value;
        i := i + 1;
      }
      return Ok(current);
    }

    /** One step u->v of a path: the entry of the first u->v edge gains 1 / length when the
        table has it; a zero length then divides by zero. */
    method DepositStep(table: Table, u: string, v: string, length: real, ghost amount: real)
        returns (r: Outcome<Table>)
      requires Adjacent(adj, u, v) ==> u in table
      requires length != 0.0 ==> amount == 1.0 / length
      ensures r.Raise? <==> length == 0.0 && Tracked(table, adj, u, v)
      ensures r.Raise? ==> r.error == ZeroDivisionError
      ensures r.Ok? ==> r.value == Deposit(table, adj, u, v, amount)
    {
      var weight := Weight(adj, u, v);
      if weight.Some? {
        var key := (v, weight.value);
        if key in table[u] {
          if length == 0.0 {
            return Raise(ZeroDivisionError);
          }
          DepositTracked(table, adj, u, v, amount, weight.value);
          return Ok(table[u := table[u][key := table[u][key] + 1.0 / length]]);
        }
      }
      return Ok(table);
    }

    /** The second loop of _update_pheromones, run on the evaporated table; `t` is the table
        before evaporation. */
    method Reinforcement(table: Table, paths: seq<Path>, lengths: seq<Length>, ghost t: Table)
        returns (result: Table, r: Outcome<()>)
      requires table.Keys == adj.Keys && SameShape(t, table)
      ensures SameShape(table, result)
      ensures r.Raise? <==> DividesByZero(t, adj, paths, lengths)
      ensures r.Raise? ==> r.error == ZeroDivisionError
      ensures r.Ok? ==> result == ReinforceAll(table, adj, paths, lengths, Min(|paths|, |lengths|))
      ensures result == ReinforceAll(table, adj, paths, lengths, FirstDivision(t, adj, paths, lengths, 0))
    {
      result := table;
      var n := Min(|paths|, |lengths|);
      var j := 0;
      while j < n
        invariant 0 <= j <= n
        invariant SameShape(table, result)
        invariant result == ReinforceAll(table, adj, paths, lengths, j)
        invariant !DividesWithin(t, adj, paths, lengths, j)
      {
        var path, length := paths[j], lengths[j];
        if length.Inf? {
          ReinforceAllNext(table, adj, paths, lengths, j);
          j := j + 1;
          continue;
        }
        var done := ReinforcePath(result, path, length, t);
        if done.Raise? {
          DividesWithinSome(t, adj, paths, lengths, j + 1);
          FirstDivisionAt(t, adj, paths, lengths, j);
          // the earlier paths' deposits stay in the table
          return result, Raise(done.error);
        }
        ReinforceAllNext(table, adj, paths, lengths, j);
        result := done.value;
        j := j + 1;
      }
      DividesWithinSome(t, adj, paths, lengths, n);
      FirstDivisionAll(t, adj, paths, lengths);
      return result, Ok(());
    }

    /** _update_pheromones. The table keeps its shape whatever happens; on success it is the
        evaporated then reinforced table, and on ZeroDivisionError it keeps the deposits of the
        paths before the one that divides. */
    method UpdatePheromones(paths: seq<Path>, lengths: seq<Length>) returns (r: Outcome<()>)
      requires Valid()
      modifies this
      ensures Valid() && SameShape(old(pheromones), pheromones)
      ensures r.Raise? <==> DividesByZero(old(pheromones), adj, paths, lengths)
      ensures r.Raise? ==> r.error == ZeroDivisionError
      ensures r.Ok? ==> pheromones == Update(old(pheromones), adj, evaporationRate, paths, lengths)
      ensures pheromones == Halted(old(pheromones), adj, evaporationRate, paths, lengths)
      ensures bestPath == old(bestPath) && bestPathLength == old(bestPathLength)
    {
      var table := Evaporation(pheromones, evaporationRate);
      table, r := Reinforcement(table, paths, lengths, pheromones);
      pheromones := table;
    }

    /** Every valid path of an iteration is a constructed cycle from `start` whose finite length is
        its cost. */
    ghost predicate Sound(valid: seq<Candidate>, start: Option<string>) {
      forall c :: c in valid ==> c.1.Fin? && c.1 == Cost(adj, c.0) && Constructed(c.0, start, true)
    }

    ghost predicate Recorded(rounds: seq<seq<Candidate>>, start: Option<string>) {
      |rounds| > 0 ==> Recorded(rounds[..|rounds| - 1], start) && Sound(rounds[|rounds| - 1], start)
    }

    /** Every recorded iteration is sound. */
    lemma {:induction false} RecordedEach(rounds: seq<seq<Candidate>>, start: Option<string>, k: nat)
      requires Recorded(rounds, start) && k < |rounds|
      ensures Sound(rounds[k], start)
    {
      if k < |rounds| - 1 {
        RecordedEach(rounds[..|rounds| - 1], start, k);
      }
    }

    /** The valid pairs of one call of _construct_solutions are sound. */
    lemma ValidSound(t: Table, paths: seq<Option<Path>>, lengths: seq<Length>, grown: seq<Path>, start: Option<string>)
      requires Solutions(t, paths, lengths, grown, start, true)
      ensures Sound(ValidPairs(Zip(paths, lengths)), start)
    {
      var z := Zip(paths, lengths);
      forall c | c in ValidPairs(z) ensures c.1.Fin? && c.1 == Cost(adj, c.0) && Constructed(c.0, start, true) {
        var j :| 0 <= j < |z| && z[j] == (Some(c.0), c.1);
        assert paths[j] == Some(c.0) && lengths[j] == c.1;
        assert Attempt(t, paths[j], grown[j], start, true);
      }
    }

    /** What the running best is, given sound iterations: (None, inf) when no iteration had a valid
        path; otherwise a constructed cycle with its cost, and no valid path of any iteration is shorter. */
    lemma BestFacts(rounds: seq<seq<Candidate>>, start: Option<string>)
      requires Recorded(rounds, start)
      ensures BestAfter(rounds).0.None? <==> forall k :: 0 <= k < |rounds| ==> |rounds[k]| == 0
      ensures BestAfter(rounds).0.None? ==> BestAfter(rounds).1 == Inf
      ensures BestAfter(rounds).0.Some? ==>
        BestAfter(rounds).1 == Cost(adj, BestAfter(rounds).0.value) &&
        Constructed(BestAfter(rounds).0.value, start, true)
      ensures forall k, c :: 0 <= k < |rounds| && c in rounds[k] ==> AtMost(BestAfter(rounds).1, c.1)
    {
      assert FiniteRounds(rounds) by {
        forall k, c | 0 <= k < |rounds| && c in rounds[k] ensures c.1.Fin? {
          RecordedEach(rounds, start, k);
        }
      }
      BestAfterEmpty(rounds);
      BestAfterAchieved(rounds);
      BestAfterIsShortest(rounds);
      var b := BestAfter(rounds);
      if b.0.Some? {
        var k :| 0 <= k < |rounds| && (b.0.value, b.1) in rounds[k];
        RecordedEach(rounds, start, k);
      }
    }

    /** With positive edge weights no valid cycle has length 0, so _update_pheromones cannot
        divide by zero. */
    lemma PositiveCycles(valid: seq<Candidate>, start: Option<string>)
      requires PositiveWeights(adj) && Sound(valid, start)
      ensures forall c :: c in valid ==> c.1.Fin? && c.1.value > 0.0
    {
      forall c | c in valid ensures c.1.Fin? && c.1.value > 0.0 {
        PositiveCost(adj, c.0);
      }
    }

    /** Recording one more sound iteration. */
    lemma RecordedNext(rounds: seq<seq<Candidate>>, valid: seq<Candidate>, start: Option<string>)
      requires Recorded(rounds, start) && Sound(valid, start)
      ensures Recorded(rounds + [valid], start)
    {
      assert (rounds + [valid])[..|rounds|] == rounds;
    }

    /** _update_pheromones over the valid pairs of an iteration, sorted by length, divides by zero. */
    ghost predicate Divides(t: Table, valid: seq<Candidate>) {
      |valid| > 0 && DividesByZero(t, adj, PathsOf(SortByLength(valid)), LengthsOf(SortByLength(valid)))
    }

    /** Iteration `k` of a search from the table `t0`: its valid pairs are those of what its
        ants built with the table the earlier iterations left. */
    ghost predicate Turn(t0: Table, trial: Trial, rounds: seq<seq<Candidate>>, k: nat, start: Option<string>)
      requires k < |rounds|
    {
      && Solutions(Replay(t0, adj, evaporationRate, rounds[..k]), trial.paths, trial.lengths, trial.grown, start, true)
      && rounds[k] == ValidPairs(Zip(trial.paths, trial.lengths))
    }

    /** The iterations of a search from the table `t0`, each with what its ants built. */
    ghost predicate Ran(t0: Table, trials: seq<Trial>, rounds: seq<seq<Candidate>>, start: Option<string>) {
      && |trials| == |rounds|
      && forall k :: 0 <= k < |rounds| ==> Turn(t0, trials[k], rounds, k, start)
    }

    /** No iteration of a search from the table `t0` divided by zero. */
    ghost predicate Calm(t0: Table, rounds: seq<seq<Candidate>>)
      decreases |rounds|
    {
      |rounds| > 0 ==>
        var n := |rounds| - 1;
        Calm(t0, rounds[..n]) && !Divides(Replay(t0, adj, evaporationRate, rounds[..n]), rounds[n])
    }

    /** An iteration keeps its meaning when later iterations are recorded after it. */
    lemma TurnKept(t0: Table, trial: Trial, rounds: seq<seq<Candidate>>, valid: seq<Candidate>, k: nat, start: Option<string>)
      requires k < |rounds| && Turn(t0, trial, rounds, k, start)
      ensures Turn(t0, trial, rounds + [valid], k, start)
    {
      assert (rounds + [valid])[..k] == rounds[..k];
    }

    /** Recording one more iteration of what the ants built. */
    lemma RanNext(t0: Table, trials: seq<Trial>, rounds: seq<seq<Candidate>>, trial: Trial,
                  valid: seq<Candidate>, start: Option<string>)
      requires Ran(t0, trials, rounds, start)
      requires Solutions(Replay(t0, adj, evaporationRate, rounds), trial.paths, trial.lengths, trial.grown, start, true)
      requires valid == ValidPairs(Zip(trial.paths, trial.lengths))
      ensures Ran(t0, trials + [trial], rounds + [valid], start)
    {
      forall k | 0 <= k < |rounds| + 1 ensures Turn(t0, (trials + [trial])[k], rounds + [valid], k, start) {
        if k < |rounds| {
          TurnKept(t0, trials[k], rounds, valid, k, start);
        } else {
          assert (rounds + [valid])[..k] == rounds;
        }
      }
    }

    /** Recording one more iteration that did not divide by zero. */
    lemma CalmNext(t0: Table, rounds: seq<seq<Candidate>>, valid: seq<Candidate>)
      requires Calm(t0, rounds) && !Divides(Replay(t0, adj, evaporationRate, rounds), valid)
      ensures Calm(t0, rounds + [valid])
    {
      assert (rounds + [valid])[..|rounds|] == rounds;
    }

    /** Lines 51-53 of find_hamiltonian_cycle: the candidate replaces the best only when it is
        strictly shorter. */
    method KeepBest(head: Candidate)
      requires Valid()
      modifies this
      ensures Valid() && pheromones == old(pheromones)
      ensures (bestPath, bestPathLength) ==
        if Below(head.1, old(bestPathLength)) then (Some(head.0), head.1) else old((bestPath, bestPathLength))
    {
      if Below(head.1, bestPathLength) {
        bestPathLength := head.1;
        bestPath := Some(head.0);
      }
    }

    /** One iteration of the loop of find_hamiltonian_cycle: build n_ants cycles, keep the valid
        ones; when there are some, the shortest (the first of equal ones) replaces the best only
        if strictly shorter, and then the pheromones are updated with the valid paths sorted by
        length. `trial` is what the ants built. */
    method Iteration(start: Option<string>) returns (r: Outcome<()>, valid: seq<Candidate>, ghost trial: Trial)
      requires Valid()
      modifies this
      ensures Valid() && Sound(valid, start)
      ensures r.Raise? && r.error == IndexError <==> nAnts > 0 && start.None? && |nodes| == 0
      ensures r.Raise? && r.error == IndexError ==>
        && valid == []
        && pheromones == old(pheromones)
        && bestPath == old(bestPath) && bestPathLength == old(bestPathLength)
      ensures !(r.Raise? && r.error == IndexError) ==>
        && Solutions(old(pheromones), trial.paths, trial.lengths, trial.grown, start, true)
        && valid == ValidPairs(Zip(trial.paths, trial.lengths))
        && (bestPath, bestPathLength) == Improve(old((bestPath, bestPathLength)), valid)
        && SameShape(old(pheromones), pheromones)
      ensures r.Raise? && r.error != IndexError ==> r.error == ZeroDivisionError
      ensures r.Raise? && r.error == ZeroDivisionError <==> Divides(old(pheromones), valid)
      ensures r.Raise? && r.error == ZeroDivisionError ==> exists c :: c in valid && c.1 == Fin(0.0)
      ensures r.Raise? && r.error == ZeroDivisionError ==>
        pheromones == Halted(old(pheromones), adj, evaporationRate,
                             PathsOf(SortByLength(valid)), LengthsOf(SortByLength(valid)))
      ensures r.Ok? ==>
        pheromones == (if |valid| == 0 then old(pheromones)
                       else Update(old(pheromones), adj, evaporationRate,
                                   PathsOf(SortByLength(valid)), LengthsOf(SortByLength(valid))))
    {
      var solutions, grown := ConstructSolutions(start, true);
      if solutions.Raise? {
        return Raise(solutions.error), [], Trial([], [], []);
      }
      var (paths, lengths) := solutions.value;
      trial := Trial(paths, lengths, grown);
      valid := ValidPairs(Zip(paths, lengths));
      ValidSound(pheromones, paths, lengths, grown, start);
      if |valid| > 0 {
        var sorted := SortByLength(valid);
        KeepBest(sorted[0]);
        ghost var before := pheromones;
        var update := UpdatePheromones(PathsOf(sorted), LengthsOf(sorted));
        if update.Raise? {
          ZeroLengthSorted(before, valid);
          return Raise(update.error), valid, trial;
        }
      }
      return Ok(()), valid, trial;
    }

    /** find_hamiltonian_cycle. `rounds` records the valid pairs of each iteration and `trials`
        what its ants built. The best is reset first; the result is (None, inf) when no iteration
        had a valid path, and the best otherwise. */
    method FindHamiltonianCycle(start: Option<string> := None)
        returns (r: Outcome<(Option<Path>, Length)>, ghost rounds: seq<seq<Candidate>>, ghost trials: seq<Trial>)
      requires Valid()
      modifies this
      ensures Valid() && Recorded(rounds, start) && Ran(old(pheromones), trials, rounds, start)
      ensures r.Raise? && r.error == IndexError <==>
        nIterations > 0 && nAnts > 0 && start.None? && |nodes| == 0
      ensures r.Raise? && r.error == IndexError ==>
        bestPath == None && bestPathLength == Inf && pheromones == old(pheromones)
      ensures r.Raise? && r.error != IndexError ==>
        && r.error == ZeroDivisionError
        && |rounds| > 0
        && Calm(old(pheromones), rounds[..|rounds| - 1])
        && Divides(Replay(old(pheromones), adj, evaporationRate, rounds[..|rounds| - 1]), rounds[|rounds| - 1])
        && (exists c :: c in rounds[|rounds| - 1] && c.1 == Fin(0.0))
        && (bestPath, bestPathLength) == BestAfter(rounds)
        && pheromones == Halted(Replay(old(pheromones), adj, evaporationRate, rounds[..|rounds| - 1]), adj, evaporationRate,
                                PathsOf(SortByLength(rounds[|rounds| - 1])), LengthsOf(SortByLength(rounds[|rounds| - 1])))
      ensures r.Ok? ==>
        && |rounds| == (if nIterations > 0 then nIterations else 0)
        && Calm(old(pheromones), rounds)
        && r.value == (bestPath, bestPathLength) == BestAfter(rounds)
        && pheromones == Replay(old(pheromones), adj, evaporationRate, rounds)
    {
      bestPath := None;
      bestPathLength := Inf;
      var found := false;
      rounds := [];
      trials := [];
      var iteration := 0;
      while iteration < nIterations
        invariant 0 <= iteration <= (if nIterations > 0 then nIterations else 0)
        invariant Valid() && Recorded(rounds, start)
        invariant Ran(old(pheromones), trials, rounds, start) && Calm(old(pheromones), rounds)
        invariant |rounds| == iteration
        invariant (bestPath, bestPathLength) == BestAfter(rounds)
        invariant pheromones == Replay(old(pheromones), adj, evaporationRate, rounds)
        invariant found <==> exists k :: 0 <= k < |rounds| && |rounds[k]| > 0
        invariant iteration > 0 ==> !(nAnts > 0 && start.None? && |nodes| == 0)
      {
        ghost var before := pheromones;
        var done, valid, trial := Iteration(start);
        if done.Raise? && done.error == IndexError {
          return Raise(done.error), rounds, trials;
        }
        RecordedNext(rounds, valid, start);
        RanNext(old(pheromones), trials, rounds, trial, valid, start);
        BestAfterNext(rounds, valid);
        if done.Raise? {
          assert (rounds + [valid])[..|rounds|] == rounds;
          assert (rounds + [valid])[|rounds|] == valid;
          return Raise(done.error), rounds + [valid], trials + [trial];
        }
        if |valid| > 0 {
          found := true;
        }
        CalmNext(old(pheromones), rounds, valid);
        ReplayNext(old(pheromones), adj, evaporationRate, rounds, valid);
        FoundNext(rounds, valid);
        rounds := rounds + [valid];
        trials := trials + [trial];
        iteration := iteration + 1;
      }
      BestFacts(rounds, start);
      if !found {
        return Ok((None, Inf)), rounds, trials;
      }
      return Ok((bestPath, bestPathLength)), rounds, trials;
    }

    /** A walk from a one-character start inside the graph holds distinct nodes of the graph,
        its visited set is its set of nodes, and it has at most len(nodes) of them. */
    lemma GrownInside(grown: Path, s: string)
      requires Closed(adj) && Distinct(nodes) && Elements(nodes) == adj.Keys
      requires |s| == 1 && s in adj && Began(grown, Some(s))
      ensures Visited(grown) == Elements(grown) && |Elements(grown)| == |grown|
      ensures forall i :: 0 <= i < |grown| ==> grown[i] in adj
      ensures |grown| <= |nodes|
    {
      assert grown == [grown[0]] + grown[1..];
      assert Elements(grown) == {grown[0]} + Elements(grown[1..]);
      forall i | 0 <= i < |grown| ensures grown[i] in adj {
        StepInside(adj, grown, i);
      }
      DistinctCard(grown);
      DistinctCard(nodes);
      SubsetCard(Elements(grown), Elements(nodes));
    }

    /** On a complete graph, a walk from a one-character start that has not visited every node
        can always be extended: the choice does not fail. */
    lemma CompleteNeverStuck(t: Table, grown: Path, s: string)
      requires Closed(adj) && Distinct(nodes) && Elements(nodes) == adj.Keys && Mirrors(t, adj)
      requires Complete(adj) && |s| == 1 && s in adj && Began(grown, Some(s))
      ensures !Stuck(t, grown)
    {
      GrownInside(grown, s);
      if |Visited(grown)| < |nodes| {
        var last := grown[|grown| - 1];
        MissingElement(grown, nodes);
        var x :| x in nodes && x !in grown;
        assert x in Elements(nodes);
        assert Adjacent(adj, last, x);
        var i :| 0 <= i < |adj[last]| && adj[last][i].0 == x;
        assert adj[last][i] in adj[last];
        assert Scored(t, last, Neighbors(adj, last)[i], Visited(grown));
      }
    }

    /** On a complete graph of two or more nodes, a walk from a one-character start that has
        visited every node ends next to its start. */
    lemma CompleteCloses(grown: Path, s: string)
      requires Closed(adj) && Distinct(nodes) && Elements(nodes) == adj.Keys
      requires Complete(adj) && |nodes| >= 2 && |s| == 1 && s in adj && Began(grown, Some(s))
      requires |Visited(grown)| >= |nodes|
      ensures Adjacent(adj, grown[|grown| - 1], grown[0])
    {
      GrownInside(grown, s);
      assert grown[|grown| - 1] != grown[0];
    }

    /** On a complete graph of two or more nodes, an ant that starts at a node with a
        one-character name never gets stuck and always closes its cycle. */
    lemma CompleteAttemptSucceeds(t: Table, result: Option<Path>, grown: Path, s: string)
      requires Closed(adj) && Distinct(nodes) && Elements(nodes) == adj.Keys && Mirrors(t, adj)
      requires Complete(adj) && |nodes| >= 2 && |s| == 1 && s in adj
      requires Attempt(t, result, grown, Some(s), true)
      ensures result.Some?
    {
      CompleteNeverStuck(t, grown, s);
      CompleteCloses(grown, s);
    }

    /** On a complete graph of two or more nodes, one call of _construct_solutions with ants
        from a node with a one-character name yields at least one valid cycle. */
    lemma CompleteRoundValid(t: Table, paths: seq<Option<Path>>, lengths: seq<Length>, grown: seq<Path>, s: string)
      requires Closed(adj) && Distinct(nodes) && Elements(nodes) == adj.Keys && Mirrors(t, adj)
      requires Complete(adj) && |nodes| >= 2 && |s| == 1 && s in adj && nAnts > 0
      requires Solutions(t, paths, lengths, grown, Some(s), true)
      ensures |ValidPairs(Zip(paths, lengths))| > 0
    {
      CompleteAttemptSucceeds(t, paths[0], grown[0], s);
      WalkCost(adj, paths[0].value);
      var z := Zip(paths, lengths);
      assert z[0] == (paths[0], lengths[0]);
    }

    /** On a complete graph of two or more nodes, a search with ants from a node with a
        one-character name keeps a valid cycle in every iteration, so its best path is not None. */
    lemma CompleteFindsCycle(t0: Table, trials: seq<Trial>, rounds: seq<seq<Candidate>>, s: string)
      requires Closed(adj) && Distinct(nodes) && Elements(nodes) == adj.Keys && Mirrors(t0, adj)
      requires Complete(adj) && |nodes| >= 2 && |s| == 1 && s in adj && nAnts > 0
      requires Ran(t0, trials, rounds, Some(s))
      ensures forall k :: 0 <= k < |rounds| ==> |rounds[k]| > 0
      ensures |rounds| > 0 && Recorded(rounds, Some(s)) ==> BestAfter(rounds).0.Some?
    {
      forall k | 0 <= k < |rounds| ensures |rounds[k]| > 0 {
        assert Turn(t0, trials[k], rounds, k, Some(s));
        var t := Replay(t0, adj, evaporationRate, rounds[..k]);
        MirrorsKept(t0, t, adj);
        CompleteRoundValid(t, trials[k].paths, trials[k].lengths, trials[k].grown, s);
      }
      if |rounds| > 0 && Recorded(rounds, Some(s)) {
        BestFacts(rounds, Some(s));
      }
    }

    /** A division by zero in _update_pheromones over the sorted valid paths needs a valid path
        of length 0. */
    lemma ZeroLengthSorted(t: Table, valid: seq<Candidate>)
      requires DividesByZero(t, adj, PathsOf(SortByLength(valid)), LengthsOf(SortByLength(valid)))
      ensures exists c :: c in valid && c.1 == Fin(0.0)
    {
      var sorted := SortByLength(valid);
      var j :| 0 <= j < Min(|sorted|, |sorted|) &&
        ZeroLengthTracked(t, adj, PathsOf(sorted), LengthsOf(sorted), j);
      assert sorted[j] in valid;
    }
  }
}
