# Ant colony search over an adjacency-list graph, in Dafny

This project models the two layers of the ISU-HW `ant` repository.

**The graph.**
- A `Node` (graph/node.py) holds an ordered list of `(neighbor, weight)` edges.
- A `Graph` (graph/graph.py) is a dictionary from name to `Node`, either oriented or not.
- Both are Dafny classes whose methods update their fields in place.
- The value a graph stands for, a map from name to edge list, is `Adjacency.AdjMap`. The effect of each mutation is a function on that value, and the methods are proved against those functions.
- The graph invariants are:
  - no duplicate pair in a list;
  - every neighbour is a key;
  - adjacency is symmetric when the graph is not oriented.
- Every mutation is proved to preserve them.

**The optimizer of antoptimizer/AntOptimizer.py.**
- It is the class `Optimizer.AntOptimizer`. It holds:
  - the pheromone table, a map from node to a map from `(neighbor, weight)` to level;
  - the running best `(best_path, best_path_length)`.
- Its methods follow the source's loops:
  - choosing the next node;
  - growing a path and a visited set;
  - summing a path's length;
  - evaporating and then reinforcing the table in place;
  - the outer search loop.
- Each method is proved against a specification function:
  - `Cost` for lengths;
  - `Evaporate`, `ReinforceAll` and `Update` for the table;
  - `Improve` and `BestAfter` for the best;
  - `Replay` for the table over a whole search.
- Lemmas prove what those functions mean:
  - the table keeps its keys;
  - levels stay non-negative;
  - the best never increases and is no longer than any valid path;
  - the result is `(None, inf)` exactly when no iteration had a valid path.

**The older optimizer of ant.py.**
- It is the separate class `LegacyOptimizer.AntOptimizer`, so that its differences stay visible:
  - with no scored neighbour, it falls back to any unvisited node, adjacent or not;
  - it closes a cycle without checking adjacency;
  - it updates the pheromones with every path, including infinite ones, before the best is examined;
  - it never resets the best between runs.
- Its reinforcement guard (ant.py:88) tests a node name, a `str`, against a dictionary keyed by `(neighbor, weight)` tuples. A `str` never equals a tuple, so the guard can never hold, and the model leaves the deposit out. A run therefore only decays the table: `Decayed(t, rate, n)` holds each level times `(1 - rate)^n`.
- When the desirabilities sum to zero, ant.py:65 picks among the unvisited neighbours only, and the model does the same.
- Indexing `self.pheromones[u]` still raises `KeyError` for an unknown node. That is modelled, and `UnknownStepIsStart` shows that it happens exactly when the start is not a node and the path has at least one step.

**Exceptions and randomness.**
- Python exceptions are results: `Outcome.Raise(IndexError | KeyError | ValueError | ZeroDivisionError)`. The cases are:
  - `random.choice` on an empty list;
  - `1 / length` with a zero finite length;
  - the `KeyError` above;
  - `min([])` in `run` when `n_ants <= 0`.
- `random.choice` and `random.choices` become a nondeterministic choice (`:|`) among the same candidates.

**The start node's visited set.**
- In antoptimizer/AntOptimizer.py, `visited = set(start_node)` (line 88) is the set of the start name's characters. The model keeps that as `CharSet(start)`. The distinctness, length and coverage facts about its constructed paths are stated for one-character start names, where this set is `{start}`. ant.py tests membership in the path list itself, so its facts hold for every start name.

## Model

| member | source | states |
|---|---|---|
| Nodes.Node.constructor | graph/node.py:3-5 | a new node has the given name and no edges |
| Nodes.Node.AddEdge | graph/node.py:7-9 | the weight defaults to 1; the pair is appended at the end when absent; the list is unchanged when that exact pair is present |
| Nodes.Node.RemoveEdge | graph/node.py:11-12 | the edges become `Without(old edges, neighbor)` |
| Nodes.Node.GetNeighbors | graph/node.py:14-15 | the result has the length and every element of `edges` |
| Nodes.Node.GetWeight | graph/node.py:17-21 | the scan's result is `WeightOf(edges, neighbor)` |
| EdgeLists.WeightOf | graph/node.py:17-21 | None exactly when no edge names the neighbour; otherwise the weight of an edge to it with no earlier edge to it (the first one) |
| EdgeLists.Without | graph/node.py:11-12 | keeps exactly the edges to other neighbours, leaves none to `n`, never grows, keeps a duplicate-free list duplicate-free |
| EdgeLists.WithoutAppend | graph/node.py:11-12 | filtering distributes over concatenation, so the kept edges keep their relative order |
| EdgeLists.WithoutAbsent | graph/node.py:11-12 | removing a neighbour with no edge leaves the list unchanged |
| EdgeLists.WithoutKeepsOthers | graph/node.py:11-21 | removing `n` changes no other neighbour's weight |
| EdgeLists.WithEdge | graph/node.py:7-9 | membership becomes old edges plus the pair; unchanged when present; no duplicates created; afterwards the neighbour has a weight, equal to `w` when it had no edge, and other neighbours' weights are unchanged |
| EdgeLists.WeightOfAppend | graph/node.py:7-21 | after an append the first edge to `n` still wins; the new pair decides only when `n` had no edge |
| Graphs.Graph.constructor | graph/graph.py:5-7 | an empty, well-formed graph with the given orientation, not oriented by default |
| Graphs.Graph.AddVertex | graph/graph.py:9-11 | the graph becomes `Adjacency.AddVertex(old, name)`; existing nodes are the same objects; the name is appended to the key order only when new |
| Graphs.Graph.RemoveVertex | graph/graph.py:13-17 | the graph becomes `Adjacency.RemoveVertex(old, name)` and the key order loses the name; invariants kept |
| Graphs.Graph.RemoveEdgesTo | graph/graph.py:15-16 | every node's edges become `Without(old edges, name)` |
| Graphs.Graph.AddEdge | graph/graph.py:19-24 | the weight defaults to 1; the graph becomes `Adjacency.AddEdge(old, isOriented, u, v, weight)`; new endpoints are appended to the key order, u first; invariants kept |
| Graphs.Graph.AddArcAt | graph/graph.py:22-24 | `nodes[u].add_edge(v, w)` changes the graph value at `u` only, as `AddArc` |
| Graphs.Graph.RemoveEdge | graph/graph.py:26-30 | the graph becomes `Adjacency.RemoveEdge(old, isOriented, u, v)`; invariants kept |
| Graphs.Graph.GetNeighbors | graph/graph.py:32-35 | the node's edge list, or `[]` for an unknown name |
| Graphs.Graph.GetWeight | graph/graph.py:37-40 | `Weight(graph, u, v)`: the first u->v weight, None for an unknown `u` or a missing edge |
| Graphs.Graph.IsAdjacent | graph/graph.py:42-46 | true exactly when `v` is a neighbour of `u`, which is exactly when `get_weight(u, v)` is not None |
| Graphs.UndirectedAdjacency | graph/graph.py:19-30 | in a valid undirected graph `is_adjacent(u, v) == is_adjacent(v, u)` |
| Adjacency.Weight | graph/graph.py:37-40 | Some exactly when `u` is a key and `v` a neighbour; the pair `(v, weight)` is in `u`'s list |
| Adjacency.AdjacentSymmetric | graph/graph.py:19-30 | in a symmetric graph adjacency holds both ways |
| Adjacency.AddVertex | graph/graph.py:9-11 | adds the key with no edges; an existing key and every other node are untouched; closure, no-duplicates and symmetry are kept |
| Adjacency.AddArc | graph/graph.py:22-24 | only `u`'s list gains `(v, w)`; `u` then reaches `v`, with weight `w` when it did not before; other weights are unchanged; closure and no-duplicates are kept |
| Adjacency.AddEdge | graph/graph.py:19-24 | keys gain `u` and `v`; `u` gains `(v, w)`, and `v` gains `(u, w)` when not oriented; no other node changes |
| Adjacency.AddEdgeWeights | graph/graph.py:19-24 | afterwards `u` reaches `v` (and `v` reaches `u` when not oriented); a new edge u->v carries the weight `w`, and so does a new mirror edge v->u when not oriented and `u != v` |
| Adjacency.AddEdgeKeepsInvariants | graph/graph.py:19-24 | add_edge keeps no-duplicates, closure, and symmetry in undirected mode |
| Adjacency.RemoveEdge | graph/graph.py:26-30 | every u->v edge goes, and every v->u edge when not oriented; nothing else changes; a missing endpoint is ignored; closure and no-duplicates are kept |
| Adjacency.RemoveEdgeKeepsSymmetric | graph/graph.py:26-30 | undirected remove_edge keeps symmetry |
| Adjacency.RemoveVertex | graph/graph.py:13-17 | the key goes and no node keeps an edge to it, other edges stay; an absent name changes nothing; closure and no-duplicates are kept |
| Adjacency.RemoveVertexKeepsSymmetric | graph/graph.py:13-17 | remove_vertex keeps symmetry |
| Adjacency.MutationsKeepWellFormed | graph/graph.py:9-30 | every mutation keeps the graph invariants |
| Adjacency.AdjacentInside | graph/graph.py:19-24 | in a closed graph both ends of an edge are nodes |
| Seqs.Remove | graph/graph.py:17 | deleting a key from the insertion order keeps every other key, once each |
| Tours.Cost | antoptimizer/AntOptimizer.py:143-149 | a finite length means every consecutive pair of the path is joined by an edge |
| Tours.PathLength | antoptimizer/AntOptimizer.py:139-149 | None has length inf; a finite length belongs to a path and is its `Cost` |
| Tours.CostInfinite | antoptimizer/AntOptimizer.py:143-149 | the length is inf exactly when some consecutive pair has no edge |
| Tours.WalkCost | antoptimizer/AntOptimizer.py:143-149 | a path whose steps are all edges has a finite length |
| Tours.UniformCost | antoptimizer/AntOptimizer.py:143-149 | with every step of weight `w` the length is `(len - 1) * w`; a one-node path has length 0 |
| Tours.PositiveCost | antoptimizer/AntOptimizer.py:143-149 | with positive weights a finite path of two or more nodes has a positive length |
| Tours.Desirability | antoptimizer/AntOptimizer.py:118-120 | 0 for a zero weight; non-negative for a non-negative level and positive weight; positive when both are positive |
| Tours.Pow | antoptimizer/AntOptimizer.py:118-119 | a power of a non-negative (positive) base is non-negative (positive) |
| Tours.CharSet | antoptimizer/AntOptimizer.py:88 | `set(start_node)` holds one-character strings only, and is `{start}` for a one-character name |
| Pheromones.Initial | antoptimizer/AntOptimizer.py:22-25 | each node maps to exactly the `(neighbor, weight)` pairs of its edge list, all at the initial level |
| Pheromones.Evaporate | antoptimizer/AntOptimizer.py:153-155 | no node or key is added or removed |
| Pheromones.EvaporateEntry | antoptimizer/AntOptimizer.py:155 | every level is multiplied by `1 - rate` |
| Pheromones.Evaporation | antoptimizer/AntOptimizer.py:153-155 | the nested loop computes `Evaporate(t, rate)` |
| Pheromones.ScaleRow | antoptimizer/AntOptimizer.py:154-155 | the inner loop multiplies every level of one node's entry by the factor |
| Pheromones.EvaporationShrinks | antoptimizer/AntOptimizer.py:153-155 | with a rate strictly between 0 and 1 a positive level strictly drops and a zero level stays 0 |
| Pheromones.EvaporationKeepsNonNegative | antoptimizer/AntOptimizer.py:153-155 | with a rate in [0, 1] levels stay non-negative and none rises |
| Pheromones.Deposit | antoptimizer/AntOptimizer.py:164-168 | one step keeps the table's shape |
| Pheromones.DepositEntry | antoptimizer/AntOptimizer.py:164-168 | one step adds the amount to the entry `(v, weight of the first u->v edge)` of `u` when it exists, and changes no other entry |
| Pheromones.DepositTracked | antoptimizer/AntOptimizer.py:164-168 | a tracked step updates exactly that entry |
| Pheromones.DepositUntracked | antoptimizer/AntOptimizer.py:164-167 | an untracked step (missing edge or key) changes nothing |
| Pheromones.DepositCounts | antoptimizer/AntOptimizer.py:162-168 | after a path's steps each entry has gained the amount once per step that uses it |
| Pheromones.TimesIsProduct | antoptimizer/AntOptimizer.py:162-168 | the repeated deposit equals count times the amount |
| Pheromones.Contribution | antoptimizer/AntOptimizer.py:158-168 | a path keeps the table's shape, and an infinite length contributes nothing |
| Pheromones.ReinforceAll | antoptimizer/AntOptimizer.py:158-168 | the reinforcement loop keeps the table's shape |
| Pheromones.Update | antoptimizer/AntOptimizer.py:151-168 | _update_pheromones adds and removes no key |
| Pheromones.MirrorsKept | antoptimizer/AntOptimizer.py:22-25 | a table of the same shape as one built from the graph still has exactly the graph's nodes, and each node's edge pairs, as keys |
| Pheromones.DividesWithinSome | antoptimizer/AntOptimizer.py:158-168 | the loop divides by zero exactly when some finite zero-length path has a tracked step |
| Pheromones.DividesWithinGrows | antoptimizer/AntOptimizer.py:157-168 | once a pair has divided by zero, every longer prefix of the pairs has too |
| Pheromones.FirstDivision | antoptimizer/AntOptimizer.py:157-168 | where the reinforcement loop stops: no earlier pair divides by zero, and the pair there does unless every pair was passed |
| Pheromones.FirstDivisionAt | antoptimizer/AntOptimizer.py:157-168 | the loop stops at the first pair that divides by zero |
| Pheromones.FirstDivisionAll | antoptimizer/AntOptimizer.py:157-168 | the loop passes every pair exactly when no pair divides by zero |
| Pheromones.Halted | antoptimizer/AntOptimizer.py:150-168 | the table _update_pheromones leaves whether or not it raises keeps the table's shape, and is `Update` when nothing divides by zero |
| Pheromones.ReinforceNeverLowers | antoptimizer/AntOptimizer.py:158-168 | with non-negative lengths reinforcement never lowers a level |
| Pheromones.ContributionNeverLowers | antoptimizer/AntOptimizer.py:159-168 | one path with a non-negative or infinite length never lowers a level |
| Pheromones.UpdateKeepsNonNegative | antoptimizer/AntOptimizer.py:151-168 | with a rate in [0, 1] and non-negative lengths the levels stay non-negative |
| Ranking.Zip | antoptimizer/AntOptimizer.py:43 | pairs paths and lengths up to the shorter list |
| Ranking.ValidPairs | antoptimizer/AntOptimizer.py:41-45 | keeps exactly the pairs with a path and a finite length; empty exactly when there is none |
| Ranking.PathsOf | antoptimizer/AntOptimizer.py:57 | the paths of the pairs, in order |
| Ranking.LengthsOf | antoptimizer/AntOptimizer.py:58 | the lengths of the pairs, in order |
| Ranking.Insert | antoptimizer/AntOptimizer.py:49 | one insertion step of the sort: a permutation of the list plus the element |
| Ranking.InsertSorted | antoptimizer/AntOptimizer.py:49 | inserting into a sorted list keeps it sorted |
| Ranking.SortByLength | antoptimizer/AntOptimizer.py:49 | the sort is a permutation sorted by length |
| Ranking.FirstMinIndex | antoptimizer/AntOptimizer.py:49-50 | the index of a minimum length, strictly shorter than every earlier one |
| Ranking.SortHeadIsFirstMinimum | antoptimizer/AntOptimizer.py:49-50 | the stable sort's head is the first minimum |
| Ranking.Minimum | ant.py:21 | `min(lengths)` is one of the lengths and no longer than any |
| Ranking.IndexOf | ant.py:24 | `lengths.index(x)` is the first position holding x |
| Ranking.MinimumIndex | ant.py:21-24 | the index of `min(lengths)` is the first minimum |
| Optimizer.Candidates | antoptimizer/AntOptimizer.py:114-120 | the candidates are unvisited neighbours, and the list is empty exactly when no edge to an unvisited neighbour has a tracked key |
| Optimizer.UnvisitedNeighbors | antoptimizer/AntOptimizer.py:129-131 | exactly the unvisited neighbours |
| Optimizer.Total | antoptimizer/AntOptimizer.py:126 | with non-negative desirabilities the sum is non-negative, and 0 exactly when every desirability is 0 (the zero-total fallback) |
| Optimizer.FullWalk | antoptimizer/AntOptimizer.py:90-98 | a distinct walk covering as many nodes as the graph has is exactly `len(nodes)` long and covers the graph when it starts at a node |
| Optimizer.VisitedNext | antoptimizer/AntOptimizer.py:88-98 | appending a node to the path adds exactly that node to the visited set `set(start) + appended nodes` |
| Optimizer.Improve | antoptimizer/AntOptimizer.py:47-54 | the best never lengthens; it changes only on strict improvement, and then to the first minimum of the iteration's valid pairs |
| Optimizer.BestAfter | antoptimizer/AntOptimizer.py:33-54 | the running best from `(None, inf)`: its path is None exactly when its length is inf |
| Optimizer.BestAfterEmpty | antoptimizer/AntOptimizer.py:36-69 | the best path is None exactly when no iteration had a valid path, and then the length is inf |
| Optimizer.BestAfterAchieved | antoptimizer/AntOptimizer.py:50-54 | a best path is a valid pair of some iteration |
| Optimizer.BestAfterIsShortest | antoptimizer/AntOptimizer.py:49-54 | no valid path of any iteration is shorter than the best |
| Optimizer.BestNeverIncreases | antoptimizer/AntOptimizer.py:52-54 | the best length after more iterations is no longer |
| Optimizer.Replay | antoptimizer/AntOptimizer.py:47-59 | the table after a search has the same nodes and keys as before |
| Optimizer.ReplayNext | antoptimizer/AntOptimizer.py:47-59 | one more iteration applies `_update_pheromones` to the sorted valid pairs, and leaves the table alone when there are none |
| Optimizer.BestAfterNext | antoptimizer/AntOptimizer.py:50-54 | one more iteration improves the best by `Improve` |
| Optimizer.ReplayKeepsNonNegative | antoptimizer/AntOptimizer.py:56-59 | with a rate in [0, 1] levels stay non-negative over a whole search |
| Optimizer.AntOptimizer.constructor | antoptimizer/AntOptimizer.py:5-27 | with the defaults alpha 1, beta 2, rate 0.5 and initial level 0.1, the table is `Initial(graph, pheromone_init)` and the best is `(None, inf)` |
| Optimizer.AntOptimizer.StuckOnlyWhenSurrounded | antoptimizer/AntOptimizer.py:113-124 | with a table that mirrors the graph, the choice fails exactly when every neighbour is visited |
| Optimizer.AntOptimizer.ChooseNextNode | antoptimizer/AntOptimizer.py:109-137 | None exactly when no unvisited neighbour is scored in the table (`!CanExtend`); otherwise an unvisited neighbour, also in the zero-total fallback |
| Optimizer.AntOptimizer.GrowStep | antoptimizer/AntOptimizer.py:90-98 | one turn keeps the path a walk and, for a one-character start, visited equal to the path's nodes, all distinct |
| Optimizer.AntOptimizer.Grow | antoptimizer/AntOptimizer.py:88-98 | the loop grows a walk from the start; it stops either with a failed choice before the visited set reaches len(nodes) names (`Stuck`), or with that many names visited; for a one-character start the visited set is the path's nodes, all distinct |
| Optimizer.AntOptimizer.StuckAttempt | antoptimizer/AntOptimizer.py:94-95 | a failed choice makes the attempt None |
| Optimizer.AntOptimizer.FinishedAttempt | antoptimizer/AntOptimizer.py:100-107 | once len(nodes) names are visited the attempt is the grown walk for a path, the closed walk for a cycle whose last node reaches the start, and None for a cycle that cannot close |
| Optimizer.AntOptimizer.Finish | antoptimizer/AntOptimizer.py:100-107 | a grown path, closed when a cycle is asked for and the last node reaches the start, is a constructed path |
| Optimizer.AntOptimizer.ConstructPath | antoptimizer/AntOptimizer.py:85-107 | IndexError exactly when no start is given and there are no nodes; otherwise an `Attempt` from the walk `grown` the loop grew: None exactly when the choice failed before len(nodes) names were visited, or a cycle is asked for and the last node does not reach the start; otherwise the grown walk, closed back to its start for a cycle, a constructed path |
| Optimizer.AntOptimizer.CalculatePathLength | antoptimizer/AntOptimizer.py:139-149 | inf for None; otherwise `Cost`, the sum of the steps' weights, inf on a missing edge |
| Optimizer.AntOptimizer.ConstructSolutions | antoptimizer/AntOptimizer.py:73-81 | IndexError as in construction; otherwise n_ants results, each an `Attempt` of `_construct_path` with the same table and the walk it grew, each with its `PathLength` |
| Optimizer.AntOptimizer.DepositStep | antoptimizer/AntOptimizer.py:163-168 | a zero length raises ZeroDivisionError exactly on a tracked step; otherwise the step is `Deposit` of 1 / length |
| Optimizer.AntOptimizer.ReinforcePath | antoptimizer/AntOptimizer.py:162-168 | raises exactly when the length is 0 and the path has a tracked step; otherwise the table becomes `Contribution` |
| Optimizer.AntOptimizer.Reinforcement | antoptimizer/AntOptimizer.py:157-168 | raises exactly when some finite zero-length path has a tracked step; the table is `ReinforceAll` over the pairs before the first that divides (all of them on success), so the earlier paths' deposits stay on a raise; never changes the keys |
| Optimizer.AntOptimizer.UpdatePheromones | antoptimizer/AntOptimizer.py:150-168 | ZeroDivisionError exactly as above; the table becomes `Halted(old, ...)`: evaporated, then reinforced up to the dividing path, which is `Update(old, ...)` on success; the keys and the best are untouched |
| Optimizer.AntOptimizer.ValidSound | antoptimizer/AntOptimizer.py:40-44 | the valid pairs of n_ants attempts at a cycle are constructed cycles with their finite cost |
| Optimizer.AntOptimizer.BestFacts | antoptimizer/AntOptimizer.py:33-71 | the result is (None, inf) exactly when no iteration had a valid path; otherwise a constructed cycle with its finite cost, no longer than any valid path |
| Optimizer.AntOptimizer.PositiveCycles | antoptimizer/AntOptimizer.py:56-59 | with positive weights no valid cycle has length 0, so the update cannot divide by zero |
| Optimizer.AntOptimizer.Iteration | antoptimizer/AntOptimizer.py:39-59 | IndexError exactly when there are ants but no nodes and no start, and then nothing changes; otherwise the ants' results are n_ants attempts with the old table, `valid` is exactly their non-None pairs of finite length, and the best becomes `Improve(old best, valid)`; ZeroDivisionError exactly when the update over the sorted valid pairs divides by zero (which needs a zero-length valid pair), and then the table is `Halted` over those pairs, keeping the deposits made before the division; no other error; on success the table is the update of the sorted valid pairs, untouched when there are none |
| Optimizer.AntOptimizer.KeepBest | antoptimizer/AntOptimizer.py:51-53 | the head replaces the best exactly when it is strictly shorter; the table is unchanged |
| Optimizer.AntOptimizer.FindHamiltonianCycle | antoptimizer/AntOptimizer.py:31-71 | with no start by default; each iteration's valid pairs are exactly the non-None finite pairs of its ants' attempts with the table the earlier iterations left (`Ran`), and are constructed cycles with their cost; IndexError exactly when there are iterations and ants but no nodes and no start, and then the best is the reset `(None, inf)` and the table is unchanged; on ZeroDivisionError the earlier iterations did not divide, the last one did on the replayed table with a zero-length valid path, the best is `BestAfter(rounds)`, and the table is `Halted` over the last iteration's sorted valid pairs, from the replayed table; on success there are n_iterations iterations, none dividing, the result and the new best are `BestAfter(rounds)`, which starts from `(None, inf)` whatever the old best was, and the table is `Replay(old, rounds)` |
| Optimizer.AntOptimizer.RanNext | antoptimizer/AntOptimizer.py:38-59 | recording one more iteration's attempts, made with the replayed table, extends the record of the search |
| Optimizer.AntOptimizer.CalmNext | antoptimizer/AntOptimizer.py:56-59 | an iteration that did not divide by zero extends the record of iterations that did not |
| Optimizer.AntOptimizer.ZeroLengthSorted | antoptimizer/AntOptimizer.py:49-59 | a division by zero over the sorted pairs needs a zero-length valid pair |
| Optimizer.AntOptimizer.CompleteNeverStuck | antoptimizer/AntOptimizer.py:90-95 | on a complete graph, a walk from a one-character start that has not visited every node can always be extended: the choice never fails |
| Optimizer.AntOptimizer.CompleteCloses | antoptimizer/AntOptimizer.py:100-103 | on a complete graph of two or more nodes, a walk from a one-character start that visited every node ends next to its start |
| Optimizer.AntOptimizer.CompleteAttemptSucceeds | antoptimizer/AntOptimizer.py:85-107 | on a complete graph of two or more nodes, every attempt at a cycle from a one-character start yields a cycle |
| Optimizer.AntOptimizer.CompleteRoundValid | antoptimizer/AntOptimizer.py:40-44 | on such a graph, with at least one ant, every iteration has a valid cycle |
| Optimizer.AntOptimizer.CompleteFindsCycle | antoptimizer/AntOptimizer.py:31-71 | on such a graph, every iteration of a search has a valid cycle, so its best path is not None |
| LegacyOptimizer.Unvisited | ant.py:60 | exactly the nodes not in the path |
| LegacyOptimizer.Better | ant.py:21-24 | the best never lengthens; it changes only on strict improvement, to the first minimum; a strictly shorter minimum always replaces it |
| LegacyOptimizer.RunBest | ant.py:17-26 | the best after a run, never reset: never longer than the old best |
| LegacyOptimizer.RunBestIsShortest | ant.py:17-26 | the best after a run is no longer than the one before and than every length of every iteration |
| LegacyOptimizer.RunBestAchieved | ant.py:21-24 | the best after a run is the earlier best or a path of some iteration with its length; so a best whose path is None is still the earlier best |
| LegacyOptimizer.RunBestAppend | ant.py:14-26 | because the best is never reset, two runs in a row act as one run over both sets of iterations |
| LegacyOptimizer.Decayed | ant.py:80-83 | the table after n updates keeps its nodes and keys |
| LegacyOptimizer.DecayedLevel | ant.py:80-83 | after n updates each level is the initial level shrunk n times by `1 - rate` |
| LegacyOptimizer.ShrunkIsPower | ant.py:83 | shrinking n times multiplies by `(1 - rate)^n` |
| LegacyOptimizer.ShrunkBounded | ant.py:83 | shrinking by a factor in [0, 1] keeps a level in [0, level]; a positive level shrunk at least once by a factor below 1 strictly drops |
| LegacyOptimizer.DecayedNeverRises | ant.py:80-83 | with a rate in [0, 1] levels never rise and stay non-negative over a run; with a rate in (0, 1] a positive level strictly drops after one or more iterations |
| LegacyOptimizer.AntOptimizer.constructor | ant.py:5-15 | with the same defaults, the table is keyed by each node's `(neighbor, weight)` pairs at the initial level; the best is `(None, inf)` |
| LegacyOptimizer.AntOptimizer.EveryEdgeScored | ant.py:53-57 | with a table built from the graph every unvisited neighbour is scored |
| LegacyOptimizer.AntOptimizer.ChooseNextNode | ant.py:50-69 | IndexError exactly when every node is in the path; otherwise a node not in the path, adjacent whenever some neighbour is unvisited |
| LegacyOptimizer.AntOptimizer.ConstructPath | ant.py:38-47 | IndexError exactly when no start is given and there are no nodes; otherwise a path from the start of max(len(nodes), 1) distinct nodes, covering the graph when the start is a node, with the start appended once more when hamiltonian, whether or not an edge leads back |
| LegacyOptimizer.AntOptimizer.CalculatePathLength | ant.py:71-78 | `Cost`: the sum of the steps' weights, inf on a missing edge |
| LegacyOptimizer.AntOptimizer.UnclosedCycleInfinite | ant.py:45-46 | a cycle closed without an edge back to the start has infinite length |
| LegacyOptimizer.AntOptimizer.ConstructSolutions | ant.py:28-36 | n_ants built paths with their costs; IndexError as in construction |
| LegacyOptimizer.AntOptimizer.Reinforcement | ant.py:85-89 | KeyError exactly when some step of the zipped paths starts at a node that is not a key; it produces no new table, since the deposit guard is never true |
| LegacyOptimizer.AntOptimizer.UpdatePheromones | ant.py:80-89 | the table becomes `Evaporate(old)`; KeyError exactly on an unknown step; the best is untouched |
| LegacyOptimizer.AntOptimizer.UnknownStepIsStart | ant.py:38-47 | for the paths of one call of _construct_solutions, the KeyError happens exactly when a start is given that is not a node and the paths have a step (two or more nodes, or hamiltonian) |
| LegacyOptimizer.AntOptimizer.Iteration | ant.py:19-24 | raises exactly the error of the first failing step (IndexError from random.choice, KeyError from the update, ValueError from `min([])` with no ants), leaving the best alone; otherwise n_ants paths with their costs, the table evaporated and the best `Better(old best, paths, lengths)` |
| LegacyOptimizer.AntOptimizer.FailureCases | ant.py:17-21 | `Failure` is the first error a run raises, in source order (IndexError for no nodes and no start, KeyError for an unknown start, ValueError from `min([])`): with no ants it is ValueError, and no error means ants and, without a start, nodes |
| LegacyOptimizer.AntOptimizer.Run | ant.py:17-26 | with no start and no Hamiltonian requirement by default, the best is not reset; the result is `RunBest(old best, rounds)`, never longer than the old best; the table is `Decayed(old, rate, n_iterations)`; the first iteration's error otherwise |

## Left out

- I/O: the `__main__` block of ant.py, antoptimizer/optimize_graph.py (file reading, parsing, `input`) and every `print`. These are progress output only.
- `__str__` of `Node` and `Graph`, which only formats a string.
- The probability distributions of `random.choice` and `random.choices`, and the random start node. Each becomes a nondeterministic choice among the same candidates.
- Optimizer.AntOptimizer.ChooseNextNode: may return a candidate whose desirability is 0, which `random.choices` with positive total weight never picks, because the weighted distribution is not modelled.
- LegacyOptimizer.AntOptimizer.ChooseNextNode: may return a candidate whose desirability is 0, for the same reason.
- Floating point: weights, levels and lengths are exact reals, with no IEEE rounding and no NaN.
- `alpha` and `beta` are natural-number exponents. Python's `**` with real exponents is not modelled.
- `1 / weight` for a negative or very small weight is taken exactly.
- The optimizers hold the graph's value at construction rather than a reference to the live `Graph`. Nothing mutates the graph during a search.
- Dictionary iteration order only matters for the order in which independent entries are evaporated. The evaporation loops visit entries in any order, with the same result.
- The `nodes` list of the optimizers is the graph's key order. `Graph` keeps it as `order`.
- Optimizer.AntOptimizer.ConstructPath: the distinct-nodes, path-length and coverage facts are stated only for a one-character start name. For longer names `visited = set(start_node)` holds the name's characters and the source gives no such guarantee.
- Integer widths: `n_ants` and `n_iterations` are unbounded integers. Python's integers are unbounded too, so nothing is lost.
