/** The pheromone table: node -> {(neighbor, weight): level}, as both optimizers keep it,
    and the two phases of _update_pheromones (evaporation, then reinforcement). */
module Pheromones {
  import opened Wrappers
  import opened EdgeLists
  import opened Adjacency
  import opened Tours

  type Table = map<string, map<Edge, real>>

  /** The table has an entry for every node of `g`, keyed by exactly that node's (neighbor, weight) pairs. */
  predicate Mirrors(t: Table, g: AdjMap) {
    t.Keys == g.Keys && forall u :: u in g ==> t[u].Keys == set e | e in g[u]
  }

  /** Same nodes, and the same keys under each node. */
  predicate SameShape<K>(t: map<string, map<K, real>>, r: map<string, map<K, real>>) {
    t.Keys == r.Keys && forall u :: u in t ==> t[u].Keys == r[u].Keys
  }

  ghost predicate NonNegative<K>(t: map<string, map<K, real>>) {
    forall u, k :: u in t && k in t[u] ==> t[u][k] >= 0.0
  }

  /** `r` has the shape of `t` and no level below the one in `t`. */
  ghost predicate NoLower(t: Table, r: Table) {
    SameShape(t, r) && forall u, k :: u in t && k in t[u] ==> r[u][k] >= t[u][k]
  }

  /** The table __init__ builds: every (neighbor, weight) pair of every node at `init`. */
  function Initial(g: AdjMap, init: real): (t: Table)
    ensures Mirrors(t, g)
    ensures forall u, k :: u in t && k in t[u] ==> t[u][k] == init
  {
    map u | u in g :: map e | e in g[u] :: init
  }

  /** One node's entry with every level multiplied by f. */
  function Scale<K>(row: map<K, real>, f: real): (r: map<K, real>)
    ensures r.Keys == row.Keys
    ensures forall k :: k in r ==> r[k] == row[k] * f
  {
    map k | k in row :: row[k] * f
  }

  /** Phase one: every level multiplied by (1 - rate). */
  function Evaporate<K>(t: map<string, map<K, real>>, rate: real): (r: map<string, map<K, real>>)
    ensures SameShape(t, r)
  {
    map u | u in t :: Scale(t[u], 1.0 - rate)
  }

  /** Each level after evaporation is the old level times (1 - rate). */
  lemma EvaporateEntry<K>(t: map<string, map<K, real>>, rate: real, u: string, k: K)
    requires u in t && k in t[u]
    ensures u in Evaporate(t, rate) && k in Evaporate(t, rate)[u]
    ensures Evaporate(t, rate)[u][k] == t[u][k] * (1.0 - rate)
  {
  }

  /** The first loop of _update_pheromones, in both optimizers: every level multiplied by
      (1 - evaporation_rate), one node's entry at a time, the nodes visited in any order. */
  method Evaporation(t: Table, rate: real) returns (r: Table)
    ensures r == Evaporate(t, rate)
  {
    r := t;
    var rows := t.Keys;
    while rows != {}
      invariant rows <= t.Keys && r.Keys == t.Keys
      invariant forall x :: x in t ==> r[x] == if x in rows then t[x] else Scale(t[x], 1.0 - rate)
      decreases rows
    {
      var u :| u in rows;
      var row := ScaleRow(r[u], 1.0 - rate);
      r := r[u := row];
      rows := rows - {u};
    }
  }

  /** The inner loop: every level of one node's entry multiplied by f, the keys visited in any order. */
  method ScaleRow(row: map<Edge, real>, f: real) returns (r: map<Edge, real>)
    ensures r == Scale(row, f)
  {
    r := row;
    var entries := row.Keys;
    while entries != {}
      invariant entries <= row.Keys && r.Keys == row.Keys
      invariant forall k :: k in row ==> r[k] == if k in entries then row[k] else row[k] * f
      decreases entries
    {
      var k :| k in entries;
      r := r[k := r[k] * f];
      entries := entries - {k};
    }
    assert r.Keys == Scale(row, f).Keys && forall k :: k in r ==> r[k] == Scale(row, f)[k];
  }

  /** With a rate strictly between 0 and 1 a positive level strictly drops, and a zero level stays 0. */
  lemma EvaporationShrinks<K>(t: map<string, map<K, real>>, rate: real, u: string, k: K)
    requires 0.0 < rate < 1.0 && u in t && k in t[u] && t[u][k] >= 0.0
    ensures t[u][k] > 0.0 ==> Evaporate(t, rate)[u][k] < t[u][k]
    ensures t[u][k] == 0.0 ==> Evaporate(t, rate)[u][k] == 0.0
  {
    var x := t[u][k];
    assert Evaporate(t, rate)[u][k] == x - x * rate;
    if x > 0.0 {
      assert x * rate > 0.0;
    }
  }

  /** With a rate in [0, 1] evaporation keeps levels non-negative and never raises one. */
  lemma EvaporationKeepsNonNegative<K>(t: map<string, map<K, real>>, rate: real)
    requires 0.0 <= rate <= 1.0 && NonNegative(t)
    ensures NonNegative(Evaporate(t, rate))
    ensures forall u, k :: u in t && k in t[u] ==> Evaporate(t, rate)[u][k] <= t[u][k]
  {
    var r := Evaporate(t, rate);
    forall u, k | u in t && k in t[u]
      ensures r[u][k] >= 0.0 && r[u][k] <= t[u][k]
    {
      ScaleDown(t[u][k], 1.0 - rate);
    }
  }

  lemma ScaleDown(x: real, f: real)
    requires x >= 0.0 && 0.0 <= f <= 1.0
    ensures 0.0 <= x * f <= x
    ensures x > 0.0 && f < 1.0 ==> x * f < x
  {
    assert x * f + x * (1.0 - f) == x;
    assert x * (1.0 - f) >= 0.0;
    if x > 0.0 && f < 1.0 {
      assert x * (1.0 - f) > 0.0;
    }
  }

  /** The step u->v reinforces the entry (v, weight of the first u->v edge) of u, when that entry exists. */
  predicate Tracked(t: Table, g: AdjMap, u: string, v: string) {
    Weight(g, u, v).Some? && u in t && (v, Weight(g, u, v).value) in t[u]
  }

  /** One reinforcement step: `amount` added to the tracked entry of u->v, if any. */
  function Deposit(t: Table, g: AdjMap, u: string, v: string, amount: real): (r: Table)
    ensures SameShape(t, r)
  {
    if Tracked(t, g, u, v) then
      var key := (v, Weight(g, u, v).value);
      t[u := t[u][key := t[u][key] + amount]]
    else t
  }

  /** Only the tracked entry of u->v changes, and it gains `amount`. */
  lemma DepositEntry(t: Table, g: AdjMap, u: string, v: string, amount: real, x: string, k: Edge)
    requires x in t && k in t[x]
    ensures Deposit(t, g, u, v, amount)[x][k] ==
      t[x][k] + (if Tracked(t, g, u, v) && x == u && k == (v, Weight(g, u, v).value) then amount else 0.0)
  {
  }

  /** The first n steps of the path, each deposited in turn. */
  function DepositSteps(t: Table, g: AdjMap, p: Path, amount: real, n: nat): (r: Table)
    requires n == 0 || n < |p|
    ensures SameShape(t, r)
  {
    if n == 0 then t
    else Deposit(DepositSteps(t, g, p, amount, n - 1), g, p[n - 1], p[n], amount)
  }

  /** A tracked step adds `amount` to its entry. */
  lemma DepositTracked(t: Table, g: AdjMap, u: string, v: string, amount: real, w: real)
    requires Weight(g, u, v) == Some(w) && u in t && (v, w) in t[u]
    ensures Deposit(t, g, u, v, amount) == t[u := t[u][(v, w) := t[u][(v, w)] + amount]]
  {
  }

  /** An untracked step changes nothing. */
  lemma DepositUntracked(t: Table, g: AdjMap, u: string, v: string, amount: real)
    requires !Tracked(t, g, u, v)
    ensures Deposit(t, g, u, v, amount) == t
  {
  }

  /** Unfolds ReinforceAll by one pair. */
  lemma ReinforceAllNext(t: Table, g: AdjMap, paths: seq<Path>, lengths: seq<Length>, n: nat)
    requires n < |paths| && n < |lengths|
    ensures ReinforceAll(t, g, paths, lengths, n + 1) ==
      Contribution(ReinforceAll(t, g, paths, lengths, n), g, paths[n], lengths[n])
  {
  }

  /** Unfolds DepositSteps by one step. */
  lemma DepositStepsNext(t: Table, g: AdjMap, p: Path, amount: real, n: nat, prev: Table, next: Table)
    requires n + 1 < |p| && prev == DepositSteps(t, g, p, amount, n)
    requires next == Deposit(prev, g, p[n], p[n + 1], amount)
    ensures next == DepositSteps(t, g, p, amount, n + 1)
  {
  }

  /** Number of steps i < n of the path that go from u to k.0 with a first u->k.0 edge of weight k.1. */
  function Visits(g: AdjMap, p: Path, u: string, k: Edge, n: nat): nat
    requires n == 0 || n < |p|
  {
    if n == 0 then 0
    else Visits(g, p, u, k, n - 1) + (if Uses(g, p, u, k, n - 1) then 1 else 0)
  }

  /** Step i of the path goes from u to k.0 along a first u->k.0 edge of weight k.1. */
  predicate Uses(g: AdjMap, p: Path, u: string, k: Edge, i: nat)
    requires i + 1 < |p|
  {
    p[i] == u && p[i + 1] == k.0 && Weight(g, u, p[i + 1]) == Some(k.1)
  }

  /** An entry gains `amount` once per step of the path that uses it. */
  lemma {:induction false} DepositCounts(t: Table, g: AdjMap, p: Path, amount: real, n: nat, u: string, k: Edge)
    requires n == 0 || n < |p|
    requires u in t && k in t[u]
    ensures DepositSteps(t, g, p, amount, n)[u][k] == t[u][k] + Times(Visits(g, p, u, k, n), amount)
  {
    if n > 0 {
      DepositCounts(t, g, p, amount, n - 1, u, k);
      var before := DepositSteps(t, g, p, amount, n - 1);
      var after := DepositSteps(t, g, p, amount, n);
      var c := Visits(g, p, u, k, n - 1);
      assert after == Deposit(before, g, p[n - 1], p[n], amount);
      DepositEntry(before, g, p[n - 1], p[n], amount, u, k);
      assert Tracked(before, g, p[n - 1], p[n]) <==> Tracked(t, g, p[n - 1], p[n]);
      if Uses(g, p, u, k, n - 1) {
        assert after[u][k] == before[u][k] + amount;
        assert Visits(g, p, u, k, n) == c + 1;
        assert Times(c + 1, amount) == Times(c, amount) + amount;
      } else {
        assert after[u][k] == before[u][k];
        assert Visits(g, p, u, k, n) == c;
      }
    }
  }

  /** count * amount, as `count` repeated additions. */
  function Times(count: nat, amount: real): (r: real)
    ensures amount >= 0.0 ==> r >= 0.0
  {
    if count == 0 then 0.0 else Times(count - 1, amount) + amount
  }

  lemma {:induction false} TimesIsProduct(count: nat, amount: real)
    ensures Times(count, amount) == count as real * amount
  {
    if count > 0 {
      TimesIsProduct(count - 1, amount);
      assert (count - 1) as real * amount + amount == count as real * amount;
    }
  }

  /** The number of steps of a path: len(path) - 1, and 0 for an empty path. */
  function Steps(p: Path): nat {
    if |p| == 0 then 0 else |p| - 1
  }

  /** Some step of the path reinforces an entry of the table. */
  predicate HasTrackedStep(t: Table, g: AdjMap, p: Path) {
    exists i :: 0 <= i < |p| - 1 && TrackedStep(t, g, p, i)
  }

  /** Step i of the path is tracked. */
  predicate TrackedStep(t: Table, g: AdjMap, p: Path, i: nat)
    requires i + 1 < |p|
  {
    Tracked(t, g, p[i], p[i + 1])
  }

  /** What one (path, length) pair adds: 1 / length on every tracked step of a path of finite
      non-zero length; nothing for an infinite length. A zero length with a tracked step makes
      Python divide by zero, which DividesByZero below describes. */
  function Contribution(t: Table, g: AdjMap, p: Path, length: Length): (r: Table)
    ensures SameShape(t, r)
    ensures length.Inf? ==> r == t
  {
    if length.Inf? || length.value == 0.0 then t
    else DepositSteps(t, g, p, 1.0 / length.value, Steps(p))
  }

  function Min(a: nat, b: nat): nat {
    if a <= b then a else b
  }

  /** Phase two over the first n pairs of zip(paths, lengths). */
  function ReinforceAll(t: Table, g: AdjMap, paths: seq<Path>, lengths: seq<Length>, n: nat): (r: Table)
    requires n <= Min(|paths|, |lengths|)
    ensures SameShape(t, r)
  {
    if n == 0 then t
    else Contribution(ReinforceAll(t, g, paths, lengths, n - 1), g, paths[n - 1], lengths[n - 1])
  }

  /** _update_pheromones: evaporation, then reinforcement over zip(paths, lengths).
      No key is ever added or removed. */
  function Update(t: Table, g: AdjMap, rate: real, paths: seq<Path>, lengths: seq<Length>): (r: Table)
    ensures SameShape(t, r)
  {
    ReinforceAll(Evaporate(t, rate), g, paths, lengths, Min(|paths|, |lengths|))
  }

  /** Some pair of zip(paths, lengths) has length 0 and a tracked step, so that `1 / length` raises. */
  predicate DividesByZero(t: Table, g: AdjMap, paths: seq<Path>, lengths: seq<Length>) {
    exists j :: 0 <= j < Min(|paths|, |lengths|) && ZeroLengthTracked(t, g, paths, lengths, j)
  }

  /** Pair j has length 0 and a tracked step. */
  predicate ZeroLengthTracked(t: Table, g: AdjMap, paths: seq<Path>, lengths: seq<Length>, j: nat)
    requires j < |paths| && j < |lengths|
  {
    DividesPath(t, g, paths[j], lengths[j])
  }

  /** One of the first n pairs divides by zero, pair by pair. */
  predicate DividesWithin(t: Table, g: AdjMap, paths: seq<Path>, lengths: seq<Length>, n: nat)
    requires n <= |paths| && n <= |lengths|
  {
    n > 0 && (DividesWithin(t, g, paths, lengths, n - 1) || DividesPath(t, g, paths[n - 1], lengths[n - 1]))
  }

  /** DividesWithin over all pairs of the zip is DividesByZero. */
  lemma {:induction false} DividesWithinSome(t: Table, g: AdjMap, paths: seq<Path>, lengths: seq<Length>, n: nat)
    requires n <= |paths| && n <= |lengths|
    ensures DividesWithin(t, g, paths, lengths, n) <==>
      exists j :: 0 <= j < n && ZeroLengthTracked(t, g, paths, lengths, j)
  {
    if n > 0 {
      DividesWithinSome(t, g, paths, lengths, n - 1);
      assert ZeroLengthTracked(t, g, paths, lengths, n - 1) == DividesPath(t, g, paths[n - 1], lengths[n - 1]);
    }
  }

  /** Once one of the first n pairs divides by zero, so does one of the first m, for m >= n. */
  lemma {:induction false} DividesWithinGrows(t: Table, g: AdjMap, paths: seq<Path>, lengths: seq<Length>, n: nat, m: nat)
    requires n <= m <= |paths| && m <= |lengths| && DividesWithin(t, g, paths, lengths, n)
    ensures DividesWithin(t, g, paths, lengths, m)
    decreases m - n
  {
    if n < m {
      DividesWithinGrows(t, g, paths, lengths, n + 1, m);
    }
  }

  /** Where the reinforcement loop stops, having passed the first `j` pairs without dividing by
      zero: at the first pair that divides, or after min(len(paths), len(lengths)) pairs. */
  function FirstDivision(t: Table, g: AdjMap, paths: seq<Path>, lengths: seq<Length>, j: nat): (k: nat)
    requires j <= Min(|paths|, |lengths|) && !DividesWithin(t, g, paths, lengths, j)
    ensures j <= k <= Min(|paths|, |lengths|)
    ensures !DividesWithin(t, g, paths, lengths, k)
    ensures k < Min(|paths|, |lengths|) ==> DividesPath(t, g, paths[k], lengths[k])
    decreases Min(|paths|, |lengths|) - j
  {
    if j == Min(|paths|, |lengths|) then j
    else if DividesPath(t, g, paths[j], lengths[j]) then j
    else FirstDivision(t, g, paths, lengths, j + 1)
  }

  /** The loop stops at pair j when the pairs before it did not divide by zero and pair j does. */
  lemma FirstDivisionAt(t: Table, g: AdjMap, paths: seq<Path>, lengths: seq<Length>, j: nat)
    requires j < Min(|paths|, |lengths|) && !DividesWithin(t, g, paths, lengths, j)
    requires DividesPath(t, g, paths[j], lengths[j])
    ensures FirstDivision(t, g, paths, lengths, 0) == j
  {
    var k := FirstDivision(t, g, paths, lengths, 0);
    if k < j {
      DividesWithinGrows(t, g, paths, lengths, k + 1, j);
    } else if k > j {
      DividesWithinGrows(t, g, paths, lengths, j + 1, k);
    }
  }

  /** The loop runs through every pair exactly when no pair divides by zero. */
  lemma FirstDivisionAll(t: Table, g: AdjMap, paths: seq<Path>, lengths: seq<Length>)
    ensures FirstDivision(t, g, paths, lengths, 0) == Min(|paths|, |lengths|) <==> !DividesByZero(t, g, paths, lengths)
  {
    var k := FirstDivision(t, g, paths, lengths, 0);
    DividesWithinSome(t, g, paths, lengths, k);
    if k < Min(|paths|, |lengths|) {
      assert ZeroLengthTracked(t, g, paths, lengths, k);
    }
  }

  /** The table _update_pheromones leaves, whether or not it raises: evaporated, then reinforced
      by the pairs before the first one whose `1 / length` divides by zero (by all of them when
      none does). */
  function Halted(t: Table, g: AdjMap, rate: real, paths: seq<Path>, lengths: seq<Length>): (r: Table)
    ensures SameShape(t, r)
    ensures !DividesByZero(t, g, paths, lengths) ==> r == Update(t, g, rate, paths, lengths)
  {
    FirstDivisionAll(t, g, paths, lengths);
    var e := Evaporate(t, rate);
    var r := ReinforceAll(e, g, paths, lengths, FirstDivision(t, g, paths, lengths, 0));
    SameShapeTrans(t, e, r);
    r
  }

  /** Depositing 1 / length along the path divides by zero: the length is 0 and a step is tracked. */
  predicate DividesPath(t: Table, g: AdjMap, path: Path, length: Length) {
    length == Fin(0.0) && HasTrackedStep(t, g, path)
  }

  /** Tables of the same shape track the same steps. */
  lemma SameShapeTracks(t: Table, r: Table, g: AdjMap, u: string, v: string)
    requires SameShape(t, r)
    ensures Tracked(t, g, u, v) <==> Tracked(r, g, u, v)
  {
    if u in t && Weight(g, u, v).Some? {
      assert t[u].Keys == r[u].Keys;
    }
  }

  /** A table of the same shape as one that mirrors the graph mirrors it too. */
  lemma MirrorsKept(t: Table, r: Table, g: AdjMap)
    requires Mirrors(t, g) && SameShape(t, r)
    ensures Mirrors(r, g)
  { }

  lemma SameShapeTrans<K>(a: map<string, map<K, real>>, b: map<string, map<K, real>>, c: map<string, map<K, real>>)
    requires SameShape(a, b) && SameShape(b, c)
    ensures SameShape(a, c)
  {
  }

  /** Reinforcement with non-negative lengths never lowers a level. */
  lemma {:induction false} ReinforceNeverLowers(t: Table, g: AdjMap, paths: seq<Path>, lengths: seq<Length>, n: nat)
    requires n <= Min(|paths|, |lengths|)
    requires forall j :: 0 <= j < n && lengths[j].Fin? ==> lengths[j].value >= 0.0
    ensures NoLower(t, ReinforceAll(t, g, paths, lengths, n))
  {
    if n > 0 {
      ReinforceNeverLowers(t, g, paths, lengths, n - 1);
      var before := ReinforceAll(t, g, paths, lengths, n - 1);
      var l := lengths[n - 1];
      var p := paths[n - 1];
      forall u, k | u in before && k in before[u]
        ensures Contribution(before, g, p, l)[u][k] >= before[u][k]
      {
        ContributionNeverLowers(before, g, p, l, u, k);
      }
    }
  }

  /** One path's deposits, with a non-negative length, never lower an entry. */
  lemma ContributionNeverLowers(t: Table, g: AdjMap, p: Path, l: Length, u: string, k: Edge)
    requires l.Fin? ==> l.value >= 0.0
    requires u in t && k in t[u]
    ensures Contribution(t, g, p, l)[u][k] >= t[u][k]
  {
    if l.Fin? && l.value != 0.0 {
      assert 1.0 / l.value > 0.0;
      DepositCounts(t, g, p, 1.0 / l.value, Steps(p), u, k);
    }
  }

  /** With a rate in [0, 1] and non-negative lengths, levels stay non-negative. */
  lemma UpdateKeepsNonNegative(t: Table, g: AdjMap, rate: real, paths: seq<Path>, lengths: seq<Length>)
    requires 0.0 <= rate <= 1.0 && NonNegative(t)
    requires forall j :: 0 <= j < |lengths| && lengths[j].Fin? ==> lengths[j].value >= 0.0
    ensures NonNegative(Update(t, g, rate, paths, lengths))
  {
    EvaporationKeepsNonNegative(t, rate);
    ReinforceNeverLowers(Evaporate(t, rate), g, paths, lengths, Min(|paths|, |lengths|));
  }
}
