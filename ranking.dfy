/** Ranking the paths of one iteration: the valid-path filter, the stable sort by length
    and Python's min / list.index, as both optimizers use them to pick a best path. */
module Ranking {
  import opened Wrappers
  import opened Tours

  /** A path with its length, as the tuples of valid_paths. */
  type Candidate = (Path, Length)

  /** zip(paths, lengths): pairs up to the shorter of the two. */
  function Zip(paths: seq<Option<Path>>, lengths: seq<Length>): (r: seq<(Option<Path>, Length)>)
    ensures |r| == if |paths| <= |lengths| then |paths| else |lengths|
    ensures forall j :: 0 <= j < |r| ==> r[j] == (paths[j], lengths[j])
  {
    if |paths| == 0 || |lengths| == 0 then []
    else [(paths[0], lengths[0])] + Zip(paths[1..], lengths[1..])
  }

  /** The pairs whose path is not None and whose length is finite, in their original order. */
  function ValidPairs(z: seq<(Option<Path>, Length)>): (r: seq<Candidate>)
    ensures forall c :: c in r ==> c.1.Fin?
    ensures forall c :: c in r <==> (Some(c.0), c.1) in z && c.1.Fin?
    ensures |r| == 0 <==> forall j :: 0 <= j < |z| ==> z[j].0.None? || z[j].1.Inf?
  {
    if |z| == 0 then []
    else
      var rest := ValidPairs(z[1..]);
      assert forall x :: x in z <==> x == z[0] || x in z[1..];
      if z[0].0.Some? && z[0].1.Fin? then [(z[0].0.value, z[0].1)] + rest else rest
  }

  function PathsOf(s: seq<Candidate>): (r: seq<Path>)
    ensures |r| == |s| && forall j :: 0 <= j < |s| ==> r[j] == s[j].0
  {
    if |s| == 0 then [] else PathsOf(s[..|s| - 1]) + [s[|s| - 1].0]
  }

  function LengthsOf(s: seq<Candidate>): (r: seq<Length>)
    ensures |r| == |s| && forall j :: 0 <= j < |s| ==> r[j] == s[j].1
  {
    if |s| == 0 then [] else LengthsOf(s[..|s| - 1]) + [s[|s| - 1].1]
  }

  /** Non-decreasing by length. */
  predicate Sorted(s: seq<Candidate>) {
    forall i, j :: 0 <= i < j < |s| ==> AtMost(s[i].1, s[j].1)
  }

  /** Inserts x after every element no longer than it, so equal lengths keep their order. */
  function Insert(x: Candidate, s: seq<Candidate>): (r: seq<Candidate>)
    ensures multiset(r) == multiset(s) + multiset{x}
    ensures forall c :: c in r <==> c in s || c == x
    ensures |r| == |s| + 1
    ensures r[0] == if |s| == 0 || Below(x.1, s[0].1) then x else s[0]
  {
    if |s| == 0 then [x]
    else if Below(x.1, s[0].1) then [x] + s
    else
      assert s == [s[0]] + s[1..];
      [s[0]] + Insert(x, s[1..])
  }

  /** Inserting into a sorted list keeps it sorted. */
  lemma {:induction false} InsertSorted(x: Candidate, s: seq<Candidate>)
    requires Sorted(s)
    ensures Sorted(Insert(x, s))
  {
    if |s| > 0 && !Below(x.1, s[0].1) {
      var rest := Insert(x, s[1..]);
      InsertSorted(x, s[1..]);
      forall j | 0 <= j < |rest| ensures AtMost(s[0].1, rest[j].1) {
        assert rest[j] in s[1..] || rest[j] == x;
      }
      assert Insert(x, s) == [s[0]] + rest;
    }
  }

  /** valid_paths.sort(key=lambda x: x[1]): a stable insertion sort by length. */
  function SortByLength(s: seq<Candidate>): (r: seq<Candidate>)
    ensures multiset(r) == multiset(s)
    ensures forall c :: c in r <==> c in s
    ensures Sorted(r)
    ensures |r| == |s|
  {
    if |s| == 0 then []
    else
      var front := s[..|s| - 1];
      assert s == front + [s[|s| - 1]];
      InsertSorted(s[|s| - 1], SortByLength(front));
      Insert(s[|s| - 1], SortByLength(front))
  }

  /** Index of the first shortest element. */
  function FirstMinIndex(ls: seq<Length>): (i: nat)
    requires |ls| > 0
    ensures i < |ls|
    ensures forall j :: 0 <= j < |ls| ==> AtMost(ls[i], ls[j])
    ensures forall j :: 0 <= j < i ==> Below(ls[i], ls[j])
  {
    if |ls| == 1 then 0
    else
      var m := FirstMinIndex(ls[..|ls| - 1]);
      if Below(ls[|ls| - 1], ls[m]) then |ls| - 1 else m
  }

  /** The head of the sorted list is the first element of minimum length. */
  lemma {:induction false} SortHeadIsFirstMinimum(s: seq<Candidate>)
    requires |s| > 0
    ensures SortByLength(s)[0] == s[FirstMinIndex(LengthsOf(s))]
  {
    var ls := LengthsOf(s);
    var front := s[..|s| - 1];
    if |s| > 1 {
      SortHeadIsFirstMinimum(front);
      assert LengthsOf(front) == ls[..|s| - 1];
    }
  }

  /** min(lengths): the first element not greater than any other. */
  function Minimum(ls: seq<Length>): (m: Length)
    requires |ls| > 0
    ensures m in ls
    ensures forall x :: x in ls ==> AtMost(m, x)
  {
    if |ls| == 1 then ls[0]
    else
      var rest := Minimum(ls[..|ls| - 1]);
      assert forall x :: x in ls ==> x in ls[..|ls| - 1] || x == ls[|ls| - 1];
      if Below(ls[|ls| - 1], rest) then ls[|ls| - 1] else rest
  }

  /** lengths.index(x): the first position holding x. */
  function IndexOf(ls: seq<Length>, x: Length): (i: nat)
    requires x in ls
    ensures i < |ls| && ls[i] == x
    ensures forall j :: 0 <= j < i ==> ls[j] != x
  {
    if ls[0] == x then 0 else 1 + IndexOf(ls[1..], x)
  }

  /** lengths.index(min(lengths)) is the first position of a shortest length. */
  lemma MinimumIndex(ls: seq<Length>)
    requires |ls| > 0
    ensures IndexOf(ls, Minimum(ls)) == FirstMinIndex(ls)
  {
    var k := FirstMinIndex(ls);
    assert ls[k] == Minimum(ls);
  }
}
