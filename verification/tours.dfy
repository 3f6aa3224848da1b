/** Tours, the ants that build them, and the length of a closed tour. */
module Tours {
  import opened Matrices

  /**
   * A worker of one iteration: the tour it is building, the set of cities it
   * has visited and the length it has accumulated so far.
   */
  class Ant {
    var tour: seq<nat>
    var visited: set<nat>
    var distance: real

    constructor ()
      ensures Unstarted()
    {
      tour, visited, distance := [], {}, 0.0;
    }

    /** The state `createAnts` gives an ant: no city visited yet. */
    predicate Unstarted()
      reads this
    {
      tour == [] && visited == {} && distance == 0.0
    }
  }

  /** The city indices 0 .. n-1. */
  function Range(n: nat): (r: set<nat>)
    ensures forall c: nat :: c in r <==> c < n
    ensures |r| == n
  {
    if n == 0 then {} else Range(n - 1) + {n - 1}
  }

  function Elems(t: seq<nat>): set<nat>
  {
    set c | c in t
  }

  /** A tour repeats no city: it names as many cities as it has steps. */
  predicate Distinct(t: seq<nat>)
  {
    |Elems(t)| == |t|
  }

  /** Every index of `t` names one of the cities 0 .. n-1. */
  predicate OnCities(t: seq<nat>, n: nat)
  {
    forall k :: 0 <= k < |t| ==> t[k] < n
  }

  /** `t` visits each of the cities 0 .. n-1 exactly once. */
  predicate IsPermutation(t: seq<nat>, n: nat)
  {
    |t| == n && OnCities(t, n) && Distinct(t)
  }

  /**
   * A tour never names more cities than it has steps, and it names exactly
   * as many when no two of its steps are the same city.
   */
  lemma {:induction false} DistinctCard(t: seq<nat>)
    ensures |Elems(t)| <= |t|
    ensures Distinct(t) <==> forall j, k :: 0 <= j < k < |t| ==> t[j] != t[k]
  {
    if t != [] {
      var s, x := t[..|t| - 1], t[|t| - 1];
      DistinctCard(s);
      assert t == s + [x];
      assert Elems(t) == Elems(s) + {x};
      if Distinct(t) {
        assert x !in Elems(s);
        assert Distinct(s);
      }
      if forall j, k :: 0 <= j < k < |t| ==> t[j] != t[k] {
        PairwiseSnoc(s, x);
      }
    }
  }

  /** Dropping the last city of a tour without repeats leaves one without repeats that omits it. */
  lemma PairwiseSnoc(s: seq<nat>, x: nat)
    requires forall j, k :: 0 <= j < k < |s + [x]| ==> (s + [x])[j] != (s + [x])[k]
    ensures forall j, k :: 0 <= j < k < |s| ==> s[j] != s[k]
    ensures x !in Elems(s)
  {
    var t := s + [x];
    forall j, k | 0 <= j < k < |s|
      ensures s[j] != s[k]
    {
      assert s[j] == t[j] && s[k] == t[k];
    }
    forall j | 0 <= j < |s|
      ensures s[j] != x
    {
      assert s[j] == t[j] && x == t[|s|];
    }
  }

  lemma {:induction false} SubsetCard(a: set<nat>, b: set<nat>)
    requires a <= b
    ensures |a| <= |b|
    ensures |a| == |b| ==> a == b
  {
    if a != {} {
      var x :| x in a;
      SubsetCard(a - {x}, b - {x});
    }
  }

  /** A distinct tour of length n over the cities 0 .. n-1 omits none of them. */
  lemma PermutationCovers(t: seq<nat>, n: nat)
    requires IsPermutation(t, n)
    ensures forall c: nat :: c < n ==> c in t
  {
    DistinctCard(t);
    SubsetCard(Elems(t), Range(n));
    forall c: nat | c < n
      ensures c in t
    {
      assert c in Elems(t);
    }
  }

  /** Fewer than n cities visited leaves one of 0 .. n-1 unvisited. */
  lemma UnvisitedExists(visited: set<nat>, n: nat)
    requires |visited| < n
    ensures exists c: nat :: c < n && c !in visited
  {
    var missing := Range(n) - visited;
    SubsetCard(Range(n) * visited, visited);
    assert |missing| > 0;
    var c :| c in missing;
  }

  /**
   * The first k + 1 cities of a walk that starts at `start` and, at move k,
   * goes to choose(cities visited so far, current city, draws[k]).
   */
  function Walk(choose: (set<nat>, nat, real) -> nat, start: nat, draws: seq<real>, k: nat): (t: seq<nat>)
    requires k < |draws|
    ensures |t| == k + 1 && t[0] == start
  {
    if k == 0 then [start]
    else
      var prev := Walk(choose, start, draws, k - 1);
      prev + [choose(Elems(prev), prev[k - 1], draws[k])]
  }

  /** The walk after k moves is a prefix of the walk after m >= k moves. */
  lemma {:induction false} WalkPrefix(choose: (set<nat>, nat, real) -> nat, start: nat, draws: seq<real>, k: nat, m: nat)
    requires k <= m < |draws|
    ensures Walk(choose, start, draws, m)[..k + 1] == Walk(choose, start, draws, k)
  {
    var t := Walk(choose, start, draws, m);
    if k < m {
      WalkPrefix(choose, start, draws, k, m - 1);
      assert t[..m] == Walk(choose, start, draws, m - 1);
      assert t[..k + 1] == t[..m][..k + 1];
    } else {
      assert t[..m + 1] == t;
    }
  }

  /** Move k of the walk is the choice made from the cities visited before it. */
  lemma WalkSteps(choose: (set<nat>, nat, real) -> nat, start: nat, draws: seq<real>, m: nat, k: nat)
    requires 1 <= k <= m < |draws|
    ensures var t := Walk(choose, start, draws, m);
            t[k] == choose(Elems(t[..k]), t[k - 1], draws[k])
  {
    var t := Walk(choose, start, draws, m);
    WalkPrefix(choose, start, draws, k, m);
    WalkPrefix(choose, start, draws, k - 1, m);
    assert t[..k] == t[..k + 1][..k];
  }

  /** A rule that, while some city is unvisited, picks an unvisited city among 0 .. n-1. */
  ghost predicate PicksUnvisited(choose: (set<nat>, nat, real) -> nat, n: nat)
  {
    forall visited: set<nat>, current: nat, u: real ::
      current < n && current in visited && |visited| < n ==>
        choose(visited, current, u) < n && choose(visited, current, u) !in visited
  }

  lemma PickUnvisited(choose: (set<nat>, nat, real) -> nat, n: nat, visited: set<nat>, current: nat, u: real)
    requires PicksUnvisited(choose, n) && current < n && current in visited && |visited| < n
    ensures choose(visited, current, u) < n && choose(visited, current, u) !in visited
  {
  }

  /** Under such a rule a walk from a city below n never repeats a city while it has fewer than n. */
  lemma {:induction false} WalkDistinct(choose: (set<nat>, nat, real) -> nat, start: nat, draws: seq<real>, n: nat, m: nat)
    requires PicksUnvisited(choose, n) && start < n && m < n && m < |draws|
    ensures OnCities(Walk(choose, start, draws, m), n) && Distinct(Walk(choose, start, draws, m))
  {
    if m > 0 {
      var prev := Walk(choose, start, draws, m - 1);
      WalkDistinct(choose, start, draws, n, m - 1);
      DistinctCard(prev);
      var c := choose(Elems(prev), prev[m - 1], draws[m]);
      assert c < n && c !in Elems(prev) by {
        assert prev[m - 1] < n && prev[m - 1] in Elems(prev) && |Elems(prev)| < n;
        PickUnvisited(choose, n, Elems(prev), prev[m - 1], draws[m]);
      }
      assert Walk(choose, start, draws, m) == prev + [c];
      assert Elems(prev + [c]) == Elems(prev) + {c};
    } else {
      assert Elems([start]) == {start};
    }
  }

  /** Length of the open path t[0] → t[1] → … → t[|t|-1], accumulated edge by edge. */
  function PathLength(d: Matrix, t: seq<nat>): real
    requires Square(d, |d|) && OnCities(t, |d|)
  {
    if |t| < 2 then 0.0
    else PathLength(d, t[..|t| - 1]) + d[t[|t| - 2]][t[|t| - 1]]
  }

  /**
   * Appending a city c to a path: c joins the visited set, the path grows by
   * the edge from the old last city to c, and an unvisited c keeps the path
   * free of repeats.
   */
  lemma AppendCity(d: Matrix, t: seq<nat>, c: nat)
    requires Square(d, |d|) && OnCities(t, |d|) && c < |d| && |t| > 0
    ensures OnCities(t + [c], |d|)
    ensures PathLength(d, t + [c]) == PathLength(d, t) + d[t[|t| - 1]][c]
    ensures Elems(t + [c]) == Elems(t) + {c}
    ensures Distinct(t) && c !in Elems(t) ==> Distinct(t + [c])
  {
    assert (t + [c])[..|t|] == t;
  }

  /** The open path plus the edge from the last city back to the first. */
  function ClosedLength(d: Matrix, t: seq<nat>): real
    requires Square(d, |d|) && OnCities(t, |d|) && |t| > 0
  {
    PathLength(d, t) + d[t[|t| - 1]][t[0]]
  }

  /** Step s of a closed tour walks the edge t[s] → t[(s + 1) % |t|]. */
  function Next(t: seq<nat>, s: nat): (c: nat)
    requires s < |t|
    ensures c == t[(s + 1) % |t|]
  {
    if s + 1 < |t| then t[s + 1] else t[0]
  }

  /**
   * The sum of the first k edges t[s] → t[(s + 1) % |t|] of the tour read as a
   * cycle: the edges the pheromone deposit walks.
   */
  function CycleLength(d: Matrix, t: seq<nat>, k: nat): real
    requires Square(d, |d|) && OnCities(t, |d|) && k <= |t|
  {
    if k == 0 then 0.0
    else CycleLength(d, t, k - 1) + d[t[k - 1]][Next(t, k - 1)]
  }

  lemma {:induction false} PathIsCyclePrefix(d: Matrix, t: seq<nat>, k: nat)
    requires Square(d, |d|) && OnCities(t, |d|) && k < |t|
    ensures PathLength(d, t[..k + 1]) == CycleLength(d, t, k)
  {
    if k > 0 {
      PathIsCyclePrefix(d, t, k - 1);
      assert t[..k + 1] == t[..k] + [t[k]];
      AppendCity(d, t[..k], t[k]);
    }
  }

  /** The length accumulated by a path loop plus a closing edge is the cyclic tour length. */
  lemma ClosedIsCycle(d: Matrix, t: seq<nat>)
    requires Square(d, |d|) && OnCities(t, |d|) && |t| > 0
    ensures ClosedLength(d, t) == CycleLength(d, t, |t|)
  {
    PathIsCyclePrefix(d, t, |t| - 1);
    assert t[..|t|] == t;
  }

  lemma {:induction false} CyclePositive(d: Matrix, t: seq<nat>, k: nat)
    requires PositiveOffDiagonal(d) && IsPermutation(t, |d|) && |t| >= 2
    requires 0 < k <= |t|
    ensures CycleLength(d, t, k) > 0.0
  {
    DistinctCard(t);
    assert t[k - 1] != t[k % |t|];
    if k > 1 {
      CyclePositive(d, t, k - 1);
    }
  }

  /**
   * With distinct cities a positive distance apart, a tour of two or more
   * cities has strictly positive length, so the deposit Q / length is defined.
   */
  lemma ClosedLengthPositive(d: Matrix, t: seq<nat>)
    requires PositiveOffDiagonal(d) && IsPermutation(t, |d|) && |t| >= 2
    ensures ClosedLength(d, t) > 0.0
  {
    ClosedIsCycle(d, t);
    CyclePositive(d, t, |t|);
  }
}
