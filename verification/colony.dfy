/**
 * The colony controller: option defaults, the distance and pheromone
 * matrices, tour construction by roulette-wheel selection, best-so-far
 * tracking and the fixed-budget iteration loop with its history.
 */
module Colony {
  import opened Matrices
  import opened Distances
  import opened Tours
  import opened Roulette
  import opened Pheromones

  datatype Option<T> = None | Some(value: T)

  /** The options object as a caller passes it: each entry absent or a number. */
  datatype Options = Options(
    numAnts: Option<int>,
    numIterations: Option<int>,
    alpha: Option<real>,
    beta: Option<real>,
    evaporation: Option<real>,
    Q: Option<real>)

  /** JavaScript's `v || fallback` on a numeric option: a missing value and 0 are falsy. */
  function OrInt(v: Option<int>, fallback: int): (r: int)
    ensures v.Some? && v.value != 0 ==> r == v.value
    ensures v.None? || v.value == 0 ==> r == fallback
    ensures fallback != 0 ==> r != 0
  {
    if v.Some? && v.value != 0 then v.value else fallback
  }

  /** JavaScript's `v || fallback` on a numeric option: a missing value and 0.0 are falsy. */
  function OrReal(v: Option<real>, fallback: real): (r: real)
    ensures v.Some? && v.value != 0.0 ==> r == v.value
    ensures v.None? || v.value == 0.0 ==> r == fallback
    ensures fallback != 0.0 ==> r != 0.0
  {
    if v.Some? && v.value != 0.0 then v.value else fallback
  }

  /** How many times `for (i = 0; i < bound; i++)` runs its body. */
  function LoopCount(bound: int): nat
  {
    if bound > 0 then bound else 0
  }

  /** A best length: +∞ until some tour has been measured. */
  datatype Length = Finite(value: real) | Infinity

  /** JavaScript's `x < best` against a possibly infinite best. */
  predicate Shorter(x: real, best: Length)
  {
    best.Infinity? || x < best.value
  }

  /** `a <= b` on lengths extended with +∞. */
  predicate NoLonger(a: Length, b: Length)
  {
    b.Infinity? || (a.Finite? && a.value <= b.value)
  }

  /** One history entry: the iteration index and a copy of the best tour after it. */
  datatype IterationRecord = IterationRecord(iteration: nat, bestDistance: real, bestTour: seq<nat>)

  /** `best` is no longer than any length recorded in `h`. */
  predicate Bounds(best: Length, h: seq<IterationRecord>)
  {
    forall k :: 0 <= k < |h| ==> NoLonger(best, Finite(h[k].bestDistance))
  }

  /** A best that is no longer than a bound of the history is a bound too. */
  lemma BoundsImprove(best: Length, previous: Length, h: seq<IterationRecord>)
    requires NoLonger(best, previous) && Bounds(previous, h)
    ensures Bounds(best, h)
  {
  }

  /**
   * The best (d, t) after ants of the given lengths and tours, taken in
   * order, starting from the best (d0, t0), under the strict `<` of
   * `constructSolution`: unchanged when its length is unchanged, and
   * otherwise the tour of the first ant of that length, every earlier ant
   * having been strictly longer.
   */
  predicate FirstShortest(lengths: seq<real>, tours: seq<seq<nat>>, d0: Length, t0: Option<seq<nat>>, d: Length, t: Option<seq<nat>>)
    requires |lengths| == |tours|
  {
    (d == d0 ==> t == t0) &&
    (d != d0 ==>
       exists b :: 0 <= b < |lengths| && d == Finite(lengths[b]) && t == Some(tours[b]) &&
                   forall c :: 0 <= c < b ==> lengths[c] > lengths[b])
  }

  /**
   * One more ant under the strict `<` rule: the best it leaves is still the
   * previous best or the first shortest of the ants so far.
   */
  lemma FirstShortestStep(lengths: seq<real>, tours: seq<seq<nat>>, d0: Length, t0: Option<seq<nat>>,
                          d: Length, t: Option<seq<nat>>, x: real, tour: seq<nat>, d': Length, t': Option<seq<nat>>)
    requires |lengths| == |tours| && FirstShortest(lengths, tours, d0, t0, d, t)
    requires NoLonger(d, d0) && forall c :: 0 <= c < |lengths| ==> NoLonger(d, Finite(lengths[c]))
    requires if Shorter(x, d) then d' == Finite(x) && t' == Some(tour) else d' == d && t' == t
    ensures FirstShortest(lengths + [x], tours + [tour], d0, t0, d', t')
  {
    var L, T := lengths + [x], tours + [tour];
    if Shorter(x, d) {
      assert d' != d0;
      forall c | 0 <= c < |lengths|
        ensures L[c] > x
      {
        assert NoLonger(d, Finite(lengths[c]));
      }
      assert L[|lengths|] == x && T[|lengths|] == tour;
    } else if d' != d0 {
      var b :| 0 <= b < |lengths| && d == Finite(lengths[b]) && t == Some(tours[b]) &&
               forall c :: 0 <= c < b ==> lengths[c] > lengths[b];
      assert L[b] == lengths[b] && T[b] == tours[b];
      assert forall c :: 0 <= c < b ==> L[c] == lengths[c];
    }
  }

  /**
   * Every ant so far holds a tour of all n cities whose length is positive
   * and no shorter than the best.
   */
  predicate AllWalked(lengths: seq<real>, tours: seq<seq<nat>>, n: nat, best: Length)
    requires |lengths| == |tours|
  {
    forall b :: 0 <= b < |lengths| ==>
      lengths[b] > 0.0 && IsPermutation(tours[b], n) && NoLonger(best, Finite(lengths[b]))
  }

  /** One more ant whose tour is no shorter than the new best, which is no longer than the old. */
  lemma AllWalkedStep(lengths: seq<real>, tours: seq<seq<nat>>, n: nat, best: Length, best': Length, x: real, tour: seq<nat>)
    requires |lengths| == |tours| && AllWalked(lengths, tours, n, best)
    requires NoLonger(best', best) && x > 0.0 && IsPermutation(tour, n) && NoLonger(best', Finite(x))
    ensures AllWalked(lengths + [x], tours + [tour], n, best')
  {
    var L, T := lengths + [x], tours + [tour];
    forall b | 0 <= b < |L|
      ensures L[b] > 0.0 && IsPermutation(T[b], n) && NoLonger(best', Finite(L[b]))
    {
      if b < |lengths| {
        assert L[b] == lengths[b] && T[b] == tours[b];
      }
    }
  }

  /**
   * After the ants of the given lengths and tours, starting from the best
   * (d0, t0): the best (d, t) is no longer than before, every ant walked a
   * positive-length tour of all n cities no shorter than the best, and the
   * best follows the strict `<` rule.
   */
  predicate BestSoFar(lengths: seq<real>, tours: seq<seq<nat>>, n: nat, d0: Length, t0: Option<seq<nat>>, d: Length, t: Option<seq<nat>>)
    requires |lengths| == |tours|
  {
    NoLonger(d, d0) && AllWalked(lengths, tours, n, d) && FirstShortest(lengths, tours, d0, t0, d, t)
  }

  /** One more ant, which walked a tour of all n cities and was then offered as the best. */
  lemma BestSoFarStep(lengths: seq<real>, tours: seq<seq<nat>>, n: nat, d0: Length, t0: Option<seq<nat>>,
                      d: Length, t: Option<seq<nat>>, x: real, tour: seq<nat>, d': Length, t': Option<seq<nat>>)
    requires |lengths| == |tours| && BestSoFar(lengths, tours, n, d0, t0, d, t)
    requires x > 0.0 && IsPermutation(tour, n)
    requires if Shorter(x, d) then d' == Finite(x) && t' == Some(tour) else d' == d && t' == t
    ensures BestSoFar(lengths + [x], tours + [tour], n, d0, t0, d', t')
  {
    assert NoLonger(d', d) && NoLonger(d', Finite(x));
    FirstShortestStep(lengths, tours, d0, t0, d, t, x, tour, d', t');
    AllWalkedStep(lengths, tours, n, d, d', x, tour);
  }

  /**
   * `BestSoFar` read back on the ants themselves: each ant holds a
   * positive-length tour of all n cities no shorter than the best, and the
   * best is either unchanged or the first ant of the shortest length.
   */
  lemma BestAmongAnts(ants: seq<Ant>, lengths: seq<real>, tours: seq<seq<nat>>, n: nat,
                      d0: Length, t0: Option<seq<nat>>, d: Length, t: Option<seq<nat>>)
    requires |lengths| == |tours| == |ants|
    requires forall b :: 0 <= b < |ants| ==> ants[b].distance == lengths[b] && ants[b].tour == tours[b]
    requires BestSoFar(lengths, tours, n, d0, t0, d, t)
    ensures forall b :: 0 <= b < |ants| ==>
              ants[b].distance > 0.0 && IsPermutation(ants[b].tour, n) && NoLonger(d, Finite(ants[b].distance))
    ensures NoLonger(d, d0)
    ensures d == d0 ==> t == t0
    ensures d != d0 ==>
              exists b :: 0 <= b < |ants| && d == Finite(ants[b].distance) && t == Some(ants[b].tour) &&
                          forall c :: 0 <= c < b ==> ants[c].distance > ants[b].distance
  {
    if d != d0 {
      var b :| 0 <= b < |lengths| && d == Finite(lengths[b]) && t == Some(tours[b]) &&
               forall c :: 0 <= c < b ==> lengths[c] > lengths[b];
      assert d == Finite(ants[b].distance) && t == Some(ants[b].tour);
    }
  }

  /** What `run` returns. */
  datatype Solution = Solution(tour: Option<seq<nat>>, distance: Length, history: seq<IterationRecord>)

  class AntColonyOptimization {
    const cities: seq<City>
    const numCities: nat

    const numAnts: int
    const numIterations: int
    const alpha: real
    const beta: real
    const evaporation: real
    const Q: real

    const distances: Matrix
    var pheromones: Matrix

    var bestTour: Option<seq<nat>>
    var bestDistance: Length
    var history: seq<IterationRecord>

    /** The distance table is N×N. */
    predicate Shaped()
    {
      Square(distances, numCities)
    }

    /** `t` is a tour of all the cities and `length` is its closed length. */
    predicate Scored(t: seq<nat>, length: real)
      requires Shaped()
    {
      IsPermutation(t, numCities) && |t| > 0 && length == ClosedLength(distances, t)
    }

    /** Every recorded tour is a tour of all the cities and its length is the tour's closed length. */
    predicate AllScored(tours: seq<seq<nat>>, lengths: seq<real>)
      requires Shaped() && |tours| == |lengths|
    {
      forall b :: 0 <= b < |tours| ==> Scored(tours[b], lengths[b])
    }

    /** Recording one more scored tour keeps every recorded tour scored. */
    lemma AllScoredStep(tours: seq<seq<nat>>, lengths: seq<real>, tour: seq<nat>, length: real)
      requires Shaped() && |tours| == |lengths|
      requires AllScored(tours, lengths) && Scored(tour, length)
      ensures AllScored(tours + [tour], lengths + [length])
    {
      assert forall b :: 0 <= b < |tours| ==> (tours + [tour])[b] == tours[b] && (lengths + [length])[b] == lengths[b];
    }

    /**
     * The engine's invariant: a symmetric zero-diagonal distance table, a
     * symmetric N×N pheromone table, a best tour exactly when the best length
     * is finite, and the best tour a scored permutation.
     */
    predicate Valid()
      reads this
    {
      Shaped() && Symmetric(distances) && ZeroDiagonal(distances) &&
      Square(pheromones, numCities) && Symmetric(pheromones) &&
      (bestTour.Some? <==> bestDistance.Finite?) &&
      (bestTour.Some? ==> Scored(bestTour.value, bestDistance.value))
    }

    /**
     * The history's invariant: every recorded best a scored permutation,
     * recorded bests non-increasing, and the current best no longer than any
     * recorded one.
     */
    predicate HistoryValid()
      reads this
    {
      Shaped() &&
      (forall k :: 0 <= k < |history| ==> Scored(history[k].bestTour, history[k].bestDistance)) &&
      (forall j, k :: 0 <= j < k < |history| ==> history[k].bestDistance <= history[j].bestDistance) &&
      Bounds(bestDistance, history)
    }

    /**
     * Stores the options with their `||` defaults, computes the distance
     * table (`sqrt` stands in for the platform square root) and the initial
     * pheromone table, and starts with no best tour and an infinite best length.
     */
    constructor (cities: seq<City>, options: Options, sqrt: real -> real)
      ensures this.cities == cities && numCities == |cities| && Shaped()
      ensures numAnts == OrInt(options.numAnts, 50)
      ensures numIterations == OrInt(options.numIterations, 100)
      ensures alpha == OrReal(options.alpha, 1.0)
      ensures beta == OrReal(options.beta, 5.0)
      ensures evaporation == OrReal(options.evaporation, 0.5)
      ensures Q == OrReal(options.Q, 100.0)
      ensures forall i, j :: 0 <= i < numCities && 0 <= j < numCities && i != j ==>
                distances[i][j] == sqrt(SqDist(cities[i], cities[j]))
      ensures pheromones == InitializePheromones(numCities)
      ensures bestTour == None && bestDistance == Infinity && history == []
      ensures Valid() && HistoryValid() && Positive(pheromones)
    {
      this.cities := cities;
      numCities := |cities|;
      numAnts := OrInt(options.numAnts, 50);
      numIterations := OrInt(options.numIterations, 100);
      alpha := OrReal(options.alpha, 1.0);
      beta := OrReal(options.beta, 5.0);
      evaporation := OrReal(options.evaporation, 0.5);
      Q := OrReal(options.Q, 100.0);
      var d := CalculateDistances(cities, sqrt);
      distances := d;
      pheromones := InitializePheromones(|cities|);
      bestTour := None;
      bestDistance := Infinity;
      history := [];
    }

    /** The current pheromone level between two cities; the table is symmetric. */
    function PheromoneLevel(city1: nat, city2: nat): (level: real)
      reads this
      requires Valid() && city1 < numCities && city2 < numCities
      ensures level == pheromones[city2][city1]
    {
      pheromones[city1][city2]
    }

    /**
     * The score of moving from `current` to `city` under pheromone table P:
     * P[current][city]^alpha * (1 / distance)^beta, with `pow` standing in
     * for the platform's power function.
     */
    function Score(pow: (real, real) -> real, P: Matrix, current: nat, city: nat): real
      requires Shaped() && Square(P, numCities) && current < numCities && city < numCities
      requires distances[current][city] != 0.0
    {
      pow(P[current][city], alpha) * pow(1.0 / distances[current][city], beta)
    }

    /**
     * The candidate list the scoring loop has built after looking at cities
     * 0 .. n-1: every unvisited one, in ascending order, with its score.
     */
    function Wheel(pow: (real, real) -> real, P: Matrix, visited: set<nat>, current: nat, n: nat): seq<Candidate>
      requires PositiveOffDiagonal(distances) && Shaped() && Square(P, numCities)
      requires current < numCities && current in visited && n <= numCities
    {
      if n == 0 then []
      else
        var w := Wheel(pow, P, visited, current, n - 1);
        if n - 1 in visited then w
        else w + [Candidate(n - 1, Score(pow, P, current, n - 1))]
    }

    /**
     * The wheel lists exactly the unvisited cities below n, each once, in
     * ascending order, each with its score.
     */
    lemma {:induction false} WheelLists(pow: (real, real) -> real, P: Matrix, visited: set<nat>, current: nat, n: nat)
      requires PositiveOffDiagonal(distances) && Shaped() && Square(P, numCities)
      requires current < numCities && current in visited && n <= numCities
      ensures var w := Wheel(pow, P, visited, current, n);
              (forall k :: 0 <= k < |w| ==>
                 w[k].city < n && w[k].city !in visited && w[k].weight == Score(pow, P, current, w[k].city)) &&
              (forall c: nat :: c < n && c !in visited ==> exists k :: 0 <= k < |w| && w[k].city == c) &&
              (forall j, k :: 0 <= j < k < |w| ==> w[j].city < w[k].city)
    {
      if n > 0 {
        WheelLists(pow, P, visited, current, n - 1);
        var w := Wheel(pow, P, visited, current, n - 1);
        if n - 1 !in visited {
          var w' := w + [Candidate(n - 1, Score(pow, P, current, n - 1))];
          assert forall k :: 0 <= k < |w| ==> w'[k] == w[k];
          assert w'[|w|].city == n - 1;
        }
      }
    }

    /**
     * Roulette-wheel choice of the next city: score every unvisited city,
     * draw r = u * total, subtract the scores in ascending city order and stop
     * at the first city where the remainder is <= 0; if none, take the last
     * candidate. `u` is the platform's uniform draw.
     */
    method SelectNextCity(pow: (real, real) -> real, ant: Ant, currentCity: nat, u: real)
      returns (city: nat)
      requires PositiveOffDiagonal(distances) && Shaped() && Square(pheromones, numCities)
      requires currentCity < numCities && currentCity in ant.visited
      requires exists c: nat :: c < numCities && c !in ant.visited
      ensures city < numCities && city !in ant.visited
      ensures city == Choose(pow, pheromones, ant.visited, currentCity, u)
    {
      var probabilities, total := ScoreCandidates(pow, ant, currentCity);
      WheelLists(pow, pheromones, ant.visited, currentCity, numCities);
      city := SpinWheel(probabilities, total, u);
    }

    /**
     * The scoring loop of `selectNextCity`: every city not yet visited, in
     * ascending order, with its score, and the running total of the scores.
     */
    method ScoreCandidates(pow: (real, real) -> real, ant: Ant, currentCity: nat)
      returns (probabilities: seq<Candidate>, total: real)
      requires PositiveOffDiagonal(distances) && Shaped() && Square(pheromones, numCities)
      requires currentCity < numCities && currentCity in ant.visited
      ensures probabilities == Wheel(pow, pheromones, ant.visited, currentCity, numCities)
      ensures total == Sum(probabilities)
    {
      probabilities, total := [], 0.0;
      for c := 0 to numCities
        invariant probabilities == Wheel(pow, pheromones, ant.visited, currentCity, c)
        invariant total == Sum(probabilities)
      {
        if c !in ant.visited {
          var pheromone := pow(pheromones[currentCity][c], alpha);
          var visibility := pow(1.0 / distances[currentCity][c], beta);
          var probability := pheromone * visibility;
          assert probability == Score(pow, pheromones, currentCity, c);
          probabilities := probabilities + [Candidate(c, probability)];
          total := total + probability;
        }
      }
    }

    /**
     * The roulette loop of `selectNextCity`: r = u * total, each candidate's
     * score subtracted in turn, the first candidate that brings r to zero or
     * below chosen, the last one if none does.
     */
    method SpinWheel(probabilities: seq<Candidate>, total: real, u: real) returns (city: nat)
      requires probabilities != [] && total == Sum(probabilities)
      ensures city == Select(probabilities, u)
    {
      var w := probabilities;
      var r := u * total;
      assert r == Draw(u, Sum(w));
      var random := r;
      for i := 0 to |w|
        invariant random == r - Sum(w[..i])
        invariant forall j :: 0 < j <= i ==> r - Sum(w[..j]) > 0.0
      {
        assert random - w[i].weight == r - Sum(w[..i + 1]) by {
          PrefixStep(w, i);
        }
        random := random - w[i].weight;
        if random <= 0.0 {
          SelectStops(w, u, i);
          return w[i].city;
        }
      }
      SelectStops(w, u, |w| - 1);
      return w[|w| - 1].city;
    }

    /**
     * The city the roulette picks from `current` for the uniform draw u, among
     * the cities not in `visited`.
     */
    function Choose(pow: (real, real) -> real, P: Matrix, visited: set<nat>, current: nat, u: real): (c: nat)
      requires PositiveOffDiagonal(distances) && Shaped() && Square(P, numCities)
      requires current < numCities && current in visited
      requires exists c: nat :: c < numCities && c !in visited
      ensures c < numCities && c !in visited
    {
      WheelLists(pow, P, visited, current, numCities);
      var w := Wheel(pow, P, visited, current, numCities);
      assert w != [];
      Select(w, u)
    }

    /**
     * The roulette is proportional to the scores: with a power function that
     * is positive on positive bases and a positive pheromone table, every
     * candidate has a positive score, and the k-th candidate is chosen
     * exactly when the draw u * total falls in its slice of the wheel.
     */
    lemma ChooseProportional(pow: (real, real) -> real, P: Matrix, visited: set<nat>, current: nat, u: real, k: nat)
      requires PositiveOffDiagonal(distances) && Shaped() && Square(P, numCities) && Positive(P)
      requires current < numCities && current in visited
      requires exists c: nat :: c < numCities && c !in visited
      requires forall x, y :: x > 0.0 ==> pow(x, y) > 0.0
      requires 0.0 <= u < 1.0
      ensures var w := Wheel(pow, P, visited, current, numCities);
              (forall i :: 0 <= i < |w| ==> w[i].weight > 0.0) &&
              (k < |w| ==>
                 (Choose(pow, P, visited, current, u) == w[k].city <==>
                  (k == 0 || Sum(w[..k]) < Draw(u, Sum(w))) && Draw(u, Sum(w)) <= Sum(w[..k + 1])))
    {
      WheelLists(pow, P, visited, current, numCities);
      WheelPositive(pow, P, visited, current);
      var w := Wheel(pow, P, visited, current, numCities);
      if k < |w| {
        SelectProportional(w, u, k);
      }
    }

    /** Under the same hypotheses every candidate on the wheel has a positive score. */
    lemma WheelPositive(pow: (real, real) -> real, P: Matrix, visited: set<nat>, current: nat)
      requires PositiveOffDiagonal(distances) && Shaped() && Square(P, numCities) && Positive(P)
      requires current < numCities && current in visited
      requires forall x, y :: x > 0.0 ==> pow(x, y) > 0.0
      ensures var w := Wheel(pow, P, visited, current, numCities);
              forall i :: 0 <= i < |w| ==> w[i].weight > 0.0
    {
      WheelLists(pow, P, visited, current, numCities);
      var w := Wheel(pow, P, visited, current, numCities);
      forall i | 0 <= i < |w|
        ensures w[i].weight > 0.0
      {
        var c := w[i].city;
        assert c != current && P[current][c] > 0.0 && distances[current][c] > 0.0;
        var a, b := pow(P[current][c], alpha), pow(1.0 / distances[current][c], beta);
        assert a > 0.0 && b > 0.0;
        assert w[i].weight == a * b;
      }
    }

    /**
     * The roulette rule as a choice function for `Walk`: while the current
     * city has been visited and some city has not, the roulette choice;
     * otherwise (a case a walk of fewer than N cities never reaches) the
     * current city.
     */
    function Chooser(pow: (real, real) -> real, P: Matrix): (choose: (set<nat>, nat, real) -> nat)
      requires PositiveOffDiagonal(distances) && Shaped() && Square(P, numCities)
    {
      (visited: set<nat>, current: nat, u: real) =>
        if current < numCities && current in visited && exists c: nat :: c < numCities && c !in visited
        then Choose(pow, P, visited, current, u)
        else current
    }

    /** The roulette rule only ever picks a city that has not been visited yet. */
    lemma ChooserPicksUnvisited(pow: (real, real) -> real, P: Matrix)
      requires PositiveOffDiagonal(distances) && Shaped() && Square(P, numCities)
      ensures PicksUnvisited(Chooser(pow, P), numCities)
    {
      var choose := Chooser(pow, P);
      forall visited: set<nat>, current: nat, u: real | current < numCities && current in visited && |visited| < numCities
        ensures choose(visited, current, u) < numCities && choose(visited, current, u) !in visited
      {
        UnvisitedExists(visited, numCities);
      }
    }

    /**
     * The first k + 1 cities of the tour an ant builds under pheromone table
     * P from its uniform draws: draws[0] picks the start city and draws[k]
     * the k-th move, each the roulette choice among the cities not yet visited.
     */
    function Tour(pow: (real, real) -> real, P: Matrix, draws: seq<real>, k: nat): (t: seq<nat>)
      requires PositiveOffDiagonal(distances) && Shaped() && Square(P, numCities)
      requires k < numCities && k < |draws| && 0.0 <= draws[0] < 1.0
      ensures |t| == k + 1 && OnCities(t, numCities) && Distinct(t)
      ensures t[0] == StartCity(draws[0], numCities)
    {
      ChooserPicksUnvisited(pow, P);
      WalkDistinct(Chooser(pow, P), StartCity(draws[0], numCities), draws, numCities, k);
      Walk(Chooser(pow, P), StartCity(draws[0], numCities), draws, k)
    }

    /**
     * One more move extends the tour by the roulette choice from its last
     * city among the cities it has visited, for that move's own draw.
     */
    lemma TourExtends(pow: (real, real) -> real, P: Matrix, draws: seq<real>, k: nat)
      requires PositiveOffDiagonal(distances) && Shaped() && Square(P, numCities)
      requires k + 1 < numCities && k + 1 < |draws| && 0.0 <= draws[0] < 1.0
      ensures exists c: nat :: c < numCities && c !in Elems(Tour(pow, P, draws, k))
      ensures var prev := Tour(pow, P, draws, k);
              Tour(pow, P, draws, k + 1) == prev + [Choose(pow, P, Elems(prev), prev[k], draws[k + 1])]
    {
      var prev := Tour(pow, P, draws, k);
      DistinctCard(prev);
      UnvisitedExists(Elems(prev), numCities);
    }

    /**
     * Every move of a complete or partial tour is the roulette choice from the
     * previous city among the cities visited before it, for that move's own draw.
     */
    lemma TourSteps(pow: (real, real) -> real, P: Matrix, draws: seq<real>, m: nat, k: nat)
      requires PositiveOffDiagonal(distances) && Shaped() && Square(P, numCities)
      requires 1 <= k <= m < numCities && m < |draws| && 0.0 <= draws[0] < 1.0
      ensures var t := Tour(pow, P, draws, m);
              t[k - 1] in Elems(t[..k]) &&
              (exists c: nat :: c < numCities && c !in Elems(t[..k])) &&
              t[k] == Choose(pow, P, Elems(t[..k]), t[k - 1], draws[k])
    {
      var t := Tour(pow, P, draws, m);
      var start := StartCity(draws[0], numCities);
      WalkSteps(Chooser(pow, P), start, draws, m, k);
      DistinctCard(t[..k]);
      UnvisitedExists(Elems(t[..k]), numCities);
    }

    /**
     * One pass of the tour-building loop: the ant moves from its last city to
     * the roulette choice for its next draw, records the city as visited and
     * adds the length of the edge it walked.
     */
    method Advance(pow: (real, real) -> real, ant: Ant, draws: seq<real>)
      requires PositiveOffDiagonal(distances) && Shaped() && Square(pheromones, numCities)
      requires 1 <= |ant.tour| < numCities && |draws| == numCities && 0.0 <= draws[0] < 1.0
      requires ant.tour == Tour(pow, pheromones, draws, |ant.tour| - 1) && ant.visited == Elems(ant.tour)
      requires ant.distance == PathLength(distances, ant.tour)
      modifies ant
      ensures |ant.tour| == |old(ant.tour)| + 1
      ensures ant.tour == Tour(pow, pheromones, draws, |ant.tour| - 1) && ant.visited == Elems(ant.tour)
      ensures ant.distance == PathLength(distances, ant.tour)
    {
      var k := |ant.tour| - 1;
      var currentCity := ant.tour[k];
      TourExtends(pow, pheromones, draws, k);
      var nextCity := SelectNextCity(pow, ant, currentCity, draws[k + 1]);
      AppendCity(distances, ant.tour, nextCity);
      ant.tour := ant.tour + [nextCity];
      ant.visited := ant.visited + {nextCity};
      ant.distance := ant.distance + distances[currentCity][nextCity];
    }

    /**
     * The tour-building part of `constructSolution`: the ant starts at
     * floor(draws[0] * N) and repeatedly moves to the roulette choice for draw
     * draws[k] until it has visited all N cities, accumulating the lengths of
     * the edges it walks.
     */
    method BuildTour(pow: (real, real) -> real, ant: Ant, draws: seq<real>)
      requires PositiveOffDiagonal(distances) && Shaped() && Square(pheromones, numCities)
      requires numCities >= 1 && |draws| == numCities && 0.0 <= draws[0] < 1.0
      requires ant.Unstarted()
      modifies ant
      ensures IsPermutation(ant.tour, numCities) && ant.visited == Elems(ant.tour)
      ensures ant.tour == Tour(pow, pheromones, draws, numCities - 1)
      ensures ant.distance == PathLength(distances, ant.tour)
    {
      var startCity := StartCity(draws[0], numCities);
      ant.tour := ant.tour + [startCity];
      ant.visited := ant.visited + {startCity};
      while |ant.tour| < numCities
        invariant 1 <= |ant.tour| <= numCities
        invariant ant.tour == Tour(pow, pheromones, draws, |ant.tour| - 1) && ant.visited == Elems(ant.tour)
        invariant ant.distance == PathLength(distances, ant.tour)
        decreases numCities - |ant.tour|
      {
        Advance(pow, ant, draws);
      }
    }

    /**
     * One ant builds a closed tour (see `BuildTour`), adds the edge from its
     * last city back to the start, and a strictly shorter tour becomes the
     * new best (a copy).
     */
    method ConstructSolution(pow: (real, real) -> real, ant: Ant, draws: seq<real>)
      requires Valid() && PositiveOffDiagonal(distances) && numCities >= 1
      requires ant.Unstarted()
      requires |draws| == numCities && 0.0 <= draws[0] < 1.0
      modifies ant, this`bestDistance, this`bestTour
      ensures Valid()
      ensures IsPermutation(ant.tour, numCities) && ant.visited == Elems(ant.tour)
      ensures ant.tour == Tour(pow, pheromones, draws, numCities - 1)
      ensures ant.distance == ClosedLength(distances, ant.tour)
      ensures if Shorter(ant.distance, old(bestDistance))
              then bestDistance == Finite(ant.distance) && bestTour == Some(ant.tour)
              else bestDistance == old(bestDistance) && bestTour == old(bestTour)
    {
      BuildTour(pow, ant, draws);
      var startCity := ant.tour[0];
      var lastCity := ant.tour[|ant.tour| - 1];
      ant.distance := ant.distance + distances[lastCity][startCity];
      RecordBest(ant.tour, ant.distance);
    }

    /** `if (length < this.bestDistance)`: a strictly shorter scored tour becomes the new best. */
    method RecordBest(tour: seq<nat>, length: real)
      requires Valid() && Scored(tour, length)
      modifies this`bestDistance, this`bestTour
      ensures Valid()
      ensures if Shorter(length, old(bestDistance))
              then bestDistance == Finite(length) && bestTour == Some(tour)
              else bestDistance == old(bestDistance) && bestTour == old(bestTour)
    {
      if Shorter(length, bestDistance) {
        bestDistance := Finite(length);
        bestTour := Some(tour);
      }
    }

    /**
     * The fixed-budget loop: each iteration creates the ants, lets each build
     * a tour (updating the best), updates the pheromones from all of the
     * tours and records the best so far in the history. `random` is the
     * stream of uniform draws, consumed N per ant in order.
     */
    method Run(pow: (real, real) -> real, random: int -> real) returns (result: Solution)
      requires Valid() && HistoryValid()
      requires numIterations <= 0 || (numCities >= 2 && PositiveOffDiagonal(distances) && (numAnts >= 1 || bestTour.Some?))
      requires forall k :: 0.0 <= random(k) < 1.0
      modifies this
      ensures Valid() && HistoryValid()
      ensures |history| == |old(history)| + LoopCount(numIterations) && history[..|old(history)|] == old(history)
      ensures forall k :: |old(history)| <= k < |history| ==> history[k].iteration == k - |old(history)|
      ensures LoopCount(numIterations) > 0 ==>
                bestTour.Some? && history[|history| - 1] == IterationRecord(numIterations - 1, bestDistance.value, bestTour.value)
      ensures NoLonger(bestDistance, old(bestDistance))
      ensures evaporation < 1.0 && Q >= 0.0 && Positive(old(pheromones)) ==> Positive(pheromones)
      ensures LoopCount(numIterations) == 0 ==>
                pheromones == old(pheromones) && bestTour == old(bestTour) && bestDistance == old(bestDistance)
      ensures result == Solution(bestTour, bestDistance, history)
    {
      ghost var H0 := history;
      var next := 0;
      for iteration := 0 to LoopCount(numIterations)
        invariant Valid() && HistoryValid()
        invariant |history| == |H0| + iteration && history[..|H0|] == H0
        invariant forall k :: |H0| <= k < |history| ==> history[k].iteration == k - |H0|
        invariant iteration > 0 ==>
                    bestTour.Some? && history[|history| - 1] == IterationRecord(iteration - 1, bestDistance.value, bestTour.value)
        invariant NoLonger(bestDistance, old(bestDistance))
        invariant iteration > 0 || old(bestTour).Some? ==> bestTour.Some?
        invariant evaporation < 1.0 && Q >= 0.0 && Positive(old(pheromones)) ==> Positive(pheromones)
        invariant iteration == 0 ==>
                    pheromones == old(pheromones) && bestTour == old(bestTour) && bestDistance == old(bestDistance)
      {
        var ants := Iterate(pow, random, next, iteration);
        next := next + |ants| * numCities;
      }
      result := Solution(bestTour, bestDistance, history);
    }

    /**
     * One pass of the loop in `run`: fresh ants, each builds its tour (the
     * best follows), the pheromones are evaporated and the ants' trails laid,
     * and the best so far is appended to the history.
     */
    method Iterate(pow: (real, real) -> real, random: int -> real, next: int, iteration: nat)
      returns (ants: seq<Ant>)
      requires Valid() && HistoryValid() && numCities >= 2 && PositiveOffDiagonal(distances)
      requires numAnts >= 1 || bestTour.Some?
      requires forall k :: 0.0 <= random(k) < 1.0
      modifies this
      ensures Valid() && HistoryValid() && bestTour.Some?
      ensures |ants| == LoopCount(numAnts)
      ensures forall b :: 0 <= b < |ants| ==>
                ants[b].distance > 0.0 && IsPermutation(ants[b].tour, numCities) &&
                NoLonger(bestDistance, Finite(ants[b].distance))
      ensures forall b :: 0 <= b < |ants| ==> Scored(ants[b].tour, ants[b].distance)
      ensures IsUpdate(old(pheromones), pheromones, ants, evaporation, Q)
      ensures evaporation < 1.0 && Q >= 0.0 && Positive(old(pheromones)) ==> Positive(pheromones)
      ensures NoLonger(bestDistance, old(bestDistance))
      ensures bestDistance == old(bestDistance) ==> bestTour == old(bestTour)
      ensures bestDistance != old(bestDistance) ==>
                exists b :: 0 <= b < |ants| && bestDistance == Finite(ants[b].distance) && bestTour == Some(ants[b].tour) &&
                            forall c :: 0 <= c < b ==> ants[c].distance > ants[b].distance
      ensures history == old(history) + [IterationRecord(iteration, bestDistance.value, bestTour.value)]
    {
      ants := CreateAnts();
      ghost var best := bestDistance;
      ConstructSolutions(pow, ants, random, next);
      BoundsImprove(bestDistance, best, history);
      Conclude(ants, iteration);
    }

    /**
     * The end of one pass of the loop in `run`: the pheromone update from
     * the iteration's ants, then the history record of the best so far.
     */
    method Conclude(ants: seq<Ant>, iteration: nat)
      requires Valid() && HistoryValid() && bestTour.Some?
      requires forall b :: 0 <= b < |ants| ==> ants[b].distance > 0.0 && IsPermutation(ants[b].tour, numCities)
      modifies this`pheromones, this`history
      ensures Valid() && HistoryValid()
      ensures IsUpdate(old(pheromones), pheromones, ants, evaporation, Q)
      ensures evaporation < 1.0 && Q >= 0.0 && Positive(old(pheromones)) ==> Positive(pheromones)
      ensures history == old(history) + [IterationRecord(iteration, bestDistance.value, bestTour.value)]
    {
      UpdatePheromones(ants);
      RecordIteration(iteration);
    }

    /** `this.history.push(...)`: the iteration index with the best length and a copy of the best tour. */
    method RecordIteration(iteration: nat)
      requires Valid() && HistoryValid() && bestTour.Some?
      modifies this`history
      ensures Valid() && HistoryValid()
      ensures history == old(history) + [IterationRecord(iteration, bestDistance.value, bestTour.value)]
    {
      history := history + [IterationRecord(iteration, bestDistance.value, bestTour.value)];
    }

    /**
     * The loop over the ants in `run`: every ant builds its tour in turn,
     * ant a from the N draws of `random` at positions next + a * N onwards.
     * Afterwards every ant holds a tour of all the cities of positive length,
     * the best is no longer than the previous best nor than any ant's tour,
     * and it is either the previous best or the tour of the first ant that
     * was strictly shorter than every ant before it.
     */
    method ConstructSolutions(pow: (real, real) -> real, ants: seq<Ant>, random: int -> real, next: int)
      requires Valid() && numCities >= 2 && PositiveOffDiagonal(distances)
      requires forall k :: 0.0 <= random(k) < 1.0
      requires forall b :: 0 <= b < |ants| ==> ants[b].Unstarted()
      requires forall b, c :: 0 <= b < c < |ants| ==> ants[b] != ants[c]
      modifies ants, this`bestDistance, this`bestTour
      ensures Valid()
      ensures forall b :: 0 <= b < |ants| ==>
                ants[b].distance > 0.0 && IsPermutation(ants[b].tour, numCities) &&
                NoLonger(bestDistance, Finite(ants[b].distance))
      ensures forall b :: 0 <= b < |ants| ==> Scored(ants[b].tour, ants[b].distance)
      ensures NoLonger(bestDistance, old(bestDistance))
      ensures |ants| > 0 ==> bestTour.Some?
      ensures bestDistance == old(bestDistance) ==> bestTour == old(bestTour)
      ensures bestDistance != old(bestDistance) ==>
                exists b :: 0 <= b < |ants| && bestDistance == Finite(ants[b].distance) && bestTour == Some(ants[b].tour) &&
                            forall c :: 0 <= c < b ==> ants[c].distance > ants[b].distance
    {
      ghost var lengths: seq<real>, tours: seq<seq<nat>>;
      lengths, tours := SendAnts(pow, ants, random, next);
      BestAmongAnts(ants, lengths, tours, numCities, old(bestDistance), old(bestTour), bestDistance, bestTour);
      if |ants| > 0 {
        assert NoLonger(bestDistance, Finite(ants[0].distance));
      }
    }

    /**
     * The loop of `ConstructSolutions`, with the ants' final lengths and tours
     * recorded as values: each ant's tour covers all the cities and its length
     * is the tour's closed length, and the best
     * follows the strict `<` rule over the ants in order.
     */
    method SendAnts(pow: (real, real) -> real, ants: seq<Ant>, random: int -> real, next: int)
      returns (ghost lengths: seq<real>, ghost tours: seq<seq<nat>>)
      requires Valid() && numCities >= 2 && PositiveOffDiagonal(distances)
      requires forall k :: 0.0 <= random(k) < 1.0
      requires forall b :: 0 <= b < |ants| ==> ants[b].Unstarted()
      requires forall b, c :: 0 <= b < c < |ants| ==> ants[b] != ants[c]
      modifies ants, this`bestDistance, this`bestTour
      ensures Valid()
      ensures |lengths| == |tours| == |ants|
      ensures forall b :: 0 <= b < |ants| ==> ants[b].distance == lengths[b] && ants[b].tour == tours[b]
      ensures AllScored(tours, lengths)
      ensures BestSoFar(lengths, tours, numCities, old(bestDistance), old(bestTour), bestDistance, bestTour)
    {
      lengths, tours := [], [];
      for a := 0 to |ants|
        invariant Valid()
        invariant |lengths| == |tours| == a
        invariant forall b :: 0 <= b < |ants| ==>
                    if b < a then ants[b].distance == lengths[b] && ants[b].tour == tours[b] else ants[b].Unstarted()
        invariant AllScored(tours, lengths)
        invariant BestSoFar(lengths, tours, numCities, old(bestDistance), old(bestTour), bestDistance, bestTour)
      {
        lengths, tours := SendAnt(pow, ants[a], Draws(random, next + a * numCities, numCities),
                                  lengths, tours, old(bestDistance), old(bestTour));
      }
    }

    /**
     * One step of the loop of `SendAnts`: the ant walks (see `WalkAnt`) and its
     * length and tour are recorded after the earlier ants', keeping every
     * recorded tour scored and the best the first strictly shortest so far.
     */
    method SendAnt(pow: (real, real) -> real, ant: Ant, draws: seq<real>,
                   ghost lengths: seq<real>, ghost tours: seq<seq<nat>>, ghost d0: Length, ghost t0: Option<seq<nat>>)
      returns (ghost lengths': seq<real>, ghost tours': seq<seq<nat>>)
      requires Valid() && numCities >= 2 && PositiveOffDiagonal(distances)
      requires ant.Unstarted() && |draws| == numCities && 0.0 <= draws[0] < 1.0
      requires |lengths| == |tours| && AllScored(tours, lengths)
      requires BestSoFar(lengths, tours, numCities, d0, t0, bestDistance, bestTour)
      modifies ant, this`bestDistance, this`bestTour
      ensures Valid()
      ensures lengths' == lengths + [ant.distance] && tours' == tours + [ant.tour]
      ensures AllScored(tours', lengths')
      ensures BestSoFar(lengths', tours', numCities, d0, t0, bestDistance, bestTour)
    {
      ghost var d, t := bestDistance, bestTour;
      WalkAnt(pow, ant, draws);
      BestSoFarStep(lengths, tours, numCities, d0, t0, d, t, ant.distance, ant.tour, bestDistance, bestTour);
      AllScoredStep(tours, lengths, ant.tour, ant.distance);
      lengths', tours' := lengths + [ant.distance], tours + [ant.tour];
    }

    /**
     * One ant's `constructSolution` as seen by the iteration: the roulette tour
     * of all the cities for the ant's draws, with its positive closed length,
     * and a best no longer than before nor than this tour, which replaces the
     * previous best only when strictly shorter.
     */
    method WalkAnt(pow: (real, real) -> real, ant: Ant, draws: seq<real>)
      requires Valid() && numCities >= 2 && PositiveOffDiagonal(distances)
      requires ant.Unstarted() && |draws| == numCities && 0.0 <= draws[0] < 1.0
      modifies ant, this`bestDistance, this`bestTour
      ensures Valid() && bestTour.Some?
      ensures ant.distance > 0.0 && IsPermutation(ant.tour, numCities)
      ensures Scored(ant.tour, ant.distance)
      ensures ant.tour == Tour(pow, pheromones, draws, numCities - 1)
      ensures NoLonger(bestDistance, old(bestDistance)) && NoLonger(bestDistance, Finite(ant.distance))
      ensures if Shorter(ant.distance, old(bestDistance))
              then bestDistance == Finite(ant.distance) && bestTour == Some(ant.tour)
              else bestDistance == old(bestDistance) && bestTour == old(bestTour)
    {
      ConstructSolution(pow, ant, draws);
      ClosedLengthPositive(distances, ant.tour);
    }

    /** One fresh ant per `numAnts`, each with an empty tour, no visited city and length 0. */
    method CreateAnts() returns (ants: seq<Ant>)
      ensures |ants| == LoopCount(numAnts)
      ensures forall a :: 0 <= a < |ants| ==> fresh(ants[a])
      ensures forall a :: 0 <= a < |ants| ==> ants[a].Unstarted()
      ensures forall a, b :: 0 <= a < b < |ants| ==> ants[a] != ants[b]
    {
      ants := [];
      for i := 0 to LoopCount(numAnts)
        invariant |ants| == i
        invariant forall a :: 0 <= a < i ==> fresh(ants[a])
        invariant forall a :: 0 <= a < i ==> ants[a].Unstarted()
        invariant forall a, b :: 0 <= a < b < i ==> ants[a] != ants[b]
      {
        var ant := new Ant();
        ants := ants + [ant];
      }
    }

    /**
     * Evaporation of every entry by the factor (1 - evaporation), then, ant
     * by ant, the ant's trail laid along its closed tour (see `LayTrail`).
     */
    method UpdatePheromones(ants: seq<Ant>)
      requires Square(pheromones, numCities) && Depositable(ants)
      requires forall a :: 0 <= a < |ants| ==> OnCities(ants[a].tour, numCities)
      modifies this`pheromones
      ensures IsUpdate(old(pheromones), pheromones, ants, evaporation, Q)
      ensures Symmetric(old(pheromones)) ==> Symmetric(pheromones)
      ensures (evaporation < 1.0 && Q >= 0.0 && Positive(old(pheromones)) &&
               forall a :: 0 <= a < |ants| ==> ants[a].distance > 0.0) ==> Positive(pheromones)
    {
      ghost var P := pheromones;
      Evaporate();
      ghost var E := pheromones;
      for a := 0 to |ants|
        invariant Square(pheromones, numCities)
        invariant forall r, c :: 0 <= r < numCities && 0 <= c < numCities ==>
                    pheromones[r][c] == E[r][c] + Deposit(ants[..a], Q, r, c)
      {
        assert ants[a].distance != 0.0;
        LayTrail(ants[a]);
        assert ants[..a + 1][..a] == ants[..a];
      }
      assert ants[..|ants|] == ants;
      if Symmetric(P) {
        UpdateSymmetric(P, pheromones, ants, evaporation, Q);
      }
      if evaporation < 1.0 && Q >= 0.0 && Positive(P) && forall a :: 0 <= a < |ants| ==> ants[a].distance > 0.0 {
        UpdatePositive(P, pheromones, ants, evaporation, Q);
      }
    }

    /** The evaporation pass: every entry multiplied by (1 - evaporation), row by row. */
    method Evaporate()
      requires Square(pheromones, numCities)
      modifies this`pheromones
      ensures Square(pheromones, numCities)
      ensures forall r, c :: 0 <= r < numCities && 0 <= c < numCities ==>
                pheromones[r][c] == old(pheromones[r][c]) * (1.0 - evaporation)
    {
      ghost var P0 := pheromones;
      for i := 0 to numCities
        invariant Square(pheromones, numCities)
        invariant forall r, c :: 0 <= r < numCities && 0 <= c < numCities ==>
                    pheromones[r][c] == if r < i then P0[r][c] * (1.0 - evaporation) else P0[r][c]
      {
        for j := 0 to numCities
          invariant Square(pheromones, numCities)
          invariant forall r, c :: 0 <= r < numCities && 0 <= c < numCities ==>
                      pheromones[r][c] == if r < i || (r == i && c < j) then P0[r][c] * (1.0 - evaporation) else P0[r][c]
        {
          pheromones := Write(pheromones, i, j, pheromones[i][j] * (1.0 - evaporation));
        }
      }
    }

    /**
     * One ant's deposit: for each step s of its closed tour, Q / length added
     * to (from, to) and then to (to, from), where `to` follows `from` cyclically.
     */
    method LayTrail(ant: Ant)
      requires Square(pheromones, numCities) && OnCities(ant.tour, numCities) && ant.distance != 0.0
      modifies this`pheromones
      ensures Square(pheromones, numCities)
      ensures forall r, c :: 0 <= r < numCities && 0 <= c < numCities ==>
                pheromones[r][c] == old(pheromones[r][c]) + Laid(ant.tour, |ant.tour|, Q / ant.distance, r, c)
    {
      ghost var P0 := pheromones;
      var deposit := Q / ant.distance;
      for s := 0 to |ant.tour|
        invariant Square(pheromones, numCities)
        invariant forall r, c :: 0 <= r < numCities && 0 <= c < numCities ==>
                    pheromones[r][c] == P0[r][c] + Laid(ant.tour, s, deposit, r, c)
      {
        var from := ant.tour[s];
        var to := ant.tour[(s + 1) % |ant.tour|];
        pheromones := Write(pheromones, from, to, pheromones[from][to] + deposit);
        pheromones := Write(pheromones, to, from, pheromones[to][from] + deposit);
      }
    }
  }

  /** The n uniform draws of the stream `random` from position `from` on. */
  function Draws(random: int -> real, from: int, n: nat): (draws: seq<real>)
    requires forall k :: 0.0 <= random(k) < 1.0
    ensures |draws| == n && forall k :: 0 <= k < n ==> draws[k] == random(from + k) && 0.0 <= draws[k] < 1.0
  {
    seq(n, k => random(from + k))
  }

  /**
   * Reading n draws and then m more is reading n + m draws: consecutive
   * blocks of the stream join without overlap or gap.
   */
  lemma DrawsConcat(random: int -> real, from: int, n: nat, m: nat)
    requires forall k :: 0.0 <= random(k) < 1.0
    ensures Draws(random, from, n) + Draws(random, from + n, m) == Draws(random, from, n + m)
  {
    var joined := Draws(random, from, n) + Draws(random, from + n, m);
    forall k | 0 <= k < n + m
      ensures joined[k] == random(from + k)
    {
      if k >= n {
        assert joined[k] == Draws(random, from + n, m)[k - n];
      }
    }
  }

  /**
   * Ant a of an iteration with `ants` ants, each reading n draws from
   * position next + a * n, reads exactly the a-th block of n values of the
   * iteration's ants * n draws.
   */
  lemma DrawsBlock(random: int -> real, next: int, n: nat, ants: nat, a: nat)
    requires forall k :: 0.0 <= random(k) < 1.0
    requires a < ants
    ensures a * n + n <= ants * n
    ensures Draws(random, next + a * n, n) == Draws(random, next, ants * n)[a * n .. a * n + n]
  {
    assert a * n + n == (a + 1) * n <= ants * n;
  }

  /**
   * floor(u * n): the start city drawn from a uniform u in [0, 1). The
   * product is formed as n additions of u (see `StartCityIsFloor`).
   */
  function StartCity(u: real, n: nat): (c: nat)
    requires 0.0 <= u < 1.0 && n >= 1
    ensures c < n
  {
    RepeatIsProduct(n, u);
    assert u * n as real < n as real;
    Repeat(n, u).Floor
  }

  /** The start city is the integer part of u * n. */
  lemma StartCityIsFloor(u: real, n: nat)
    requires 0.0 <= u < 1.0 && n >= 1
    ensures StartCity(u, n) as real <= u * n as real < StartCity(u, n) as real + 1.0
  {
    RepeatIsProduct(n, u);
  }
}
