/**
 * The pheromone model: the initial matrix, and what one update deposits on
 * each entry (evaporation is applied by the colony before these deposits).
 */
module Pheromones {
  import opened Matrices
  import opened Tours

  /** Level every ordered pair starts at. */
  const InitialPheromone: real := 1.0

  /** The starting table: every ordered pair of the n cities at the initial level. */
  function InitializePheromones(n: nat): (p: Matrix)
    ensures Square(p, n)
    ensures forall i, j :: 0 <= i < n && 0 <= j < n ==> p[i][j] == InitialPheromone
    ensures Symmetric(p) && Positive(p)
  {
    Filled(n, InitialPheromone)
  }

  /** The edge walked at step s joins i and j, in either direction. */
  predicate EdgeAt(t: seq<nat>, s: nat, i: nat, j: nat)
    requires s < |t|
  {
    (t[s] == i && Next(t, s) == j) || (t[s] == j && Next(t, s) == i)
  }

  /** (i, j) is an edge of the closed tour t, in either direction. */
  predicate OnTour(t: seq<nat>, i: nat, j: nat)
  {
    exists s :: 0 <= s < |t| && EdgeAt(t, s, i, j)
  }

  /**
   * How many of the two writes of step s land on entry (i, j): one for
   * (from, to), one for (to, from); a step from a city to itself writes the
   * same entry twice.
   */
  function StepHits(t: seq<nat>, s: nat, i: nat, j: nat): nat
    requires s < |t|
  {
    (if t[s] == i && Next(t, s) == j then 1 else 0) + (if Next(t, s) == i && t[s] == j then 1 else 0)
  }

  /** Writes landing on (i, j) during the first k steps of tour t. */
  function Hits(t: seq<nat>, k: nat, i: nat, j: nat): nat
    requires k <= |t|
  {
    if k == 0 then 0 else Hits(t, k - 1, i, j) + StepHits(t, k - 1, i, j)
  }

  /** Pheromone added to (i, j) by the first k steps of an ant depositing `amount` per write. */
  function Laid(t: seq<nat>, k: nat, amount: real, i: nat, j: nat): real
    requires k <= |t|
  {
    if k == 0 then 0.0
    else
      Laid(t, k - 1, amount, i, j) + StepLaid(t, k - 1, amount, i, j)
  }

  /** Deposits are defined: no ant has a zero-length tour. */
  ghost predicate Depositable(ants: seq<Ant>)
    reads ants
  {
    forall a :: 0 <= a < |ants| ==> ants[a].distance != 0.0
  }

  /** Total pheromone the ants lay on (i, j): each ant lays Q / its length per write. */
  ghost function Deposit(ants: seq<Ant>, q: real, i: nat, j: nat): real
    reads ants
    requires Depositable(ants)
  {
    if ants == [] then 0.0
    else
      var last := ants[|ants| - 1];
      Deposit(ants[..|ants| - 1], q, i, j) + Laid(last.tour, |last.tour|, q / last.distance, i, j)
  }

  /** Pheromone one step lays on (i, j). */
  function StepLaid(t: seq<nat>, s: nat, amount: real, i: nat, j: nat): real
    requires s < |t|
  {
    (if t[s] == i && Next(t, s) == j then amount else 0.0)
    + (if Next(t, s) == i && t[s] == j then amount else 0.0)
  }

  lemma StepLaidCounts(t: seq<nat>, s: nat, amount: real, i: nat, j: nat)
    requires s < |t|
    ensures StepLaid(t, s, amount, i, j) == Repeat(StepHits(t, s, i, j), amount)
  {
    assert Repeat(1, amount) == amount;
    assert Repeat(2, amount) == amount + amount;
  }

  lemma {:induction false} LaidRepeats(t: seq<nat>, k: nat, amount: real, i: nat, j: nat)
    requires k <= |t|
    ensures Laid(t, k, amount, i, j) == Repeat(Hits(t, k, i, j), amount)
  {
    if k > 0 {
      LaidRepeats(t, k - 1, amount, i, j);
      StepLaidCounts(t, k - 1, amount, i, j);
      RepeatAdd(Hits(t, k - 1, i, j), StepHits(t, k - 1, i, j), amount);
    }
  }

  /**
   * What an ant lays on an entry is its per-write amount times the number of
   * times the entry is written.
   */
  lemma LaidCounts(t: seq<nat>, k: nat, amount: real, i: nat, j: nat)
    requires k <= |t|
    ensures Laid(t, k, amount, i, j) == amount * Hits(t, k, i, j) as real
  {
    LaidRepeats(t, k, amount, i, j);
    RepeatIsProduct(Hits(t, k, i, j), amount);
  }

  lemma {:induction false} HitsSymmetric(t: seq<nat>, k: nat, i: nat, j: nat)
    requires k <= |t|
    ensures Hits(t, k, i, j) == Hits(t, k, j, i)
  {
    if k > 0 {
      HitsSymmetric(t, k - 1, i, j);
    }
  }

  /** An entry receives writes from a tour exactly when it lies on one of the tour's edges. */
  lemma {:induction false} HitsIffEdge(t: seq<nat>, k: nat, i: nat, j: nat)
    requires k <= |t|
    ensures Hits(t, k, i, j) > 0 <==> exists s :: 0 <= s < k && EdgeAt(t, s, i, j)
  {
    if k > 0 {
      HitsIffEdge(t, k - 1, i, j);
      if EdgeAt(t, k - 1, i, j) {
        assert StepHits(t, k - 1, i, j) > 0;
      }
    }
  }

  lemma {:induction false} DepositSymmetric(ants: seq<Ant>, q: real, i: nat, j: nat)
    requires Depositable(ants)
    ensures Deposit(ants, q, i, j) == Deposit(ants, q, j, i)
  {
    if ants != [] {
      var last := ants[|ants| - 1];
      DepositSymmetric(ants[..|ants| - 1], q, i, j);
      LaidCounts(last.tour, |last.tour|, q / last.distance, i, j);
      LaidCounts(last.tour, |last.tour|, q / last.distance, j, i);
      HitsSymmetric(last.tour, |last.tour|, i, j);
    }
  }

  /** With Q >= 0 and positive tour lengths no entry loses pheromone to a deposit. */
  lemma {:induction false} DepositNonNegative(ants: seq<Ant>, q: real, i: nat, j: nat)
    requires forall a :: 0 <= a < |ants| ==> ants[a].distance > 0.0
    requires q >= 0.0
    ensures Deposit(ants, q, i, j) >= 0.0
  {
    if ants != [] {
      var last := ants[|ants| - 1];
      DepositNonNegative(ants[..|ants| - 1], q, i, j);
      LaidCounts(last.tour, |last.tour|, q / last.distance, i, j);
      assert q / last.distance >= 0.0;
    }
  }

  /** An entry on none of the ants' closed tours receives nothing: it only evaporates. */
  lemma {:induction false} OffTourNoDeposit(ants: seq<Ant>, q: real, i: nat, j: nat)
    requires Depositable(ants)
    requires forall a :: 0 <= a < |ants| ==> !OnTour(ants[a].tour, i, j)
    ensures Deposit(ants, q, i, j) == 0.0
  {
    if ants != [] {
      var last := ants[|ants| - 1];
      OffTourNoDeposit(ants[..|ants| - 1], q, i, j);
      LaidCounts(last.tour, |last.tour|, q / last.distance, i, j);
      HitsIffEdge(last.tour, |last.tour|, i, j);
    }
  }

  /** With Q > 0 and positive lengths, an entry on some ant's tour gains pheromone. */
  lemma {:induction false} OnTourDeposit(ants: seq<Ant>, q: real, i: nat, j: nat, a: nat)
    requires forall b :: 0 <= b < |ants| ==> ants[b].distance > 0.0
    requires q > 0.0 && a < |ants| && OnTour(ants[a].tour, i, j)
    ensures Deposit(ants, q, i, j) > 0.0
  {
    var last := ants[|ants| - 1];
    LaidCounts(last.tour, |last.tour|, q / last.distance, i, j);
    assert q / last.distance > 0.0;
    if a == |ants| - 1 {
      HitsIffEdge(last.tour, |last.tour|, i, j);
      DepositNonNegative(ants[..|ants| - 1], q, i, j);
    } else {
      OnTourDeposit(ants[..|ants| - 1], q, i, j, a);
    }
  }

  /**
   * P' is P after one update: every entry evaporated by the factor (1 - e),
   * then increased by what the ants deposit on it.
   */
  ghost predicate IsUpdate(P: Matrix, P': Matrix, ants: seq<Ant>, e: real, q: real)
    reads ants
    requires Depositable(ants)
  {
    Square(P, |P|) && Square(P', |P|) &&
    forall i, j :: 0 <= i < |P| && 0 <= j < |P| ==> P'[i][j] == P[i][j] * (1.0 - e) + Deposit(ants, q, i, j)
  }

  /** An update keeps a symmetric table symmetric: (i, j) and (j, i) receive the same deposits. */
  lemma UpdateSymmetric(P: Matrix, P': Matrix, ants: seq<Ant>, e: real, q: real)
    requires Depositable(ants) && IsUpdate(P, P', ants, e, q) && Symmetric(P)
    ensures Symmetric(P')
  {
    forall i, j | 0 <= i < |P| && 0 <= j < |P|
      ensures P'[i][j] == P'[j][i]
    {
      DepositSymmetric(ants, q, i, j);
    }
  }

  /**
   * With an evaporation rate below 1, Q >= 0 and positive tour lengths, a
   * positive table stays positive.
   */
  lemma UpdatePositive(P: Matrix, P': Matrix, ants: seq<Ant>, e: real, q: real)
    requires forall a :: 0 <= a < |ants| ==> ants[a].distance > 0.0
    requires IsUpdate(P, P', ants, e, q) && Positive(P) && e < 1.0 && q >= 0.0
    ensures Positive(P')
  {
    forall i, j | 0 <= i < |P| && 0 <= j < |P|
      ensures P'[i][j] > 0.0
    {
      DepositNonNegative(ants, q, i, j);
      assert P[i][j] * (1.0 - e) > 0.0;
    }
  }

  /** An entry on none of the ants' tours only evaporates. */
  lemma UpdateOffTour(P: Matrix, P': Matrix, ants: seq<Ant>, e: real, q: real, i: nat, j: nat)
    requires Depositable(ants) && IsUpdate(P, P', ants, e, q) && i < |P| && j < |P|
    requires forall a :: 0 <= a < |ants| ==> !OnTour(ants[a].tour, i, j)
    ensures P'[i][j] == P[i][j] * (1.0 - e)
  {
    OffTourNoDeposit(ants, q, i, j);
  }

  /** With Q > 0 and positive lengths, an entry on some ant's tour ends above its evaporated level. */
  lemma UpdateOnTour(P: Matrix, P': Matrix, ants: seq<Ant>, e: real, q: real, i: nat, j: nat, a: nat)
    requires forall b :: 0 <= b < |ants| ==> ants[b].distance > 0.0
    requires IsUpdate(P, P', ants, e, q) && i < |P| && j < |P|
    requires q > 0.0 && a < |ants| && OnTour(ants[a].tour, i, j)
    ensures P'[i][j] > P[i][j] * (1.0 - e)
  {
    OnTourDeposit(ants, q, i, j, a);
  }
}
