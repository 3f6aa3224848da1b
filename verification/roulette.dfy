/** Roulette-wheel selection over the candidate cities of one step. */
module Roulette {

  /** One slot of the wheel: an unvisited city and its unnormalised score. */
  datatype Candidate = Candidate(city: nat, weight: real)

  /** Total weight of the wheel, accumulated left to right as the scoring loop does. */
  function Sum(w: seq<Candidate>): real
  {
    if w == [] then 0.0 else Sum(w[..|w| - 1]) + w[|w| - 1].weight
  }

  lemma {:induction false} SumCons(w: seq<Candidate>)
    requires w != []
    ensures Sum(w) == w[0].weight + Sum(w[1..])
  {
    if |w| > 1 {
      SumCons(w[..|w| - 1]);
      assert w[..|w| - 1][1..] == w[1..][..|w| - 2];
    }
  }

  /** Every prefix sum of `w` splits off its first weight. */
  lemma PrefixSumsCons(w: seq<Candidate>)
    requires w != []
    ensures forall j :: 0 < j <= |w| ==> Sum(w[..j]) == w[0].weight + Sum(w[1..][..j - 1])
  {
    forall j | 0 < j <= |w|
      ensures Sum(w[..j]) == w[0].weight + Sum(w[1..][..j - 1])
    {
      SumCons(w[..j]);
      assert w[..j][1..] == w[1..][..j - 1];
    }
  }

  /**
   * The slot the roulette loop stops at for the draw r: the first k at which
   * the remainder r - (weights 0 .. k) is zero or below, or else the last slot
   * (the fallback for a draw the subtractions never exhaust). The remainder
   * after slot j is r - Sum(w[..j + 1]).
   */
  function Spin(w: seq<Candidate>, r: real): (k: nat)
    requires w != []
    ensures k < |w|
  {
    if r - w[0].weight <= 0.0 || |w| == 1 then 0
    else 1 + Spin(w[1..], r - w[0].weight)
  }

  /**
   * Spin obeys the stopping rule: every remainder before slot k is still
   * positive, and slot k brings it to zero or below unless k is the last slot.
   */
  lemma {:induction false} SpinStops(w: seq<Candidate>, r: real)
    requires w != []
    ensures forall j :: 0 < j <= Spin(w, r) ==> r - Sum(w[..j]) > 0.0
    ensures r - Sum(w[..Spin(w, r) + 1]) <= 0.0 || Spin(w, r) == |w| - 1
  {
    PrefixSumsCons(w);
    assert w[..1] == [w[0]];
    if !(r - w[0].weight <= 0.0 || |w| == 1) {
      SpinStops(w[1..], r - w[0].weight);
    }
  }

  /** Extending a prefix by one slot adds that slot's weight. */
  lemma PrefixStep(w: seq<Candidate>, i: nat)
    requires i < |w|
    ensures Sum(w[..i + 1]) == Sum(w[..i]) + w[i].weight
  {
    assert w[..i + 1][..i] == w[..i];
  }

  /** The stopping rule determines the slot: Spin is the only index that satisfies it. */
  lemma SpinUnique(w: seq<Candidate>, r: real, k: nat)
    requires k < |w|
    requires forall j :: 0 < j <= k ==> r - Sum(w[..j]) > 0.0
    requires r - Sum(w[..k + 1]) <= 0.0 || k == |w| - 1
    ensures Spin(w, r) == k
  {
    var s := Spin(w, r);
    SpinStops(w, r);
    var reached := Sum(w[..s + 1]);
    assert 0 < s + 1 <= k ==> r - reached > 0.0;
  }

  /** Where a uniform draw u in [0, 1) lands on a wheel of the given total. */
  function Draw(u: real, total: real): real
  {
    u * total
  }

  /** The city the wheel stops at for the uniform draw u. */
  function Select(w: seq<Candidate>, u: real): nat
    requires w != []
  {
    w[Spin(w, Draw(u, Sum(w)))].city
  }

  /**
   * Subtracting the weights in order from the draw's position on the wheel, the wheel
   * stops at the first candidate that brings the remainder to <= 0, or at
   * the last candidate when none does.
   */
  lemma SelectStops(w: seq<Candidate>, u: real, i: nat)
    requires i < |w|
    requires forall j :: 0 < j <= i ==> Draw(u, Sum(w)) - Sum(w[..j]) > 0.0
    requires Draw(u, Sum(w)) - Sum(w[..i + 1]) <= 0.0 || i == |w| - 1
    ensures Select(w, u) == w[i].city
  {
    SpinUnique(w, Draw(u, Sum(w)), i);
  }

  lemma {:induction false} PrefixMonotone(w: seq<Candidate>, j: nat, k: nat)
    requires forall i :: 0 <= i < |w| ==> w[i].weight >= 0.0
    requires j <= k <= |w|
    ensures Sum(w[..j]) <= Sum(w[..k])
  {
    if j < k {
      PrefixMonotone(w, j, k - 1);
      assert w[..k][..k - 1] == w[..k - 1];
    }
  }

  /**
   * With non-negative weights and a draw below the total, slot k is chosen
   * exactly when the draw falls in its interval (Sum(w[..k]), Sum(w[..k + 1])]
   * of width w[k].weight: selection is proportional to weight, and the
   * fallback is never what decides.
   */
  lemma SpinInterval(w: seq<Candidate>, r: real, k: nat)
    requires forall i :: 0 <= i < |w| ==> w[i].weight >= 0.0
    requires k < |w| && r < Sum(w)
    ensures Spin(w, r) == k <==> (k == 0 || Sum(w[..k]) < r) && r <= Sum(w[..k + 1])
  {
    var s := Spin(w, r);
    SpinStops(w, r);
    assert w[..|w|] == w;
    if s < k {
      PrefixMonotone(w, s + 1, k);
    }
  }

  /**
   * On a wheel of positive scores over distinct cities, a uniform draw u in
   * [0, 1) selects the k-th candidate exactly when u * total falls in the
   * k-th slice of the wheel.
   */
  lemma SelectProportional(w: seq<Candidate>, u: real, k: nat)
    requires forall i :: 0 <= i < |w| ==> w[i].weight > 0.0
    requires forall i, j :: 0 <= i < j < |w| ==> w[i].city != w[j].city
    requires 0.0 <= u < 1.0 && k < |w|
    ensures Select(w, u) == w[k].city <==>
              (k == 0 || Sum(w[..k]) < Draw(u, Sum(w))) && Draw(u, Sum(w)) <= Sum(w[..k + 1])
  {
    var S := Sum(w);
    PrefixMonotone(w, 1, |w|);
    assert w[..1] == [w[0]] && w[..|w|] == w;
    assert Sum([w[0]]) == w[0].weight;
    DrawBelow(u, S);
    SpinInterval(w, Draw(u, S), k);
    var s := Spin(w, Draw(u, S));
    assert s != k ==> w[s].city != w[k].city;
  }

  /** A draw below 1 lands strictly inside a wheel of positive total. */
  lemma DrawBelow(u: real, total: real)
    requires 0.0 <= u < 1.0 && total > 0.0
    ensures 0.0 <= Draw(u, total) < total
  {
    assert total - u * total == (1.0 - u) * total;
  }
}
