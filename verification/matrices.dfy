/**
 * The N×N tables the colony keeps (distances and pheromone levels), as rows
 * of reals, with their shape and sign predicates and the single-entry write
 * `m[i][j] = v`, and the repeated addition both pheromone deposits and
 * the start-city draw are built from.
 */
module Matrices {

  type Matrix = seq<seq<real>>

  /** `m` is an n×n table. */
  predicate Square(m: Matrix, n: nat)
  {
    |m| == n && forall i :: 0 <= i < n ==> |m[i]| == n
  }

  predicate Symmetric(m: Matrix)
  {
    Square(m, |m|) &&
    forall i, j :: 0 <= i < |m| && 0 <= j < |m| ==> m[i][j] == m[j][i]
  }

  predicate ZeroDiagonal(m: Matrix)
  {
    Square(m, |m|) &&
    forall i :: 0 <= i < |m| ==> m[i][i] == 0.0
  }

  /** Every entry is strictly positive (what the pheromone table must stay). */
  predicate Positive(m: Matrix)
  {
    Square(m, |m|) &&
    forall i, j :: 0 <= i < |m| && 0 <= j < |m| ==> m[i][j] > 0.0
  }

  /** Distinct cities are a strictly positive distance apart. */
  predicate PositiveOffDiagonal(m: Matrix)
  {
    Square(m, |m|) &&
    forall i, j :: 0 <= i < |m| && 0 <= j < |m| && i != j ==> m[i][j] > 0.0
  }

  /** An n×n table holding v everywhere (`Array(n).fill(null).map(() => Array(n).fill(v))`). */
  function Filled(n: nat, v: real): (m: Matrix)
    ensures Square(m, n)
    ensures forall i, j :: 0 <= i < n && 0 <= j < n ==> m[i][j] == v
  {
    seq(n, i => seq(n, j => v))
  }

  /** The table after the write `m[i][j] = v`: that entry changes and no other. */
  function Write(m: Matrix, i: nat, j: nat, v: real): (r: Matrix)
    requires Square(m, |m|) && i < |m| && j < |m|
    ensures Square(r, |m|)
    ensures forall a, b :: 0 <= a < |m| && 0 <= b < |m| ==>
              r[a][b] == if a == i && b == j then v else m[a][b]
  {
    m[i := m[i][j := v]]
  }

  /**
   * `amount` added to zero n times, one addition after another: the sum of
   * n pheromone writes of the same deposit, and the product u * n formed for
   * the start city.
   */
  function Repeat(n: nat, amount: real): real
  {
    if n == 0 then 0.0 else Repeat(n - 1, amount) + amount
  }

  lemma {:induction false} RepeatAdd(m: nat, n: nat, amount: real)
    ensures Repeat(m + n, amount) == Repeat(m, amount) + Repeat(n, amount)
  {
    if n > 0 {
      RepeatAdd(m, n - 1, amount);
    }
  }

  lemma {:induction false} RepeatIsProduct(n: nat, amount: real)
    ensures Repeat(n, amount) == amount * n as real
  {
    if n > 0 {
      RepeatIsProduct(n - 1, amount);
      assert amount * ((n - 1) as real + 1.0) == amount * (n - 1) as real + amount;
    }
  }
}
