/** The distance model: the pairwise distance matrix of the cities. */
module Distances {
  import opened Matrices

  /** A point of the plane. */
  datatype City = City(x: real, y: real)

  /** Squared Euclidean distance, computed exactly; the square root is left to the caller. */
  function SqDist(a: City, b: City): real
  {
    var dx := a.x - b.x;
    var dy := a.y - b.y;
    dx * dx + dy * dy
  }

  lemma SqDistSymmetric(a: City, b: City)
    ensures SqDist(a, b) == SqDist(b, a)
  {
    var dx, dy := a.x - b.x, a.y - b.y;
    assert (b.x - a.x) * (b.x - a.x) == dx * dx by {
      assert b.x - a.x == -dx;
    }
    assert (b.y - a.y) * (b.y - a.y) == dy * dy by {
      assert b.y - a.y == -dy;
    }
  }

  /** What the fill loop stores at (r, c): the lower index always comes first. */
  function Entry(cities: seq<City>, sqrt: real -> real, r: nat, c: nat): real
    requires r < |cities| && c < |cities|
  {
    if r < c then sqrt(SqDist(cities[r], cities[c]))
    else if c < r then sqrt(SqDist(cities[c], cities[r]))
    else 0.0
  }

  /**
   * Fills an N×N matrix, zero to begin with, by visiting each unordered pair
   * i < j once and writing the distance at (i, j) and (j, i). `sqrt` stands
   * in for the platform's square root.
   */
  method CalculateDistances(cities: seq<City>, sqrt: real -> real) returns (d: Matrix)
    ensures Square(d, |cities|)
    ensures Symmetric(d) && ZeroDiagonal(d)
    ensures forall i, j :: 0 <= i < |cities| && 0 <= j < |cities| && i != j ==>
              d[i][j] == sqrt(SqDist(cities[i], cities[j]))
  {
    var n := |cities|;
    d := Filled(n, 0.0);
    for i := 0 to n
      invariant Square(d, n)
      invariant forall r, c :: 0 <= r < n && 0 <= c < n ==>
                  d[r][c] == if r < i || c < i then Entry(cities, sqrt, r, c) else 0.0
    {
      for j := i + 1 to n
        invariant Square(d, n)
        invariant forall r, c :: 0 <= r < n && 0 <= c < n ==>
                    d[r][c] == if r < i || c < i || (r == i && c < j) || (c == i && r < j)
                               then Entry(cities, sqrt, r, c) else 0.0
      {
        var dx := cities[i].x - cities[j].x;
        var dy := cities[i].y - cities[j].y;
        var distance := sqrt(dx * dx + dy * dy);
        assert dx * dx + dy * dy == SqDist(cities[i], cities[j]);
        assert distance == Entry(cities, sqrt, i, j) == Entry(cities, sqrt, j, i);
        d := Write(d, i, j, distance);
        d := Write(d, j, i, distance);
      }
    }
    forall i, j | 0 <= i < n && 0 <= j < n && i != j
      ensures d[i][j] == sqrt(SqDist(cities[i], cities[j]))
    {
      SqDistSymmetric(cities[i], cities[j]);
    }
  }
}
