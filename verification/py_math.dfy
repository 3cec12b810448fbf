/**
  The parts of Python and numpy arithmetic that the reader relies on:
  the floor-based float remainder `%`, the azimuth wrap built on it,
  `deg2rad`, and a record standing for numpy's trigonometric functions,
  whose numerical values are not modelled.
*/
module PyMath {
  import opened Sequences

  /** numpy's `pi`: the double nearest to the circle constant. */
  const PI: real := 3.141592653589793

  /** numpy's `sin`, `cos`, `arctan2` and `sqrt`, taken as given. */
  datatype Numpy = Numpy(
    sin: real -> real,
    cos: real -> real,
    arctan2: (real, real) -> real,
    sqrt: real -> real)

  function Square(x: real): real { x * x }

  function Abs(x: real): (r: real)
    ensures r >= 0.0
    ensures r == x || r == -x
  {
    if x < 0.0 then -x else x
  }

  /** numpy `deg2rad`. */
  function Deg2Rad(degrees: real): (r: real)
    ensures r == 0.0 <==> degrees == 0.0
    ensures r < 0.0 <==> degrees < 0.0
    ensures degrees == 180.0 ==> r == PI
  {
    degrees * PI / 180.0
  }

  /** numpy `deg2rad` applied element-wise. */
  function Radians(degrees: seq<real>): (r: seq<real>)
    ensures |r| == |degrees|
    ensures forall i {:trigger r[i]} :: 0 <= i < |r| ==> r[i] == Deg2Rad(degrees[i])
  {
    seq(|degrees|, i requires 0 <= i < |degrees| => Deg2Rad(degrees[i]))
  }

  /** `k` whole periods of length `m`. */
  function Turns(k: int, m: real): real { k as real * m }

  /** `x` and `y` differ by a whole number of periods of length `m`. */
  ghost predicate Congruent(x: real, y: real, m: real) {
    exists k: int :: x - y == Turns(k, m)
  }

  lemma ScaleStrict(a: real, b: real, m: real)
    requires a < b && m > 0.0
    ensures a * m < b * m
  {
    assert (b - a) * m > 0.0;
  }

  lemma FloorScaled(x: real, m: real)
    requires m > 0.0
    ensures Turns((x / m).Floor, m) <= x < Turns((x / m).Floor, m) + m
  {
    var y := x / m;
    var z := y.Floor as real;
    assert y * m == x;
    assert (y - z) * m >= 0.0;
    ScaleStrict(y, z + 1.0, m);
    calc {
      x;
      == y * m;
      < (z + 1.0) * m;
      == z * m + m;
      == Turns(y.Floor, m) + m;
    }
  }

  /**
    Python's float remainder `x % m` for a positive modulus: it floors the
    quotient, so the result is never negative, unlike C's `fmod`.
  */
  function Mod(x: real, m: real): (r: real)
    requires m > 0.0
    ensures 0.0 <= r < m
    ensures Congruent(r, x, m)
  {
    var q := (x / m).Floor;
    FloorScaled(x, m);
    assert (x - Turns(q, m)) - x == Turns(-q, m);
    x - Turns(q, m)
  }

  /** The azimuth-difference normalisation `(d + pi) % (2 * pi) - pi`. */
  function Wrap(d: real): (r: real)
    ensures -PI <= r < PI
    ensures Congruent(r, d, 2.0 * PI)
  {
    var m := Mod(d + PI, 2.0 * PI);
    var k :| m - (d + PI) == Turns(k, 2.0 * PI);
    assert (m - PI) - d == Turns(k, 2.0 * PI);
    m - PI
  }

  lemma TurnsDifference(j: int, k: int, m: real)
    ensures Turns(j, m) - Turns(k, m) == Turns(j - k, m)
  {
  }

  lemma TurnsSum(j: int, k: int, m: real)
    ensures Turns(j, m) + Turns(k, m) == Turns(j + k, m)
  {
  }

  /** Element-wise congruent sequences have congruent sums. */
  lemma {:induction false} SumsCongruent(a: seq<real>, b: seq<real>, m: real)
    requires |a| == |b|
    requires forall i :: 0 <= i < |a| ==> Congruent(a[i], b[i], m)
    ensures Congruent(Sum(a), Sum(b), m)
  {
    if a == [] {
      assert Sum(a) - Sum(b) == Turns(0, m);
    } else {
      var n := |a| - 1;
      SumsCongruent(a[..n], b[..n], m);
      var j :| Sum(a[..n]) - Sum(b[..n]) == Turns(j, m);
      var k :| a[n] - b[n] == Turns(k, m);
      TurnsSum(j, k, m);
      assert Sum(a) - Sum(b) == Turns(j + k, m);
    }
  }

  /** A whole number of periods strictly inside one period either way is none. */
  lemma TurnsWithinOnePeriod(n: int, m: real)
    requires m > 0.0
    requires -m < Turns(n, m) < m
    ensures n == 0
  {
    assert (n as real - 1.0) * m < 0.0;
    assert (n as real + 1.0) * m > 0.0;
  }

  /**
    Every value in [-pi, pi) that differs from `d` by whole turns is the
    wrapped value: the wrap picks the unique representative.
  */
  lemma {:induction false} WrapUnique(d: real, x: real, k: int)
    requires -PI <= x < PI
    requires x - d == Turns(k, 2.0 * PI)
    ensures Wrap(d) == x
  {
    var w := Wrap(d);
    var j :| w - d == Turns(j, 2.0 * PI);
    TurnsDifference(j, k, 2.0 * PI);
    TurnsWithinOnePeriod(j - k, 2.0 * PI);
  }

  /** Deltas already in [-pi, pi) are left alone. */
  lemma WrapPrincipal(d: real)
    requires -PI <= d < PI
    ensures Wrap(d) == d
  {
    WrapUnique(d, d, 0);
  }

  /** Adding whole turns to a delta does not change its wrapped value. */
  lemma WrapPeriodic(d: real, k: int)
    ensures Wrap(d + Turns(k, 2.0 * PI)) == Wrap(d)
  {
    var w := Wrap(d);
    var j :| w - d == Turns(j, 2.0 * PI);
    TurnsDifference(j, k, 2.0 * PI);
    WrapUnique(d + Turns(k, 2.0 * PI), w, j - k);
  }

  /**
    Wrapping commutes with negation except at the one value the half-open
    interval keeps, -pi, whose negation pi is not in range.
  */
  lemma WrapNegate(d: real)
    requires Wrap(d) != -PI
    ensures Wrap(-d) == -Wrap(d)
  {
    var w := Wrap(d);
    var j :| w - d == Turns(j, 2.0 * PI);
    assert -w - -d == Turns(-j, 2.0 * PI);
    WrapUnique(-d, -w, -j);
  }

  /** The exception: a delta that wraps to -pi wraps to -pi when negated too. */
  lemma WrapNegateAtHalfTurn(d: real)
    requires Wrap(d) == -PI
    ensures Wrap(-d) == -PI
  {
    var j :| -PI - d == Turns(j, 2.0 * PI);
    assert -PI - -d == Turns(-j - 1, 2.0 * PI);
    WrapUnique(-d, -PI, -j - 1);
  }
}
