// Numeric conversions of Go that the wave programs rely on, stated over
// Dafny's unbounded `int` and exact `real`.
module GoNumerics {

  /** Go's `int(f)` for a float64 `f`: truncation toward zero (not floor). */
  function Trunc(r: real): (n: int)
    ensures 0.0 <= r ==> 0 <= n && n as real <= r < n as real + 1.0
    ensures r < 0.0 ==> n <= 0 && n as real - 1.0 < r <= n as real
  {
    if r >= 0.0 then r.Floor else -((-r).Floor)
  }

  /** A distance test written with `math.Sqrt` (`d < bound`, `d <= bound`,
      where `d` is the square root of `s`) agrees with the same test on the
      squared distance. This is why the model compares squared distances. */
  lemma RootCompare(s: real, d: real, bound: real)
    requires 0.0 <= d && d * d == s && 0.0 < bound
    ensures d < bound <==> s < bound * bound
    ensures d <= bound <==> s <= bound * bound
  {
    if d < bound {
      calc {
        s;
      == d * d;
      <= d * bound;
      < bound * bound;
      }
    } else if d == bound {
      assert s == bound * bound;
    } else {
      assert bound * bound < bound * d;
      assert bound * d < d * d;
      assert s > bound * bound;
    }
  }
}
