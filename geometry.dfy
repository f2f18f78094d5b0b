/** main.cpp's vertex record `GLvec3` and its two operators. Coordinates are
    exact reals where the program uses 32-bit floats. */
module Geometry {

  datatype GLvec3 = GLvec3(x: real, y: real, z: real)

  function Abs(a: real): (r: real)
    ensures r >= 0.0 && (r == a || r == -a)
  {
    if a < 0.0 then -a else a
  }

  /** `std::max(a, b)`: b when a < b, otherwise a. */
  function Max(a: real, b: real): (r: real)
    ensures r >= a && r >= b && (r == a || r == b)
  {
    if a < b then b else a
  }

  /** The Chebyshev magnitude max(max(|x|, |y|), |z|) that operator< compares. */
  function Magnitude(v: GLvec3): (m: real)
    ensures Abs(v.x) <= m && Abs(v.y) <= m && Abs(v.z) <= m
    ensures m == Abs(v.x) || m == Abs(v.y) || m == Abs(v.z)
  {
    Max(Max(Abs(v.x), Abs(v.y)), Abs(v.z))
  }

  /** `operator/`: every coordinate divided by the same d; scaling the result
      back by d gives v again. */
  function Div(v: GLvec3, d: real): (r: GLvec3)
    requires d != 0.0
    ensures r.x * d == v.x && r.y * d == v.y && r.z * d == v.z
  {
    GLvec3(v.x / d, v.y / d, v.z / d)
  }

  /** `operator<`: the difference of the two magnitudes is negative, that is,
      u is strictly smaller than v in Chebyshev magnitude. */
  function Less(u: GLvec3, v: GLvec3): (b: bool)
    ensures b <==> Magnitude(u) < Magnitude(v)
  {
    Magnitude(u) - Magnitude(v) < 0.0
  }

  /** Dividing by a positive d divides every absolute value by d. */
  lemma AbsDiv(a: real, d: real)
    requires d > 0.0
    ensures Abs(a / d) == Abs(a) / d
  {
    if a < 0.0 {
      assert a / d < 0.0;
      assert -(a / d) == (-a) / d;
    } else {
      assert a / d >= 0.0;
    }
  }

  /** Dividing by a positive d divides the magnitude by d. */
  lemma MagnitudeOfDiv(v: GLvec3, d: real)
    requires d > 0.0
    ensures Magnitude(Div(v, d)) == Magnitude(v) / d
  {
    AbsDiv(v.x, d);
    AbsDiv(v.y, d);
    AbsDiv(v.z, d);
    var ax, ay, az := Abs(v.x), Abs(v.y), Abs(v.z);
    DivMonotone(ax, ay, d);
    DivMonotone(ay, ax, d);
    DivMonotone(ax, az, d);
    DivMonotone(az, ax, d);
    DivMonotone(ay, az, d);
    DivMonotone(az, ay, d);
    DivMonotone(Max(ax, ay), az, d);
    DivMonotone(az, Max(ax, ay), d);
  }

  /** Division by a positive number keeps the order strictly. */
  lemma DivMonotone(a: real, b: real, d: real)
    requires d > 0.0
    ensures a < b <==> a / d < b / d
  {
    if a < b {
      assert b / d - a / d == (b - a) / d;
    } else {
      assert a / d - b / d == (a - b) / d;
    }
  }

  /** Dividing by d >= 1 never makes a coordinate larger in absolute value. */
  lemma AbsDivShrinks(a: real, d: real)
    requires d >= 1.0
    ensures Abs(a / d) <= Abs(a)
  {
    AbsDiv(a, d);
    assert Abs(a) / d <= Abs(a) by {
      assert Abs(a) == (Abs(a) / d) * d;
      assert (Abs(a) / d) * d - Abs(a) / d == (Abs(a) / d) * (d - 1.0);
    }
  }

  lemma DivSelf(m: real)
    requires m > 0.0
    ensures m / m == 1.0
  {
    assert (m / m) * m == m;
    assert (m / m - 1.0) * m == 0.0;
  }
}
