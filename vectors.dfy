/** Two-dimensional vectors of the simulation (the `Vec2` class of main.cpp).
    `double` components are modelled as `real`: IEEE rounding is not modelled. */
module Vectors {

  datatype Vec2 = Vec2(x: real, y: real)

  /** `Vec2::Zero`: both components become 0. */
  function Zero(): (r: Vec2)
    ensures r.x == 0.0 && r.y == 0.0
  {
    Vec2(0.0, 0.0)
  }

  /** Component-wise sum (the `+=` on both components in main.cpp). */
  function Add(a: Vec2, b: Vec2): Vec2
  {
    Vec2(a.x + b.x, a.y + b.y)
  }

  /** Adding three vectors one by one adds their sum. */
  lemma AddGrouped(a: Vec2, b: Vec2, c: Vec2, d: Vec2)
    ensures Add(Add(Add(a, b), c), d) == Add(a, Add(Add(b, c), d))
  {
  }

  /** Component-wise difference. */
  function Sub(a: Vec2, b: Vec2): Vec2
  {
    Vec2(a.x - b.x, a.y - b.y)
  }

  /** Squared Euclidean length: what `Normalise` takes the square root of. */
  function SquaredLength(v: Vec2): (r: real)
    ensures r >= 0.0
  {
    v.x * v.x + v.y * v.y
  }

  /** `Vec2::Scale`: both components multiplied by `s`. */
  function Scale(v: Vec2, s: real): Vec2
  {
    Vec2(v.x * s, v.y * s)
  }

  /** `Vec2::Normalise`: both components divided by the magnitude, which the
      source obtains as `sqrt(x*x + y*y)` and which the caller passes in here.
      A zero magnitude is a division by zero in the source. */
  function Normalise(v: Vec2, magnitude: real): Vec2
    requires magnitude != 0.0
  {
    Vec2(v.x / magnitude, v.y / magnitude)
  }

  /** Scaling by `s` multiplies the squared length by `s * s`. */
  lemma ScaleSquaredLength(v: Vec2, s: real)
    ensures SquaredLength(Scale(v, s)) == s * s * SquaredLength(v)
  {
    assert (v.x * s) * (v.x * s) == s * s * (v.x * v.x);
    assert (v.y * s) * (v.y * s) == s * s * (v.y * v.y);
  }

  /** Normalising by a non-zero magnitude and scaling back by it returns
      the vector: normalising loses nothing but the length. */
  lemma NormaliseScalesBack(v: Vec2, magnitude: real)
    requires magnitude != 0.0
    ensures Scale(Normalise(v, magnitude), magnitude) == v
  {
    assert v.x / magnitude * magnitude == v.x;
    assert v.y / magnitude * magnitude == v.y;
  }

  /** Normalising by `magnitude` and scaling by `s` is scaling by
      `s / magnitude`. */
  lemma NormaliseThenScale(v: Vec2, magnitude: real, s: real)
    requires magnitude != 0.0
    ensures Scale(Normalise(v, magnitude), s) == Scale(v, s / magnitude)
  {
    DivideThenMultiply(v.x, magnitude, s);
    DivideThenMultiply(v.y, magnitude, s);
  }

  /** Scaling a vector of length `magnitude` by `s / magnitude` gives a
      vector of length `|s|`. */
  lemma ScaledToLength(v: Vec2, magnitude: real, s: real)
    requires magnitude > 0.0 && SquaredLength(v) == magnitude * magnitude
    ensures SquaredLength(Scale(v, s / magnitude)) == s * s
  {
    ScaleSquaredLength(v, s / magnitude);
    QuotientSquared(s, magnitude);
  }

  /** `a / m * s == a * (s / m)` for a non-zero `m`. */
  lemma DivideThenMultiply(a: real, m: real, s: real)
    requires m != 0.0
    ensures a / m * s == a * (s / m)
  {
    assert a / m * s * m == a * s;
  }

  /** `(s / m)² · m² == s²` for a non-zero `m`. */
  lemma QuotientSquared(s: real, m: real)
    requires m != 0.0
    ensures (s / m) * (s / m) * (m * m) == s * s
  {
    var t := s / m;
    assert t * m == s;
    assert t * t * (m * m) == (t * m) * (t * m);
  }
}
