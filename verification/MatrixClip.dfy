/** frustum and ortho: the clip volume is exactly the image of the view volume. */
module MatrixClip {
  import opened MatrixValues
  import opened MatrixInverse

  function Frustum(l: real, r: real, b: real, t: real, n: real, f: real): Mat
    requires r != l && t != b && f != n
  {
    Rows((2.0 * n) / (r - l), 0.0, (r + l) / (r - l), 0.0, 0.0, (2.0 * n) / (t - b),
         (t + b) / (t - b), 0.0, 0.0, 0.0, -(f + n) / (f - n),
         -(2.0 * f * n) / (f - n), 0.0, 0.0, -1.0, 0.0)
  }

  function Ortho(l: real, r: real, b: real, t: real, n: real, f: real): Mat
    requires r != l && t != b && f != n
  {
    Rows(2.0 / (r - l), 0.0, 0.0, -(r + l) / (r - l), 0.0, 2.0 / (t - b), 0.0,
         -(t + b) / (t - b), 0.0, 0.0, -2.0 / (f - n), -(f + n) / (f - n), 0.0, 0.0,
         0.0, 1.0)
  }

  // Inside the clip volume of homogeneous coordinates.
  predicate InClip(v: Vec4) {
    -v.w <= v.x <= v.w && -v.w <= v.y <= v.w && -v.w <= v.z <= v.w
  }

  // The point (x, y, z) lies between the near and far planes, and its projection from the origin
  // lies in [l, r] x [b, t] on the near plane.
  predicate InFrustum(l: real, r: real, b: real, t: real, n: real, f: real, x: real, y: real, z: real)
    requires n > 0.0
  {
    && n <= -z <= f
    && l <= x * n / -z <= r
    && b <= y * n / -z <= t
  }

  predicate InBox(l: real, r: real, b: real, t: real, n: real, f: real, x: real, y: real, z: real) {
    l <= x <= r && b <= y <= t && n <= -z <= f
  }

  lemma Quotient(a: real, d: real, q: real)
    requires d != 0.0 && q == a / d
    ensures q * d == a
  {}

  // Comparisons scaled by a positive number.
  lemma ScaledClip(u: real, z: real, d: real)
    requires d > 0.0
    ensures z <= u <= -z <==> z * d <= u * d <= -(z * d)
  {}

  lemma ScaledUnitClip(u: real, d: real)
    requires d > 0.0
    ensures -1.0 <= u <= 1.0 <==> -d <= u * d <= d
  {}

  // One side of frustum, where w is -z.
  lemma FrustumSide(l: real, r: real, n: real, x: real, z: real, p: real, q: real, u: real)
    requires l < r && p == 2.0 * n / (r - l) && q == (r + l) / (r - l) && u == p * x + q * z
    ensures z <= u <= -z <==> l * -z <= x * n <= r * -z
  {
    var d := r - l;
    Quotient(2.0 * n, d, p); Quotient(r + l, d, q);
    assert u * d == 2.0 * n * x + (r + l) * z by {
      assert p * x * d == p * d * x;
      assert q * z * d == q * d * z;
      Times(x, p * d, 2.0 * n); Times(z, q * d, r + l);
    }
    assert z * d == r * z - l * z;
    ScaledClip(u, z, d);
  }

  // The two depth tests, multiplied out by f - n.
  lemma NearTest(n: real, f: real, z: real, d: real, u: real)
    requires u * d == -(f + n) * z - 2.0 * f * n && z * d == f * z - n * z
    ensures z * d <= u * d <==> f * z <= -(f * n)
  {}

  lemma FarTest(n: real, f: real, z: real, d: real, u: real)
    requires u * d == -(f + n) * z - 2.0 * f * n && z * d == f * z - n * z
    ensures u * d <= -(z * d) <==> -(f * n) <= n * z
  {}

  lemma NearPlane(n: real, f: real, z: real)
    requires f > 0.0
    ensures f * z <= -(f * n) <==> n <= -z
  {
    assert f * z <= -(f * n) <==> f * (z + n) <= 0.0;
  }

  lemma FarPlane(n: real, f: real, z: real)
    requires n > 0.0
    ensures -(f * n) <= n * z <==> -z <= f
  {
    assert -(f * n) <= n * z <==> 0.0 <= n * (z + f);
  }

  lemma FrustumDepth(n: real, f: real, z: real, p: real, q: real, u: real)
    requires 0.0 < n < f && p == -(f + n) / (f - n) && q == -(2.0 * f * n) / (f - n) && u == p * z + q
    ensures z <= u <= -z <==> n <= -z <= f
  {
    var d := f - n;
    Quotient(-(f + n), d, p); Quotient(-(2.0 * f * n), d, q);
    assert u * d == -(f + n) * z - 2.0 * f * n by {
      assert p * z * d == p * d * z;
      Times(z, p * d, -(f + n));
    }
    assert z * d == f * z - n * z;
    DepthTest(n, f, z, d, u);
  }

  lemma DepthTest(n: real, f: real, z: real, d: real, u: real)
    requires 0.0 < n && 0.0 < f && d > 0.0
    requires u * d == -(f + n) * z - 2.0 * f * n && z * d == f * z - n * z
    ensures z <= u <= -z <==> n <= -z <= f
  {
    ScaledClip(u, z, d);
    NearTest(n, f, z, d, u); FarTest(n, f, z, d, u);
    NearPlane(n, f, z); FarPlane(n, f, z);
  }

  // One side of ortho, where w is one.
  lemma OrthoSide(l: real, r: real, x: real, p: real, q: real, u: real)
    requires l < r && p == 2.0 / (r - l) && q == -(r + l) / (r - l) && u == p * x + q
    ensures -1.0 <= u <= 1.0 <==> l <= x <= r
  {
    var d := r - l;
    Quotient(2.0, d, p); Quotient(-(r + l), d, q);
    assert u * d == 2.0 * x - (r + l) by {
      assert p * x * d == p * d * x;
      Times(x, p * d, 2.0);
    }
    ScaledUnitClip(u, d);
  }

  lemma Projection(l: real, r: real, n: real, x: real, z: real)
    requires -z > 0.0
    ensures l <= x * n / -z <= r <==> l * -z <= x * n <= r * -z
  {
    var q := x * n / -z;
    assert q * -z == x * n;
    assert l <= q <==> l * -z <= q * -z;
    assert q <= r <==> q * -z <= r * -z;
  }

  lemma OrthoDepth(n: real, f: real, z: real, p: real, q: real, u: real)
    requires n < f && p == -2.0 / (f - n) && q == -(f + n) / (f - n) && u == p * z + q
    ensures -1.0 <= u <= 1.0 <==> n <= -z <= f
  {
    var d := f - n;
    Quotient(-2.0, d, p); Quotient(-(f + n), d, q);
    assert u * d == -2.0 * z - (f + n) by {
      assert p * z * d == p * d * z;
      Times(z, p * d, -2.0);
    }
    ScaledUnitClip(u, d);
  }

  lemma ScaleTo(a: real, b: real, c: real, d: real, k: real)
    ensures ScaleVec(Vec4(a, b, c, d), k) == Vec4(a * k, b * k, c * k, d * k)
  {}

  // The two products, with the entries of the matrices as variables.
  lemma FrustumProduct(p: real, q: real, r: real, s: real, t: real, u: real, x: real, y: real, z: real)
    ensures Apply(Rows(p, 0.0, q, 0.0, 0.0, r, s, 0.0, 0.0, 0.0, t, u, 0.0, 0.0, -1.0, 0.0), Vec4(x, y, z, 1.0))
         == Vec4(p * x + q * z, r * y + s * z, t * z + u, -z)
  {
    hide Apply, ScaleVec;
    ApplySum(Rows(p, 0.0, q, 0.0, 0.0, r, s, 0.0, 0.0, 0.0, t, u, 0.0, 0.0, -1.0, 0.0), Vec4(x, y, z, 1.0));
    ScaleTo(p, 0.0, 0.0, 0.0, x); ScaleTo(0.0, r, 0.0, 0.0, y); ScaleTo(q, s, t, -1.0, z);
    ScaleTo(0.0, 0.0, u, 0.0, 1.0);
  }

  lemma OrthoProduct(p: real, q: real, r: real, s: real, t: real, u: real, x: real, y: real, z: real)
    ensures Apply(Rows(p, 0.0, 0.0, q, 0.0, r, 0.0, s, 0.0, 0.0, t, u, 0.0, 0.0, 0.0, 1.0), Vec4(x, y, z, 1.0))
         == Vec4(p * x + q, r * y + s, t * z + u, 1.0)
  {
    hide Apply, ScaleVec;
    ApplySum(Rows(p, 0.0, 0.0, q, 0.0, r, 0.0, s, 0.0, 0.0, t, u, 0.0, 0.0, 0.0, 1.0), Vec4(x, y, z, 1.0));
    ScaleTo(p, 0.0, 0.0, 0.0, x); ScaleTo(0.0, r, 0.0, 0.0, y); ScaleTo(0.0, 0.0, t, 0.0, z);
    ScaleTo(q, s, u, 1.0, 1.0);
  }

  lemma FrustumClipsExactly(l: real, r: real, b: real, t: real, n: real, f: real, x: real, y: real, z: real)
    requires l < r && b < t && 0.0 < n < f
    ensures InClip(Apply(Frustum(l, r, b, t, n, f), Vec4(x, y, z, 1.0))) <==> InFrustum(l, r, b, t, n, f, x, y, z)
  {
    hide Apply, Rows;
    var x0, x2, y1, y2 := 2.0 * n / (r - l), (r + l) / (r - l), 2.0 * n / (t - b), (t + b) / (t - b);
    var z2, z3 := -(f + n) / (f - n), -(2.0 * f * n) / (f - n);
    FrustumProduct(x0, x2, y1, y2, z2, z3, x, y, z);
    FrustumSide(l, r, n, x, z, x0, x2, x0 * x + x2 * z);
    FrustumSide(b, t, n, y, z, y1, y2, y1 * y + y2 * z);
    FrustumDepth(n, f, z, z2, z3, z2 * z + z3);
    if n <= -z {
      Projection(l, r, n, x, z);
      Projection(b, t, n, y, z);
    }
  }

  lemma OrthoClipsExactly(l: real, r: real, b: real, t: real, n: real, f: real, x: real, y: real, z: real)
    requires l < r && b < t && n < f
    ensures InClip(Apply(Ortho(l, r, b, t, n, f), Vec4(x, y, z, 1.0))) <==> InBox(l, r, b, t, n, f, x, y, z)
  {
    hide Apply, Rows;
    var x0, x3, y1, y3 := 2.0 / (r - l), -(r + l) / (r - l), 2.0 / (t - b), -(t + b) / (t - b);
    var z2, z3 := -2.0 / (f - n), -(f + n) / (f - n);
    OrthoProduct(x0, x3, y1, y3, z2, z3, x, y, z);
    OrthoSide(l, r, x, x0, x3, x0 * x + x3);
    OrthoSide(b, t, y, y1, y3, y1 * y + y3);
    OrthoDepth(n, f, z, z2, z3, z2 * z + z3);
  }

  // ---- Which point goes where ----

  // The point a fraction of the way from a to b, where the fraction is given as a clip coordinate from -1 to 1.
  function Between(a: real, b: real, u: real): real { a + (b - a) * ((u + 1.0) / 2.0) }

  lemma Cancel(k: real, a: real, b: real)
    requires k != 0.0 && a * k == b * k
    ensures a == b
  {}

  lemma BetweenIs(a: real, b: real, u: real)
    ensures 2.0 * Between(a, b, u) == (a + b) + u * (b - a)
  {
    var h := (u + 1.0) / 2.0;
    assert (b - a) * (2.0 * h) == (b - a) * u + (b - a);
  }

  lemma SideCoordinate(l: real, r: real, n: real, x: real, d: real, p: real, q: real, v: real)
    requires l != r && d != 0.0 && p == 2.0 * n / (r - l) && q == (r + l) / (r - l) && v == p * x - q * d
    ensures x * n / d == Between(l, r, v / d)
  {
    var u, m, k := v / d, x * n / d, r - l;
    assert u * d == v && m * d == x * n;
    Quotient(2.0 * n, k, p); Quotient(r + l, k, q);
    assert v * k == 2.0 * (n * x) - (r + l) * d by {
      assert p * x * k == p * k * x;
      assert q * d * k == q * k * d;
      Times(x, p * k, 2.0 * n); Times(d, q * k, r + l);
    }
    assert (u * k) * d == v * k;
    assert (2.0 * m - (r + l)) * d == 2.0 * (n * x) - (r + l) * d;
    Cancel(d, u * k, 2.0 * m - (r + l));
    BetweenIs(l, r, u);
  }

  lemma DepthCoordinate(n: real, f: real, d: real, p: real, q: real, v: real)
    requires n != 0.0 && f != 0.0 && n != f && d != 0.0
    requires p == -(f + n) / (f - n) && q == -(2.0 * f * n) / (f - n) && v == q - p * d
    ensures 1.0 / d == Between(1.0 / n, 1.0 / f, v / d)
  {
    var u, k, i, a, b := v / d, f - n, 1.0 / d, 1.0 / n, 1.0 / f;
    assert u * d == v && i * d == 1.0 && a * n == 1.0 && b * f == 1.0;
    Quotient(-(f + n), k, p); Quotient(-(2.0 * f * n), k, q);
    assert v * k == (f + n) * d - 2.0 * f * n by {
      assert p * d * k == p * k * d;
      Times(d, p * k, -(f + n));
    }
    DepthProduct(n, f, d, u, k, v);
    Reciprocals(n, f, d, u, i, a, b);
    BetweenIs(a, b, u);
  }

  lemma DepthProduct(n: real, f: real, d: real, u: real, k: real, v: real)
    requires u * d == v && k == f - n && v * k == (f + n) * d - 2.0 * f * n
    ensures 2.0 * (f * n) == d * ((f + n) - u * (f - n))
  {
    assert u * d * k == v * k;
    assert u * d * k == d * (u * (f - n));
  }

  lemma Reciprocals(n: real, f: real, d: real, u: real, i: real, a: real, b: real)
    requires i * d == 1.0 && a * n == 1.0 && b * f == 1.0 && 2.0 * (f * n) == d * ((f + n) - u * (f - n))
    ensures 2.0 * i == (a + b) + u * (b - a)
  {
    var e := (f + n) - u * (f - n);
    assert i * (2.0 * (f * n)) == i * (d * e) == (i * d) * e == e;
    assert (2.0 * i) * (f * n) == e;
    assert (a + b) * (f * n) == f * (a * n) + n * (b * f) == f + n;
    assert (b - a) * (f * n) == n * (b * f) - f * (a * n) == n - f;
    assert (u * (b - a)) * (f * n) == u * (n - f);
    assert ((a + b) + u * (b - a)) * (f * n) == e;
    assert (a * b) * (f * n) == (a * n) * (b * f) == 1.0;
    Cancel(f * n, 2.0 * i, (a + b) + u * (b - a));
  }

  // The point's place on the near plane, seen from the origin, is the one its clip coordinates name, with left and
  // bottom at -1; and the reciprocal of its depth runs evenly from that of the near plane at -1 to that of the far.
  lemma FrustumCoordinates(l: real, r: real, b: real, t: real, n: real, f: real, x: real, y: real, z: real)
    requires l != r && b != t && n != 0.0 && f != 0.0 && n != f && z != 0.0
    ensures var v := Apply(Frustum(l, r, b, t, n, f), Vec4(x, y, z, 1.0));
      && v.w == -z
      && x * n / -z == Between(l, r, v.x / v.w)
      && y * n / -z == Between(b, t, v.y / v.w)
      && 1.0 / -z == Between(1.0 / n, 1.0 / f, v.z / v.w)
  {
    hide Apply, Rows, Between;
    var x0, x2, y1, y2 := 2.0 * n / (r - l), (r + l) / (r - l), 2.0 * n / (t - b), (t + b) / (t - b);
    var z2, z3 := -(f + n) / (f - n), -(2.0 * f * n) / (f - n);
    FrustumProduct(x0, x2, y1, y2, z2, z3, x, y, z);
    Negated(x2, z); Negated(y2, z); Negated(z2, z);
    SideCoordinate(l, r, n, x, -z, x0, x2, x0 * x + x2 * z);
    SideCoordinate(b, t, n, y, -z, y1, y2, y1 * y + y2 * z);
    DepthCoordinate(n, f, -z, z2, z3, z2 * z + z3);
  }

  lemma Negated(a: real, b: real)
    ensures a * -b == -(a * b)
  {}

  lemma BoxCoordinate(a: real, b: real, x: real, p: real, q: real, u: real)
    requires a != b && p == 2.0 / (b - a) && q == -(b + a) / (b - a) && u == p * x + q
    ensures x == Between(a, b, u)
  {
    var k := b - a;
    Quotient(2.0, k, p); Quotient(-(b + a), k, q);
    assert u * k == 2.0 * x - (b + a) by {
      assert p * x * k == p * k * x;
      Times(x, p * k, 2.0);
    }
    BetweenIs(a, b, u);
  }

  // The same without perspective: each coordinate, and the depth -z, is the one its clip coordinate names.
  lemma OrthoCoordinates(l: real, r: real, b: real, t: real, n: real, f: real, x: real, y: real, z: real)
    requires l != r && b != t && n != f
    ensures var v := Apply(Ortho(l, r, b, t, n, f), Vec4(x, y, z, 1.0));
      && v.w == 1.0 && x == Between(l, r, v.x) && y == Between(b, t, v.y) && -z == Between(n, f, v.z)
  {
    hide Apply, Rows, Between;
    var x0, x3, y1, y3 := 2.0 / (r - l), -(r + l) / (r - l), 2.0 / (t - b), -(t + b) / (t - b);
    var z2, z3 := -2.0 / (f - n), -(f + n) / (f - n);
    OrthoProduct(x0, x3, y1, y3, z2, z3, x, y, z);
    BoxCoordinate(l, r, x, x0, x3, x0 * x + x3);
    BoxCoordinate(b, t, y, y1, y3, y1 * y + y3);
    OppositeQuotient(f - n, z2, z);
    BoxCoordinate(n, f, -z, 2.0 / (f - n), z3, z2 * z + z3);
  }

  lemma OppositeQuotient(d: real, p: real, z: real)
    requires d != 0.0 && p == -2.0 / d
    ensures p * z == 2.0 / d * -z
  {
    assert -2.0 / d == -(2.0 / d);
  }
}
