/** rotate and rollPitchYaw: orthogonal, of determinant one, and inverted by transposing. */
module MatrixRotation {
  import opened MatrixValues
  import opened MatrixInverse

  // rotate, with c and s the cosine and sine of the angle and (x, y, z) the normalised axis.
  function Rotate(c: real, s: real, x: real, y: real, z: real): Mat {
    Rows(c + (x * x * (1.0 - c)),
         (x * y * (1.0 - c)) - (z * s),
         (x * z * (1.0 - c)) + (y * s), 0.0,
         (y * x * (1.0 - c)) + (z * s),
         c + (y * y * (1.0 - c)),
         (y * z * (1.0 - c)) - (x * s), 0.0,
         (z * x * (1.0 - c)) - (y * s),
         (z * y * (1.0 - c)) + (x * s),
         c + (z * z * (1.0 - c)), 0.0, 0.0, 0.0, 0.0, 1.0)
  }

  ghost predicate IsUnit(x: real, y: real, z: real) { x * x + y * y + z * z == 1.0 }

  ghost predicate IsAngle(c: real, s: real) { c * c + s * s == 1.0 }

  // The three cosines and three sines of the angles, as in (yaw about z) * (pitch about y) * (roll about x).
  function RollPitchYaw(cr: real, sr: real, cp: real, sp: real, cy: real, sy: real): Mat {
    Mul(Mul(Rotate(cy, sy, 0.0, 0.0, 1.0), Rotate(cp, sp, 0.0, 1.0, 0.0)), Rotate(cr, sr, 1.0, 0.0, 0.0))
  }

  ghost predicate Orthogonal(m: Mat) { Mul(Transpose(m), m) == Identity() }

  // Products of two entries of a rotation, written out.
  lemma DiagDiag(c: real, x: real, y: real, p: real, q: real)
    requires p == c + x * x * (1.0 - c) && q == c + y * y * (1.0 - c)
    ensures p * q == (c + x * x * (1.0 - c)) * (c + y * y * (1.0 - c))
  {}

  lemma DiagPlus(c: real, s: real, x: real, a: real, b: real, e: real, p: real, q: real)
    requires p == c + x * x * (1.0 - c) && q == a * b * (1.0 - c) + e * s
    ensures p * q == (c + x * x * (1.0 - c)) * (a * b * (1.0 - c) + e * s)
  {}

  lemma DiagMinus(c: real, s: real, x: real, a: real, b: real, e: real, p: real, q: real)
    requires p == c + x * x * (1.0 - c) && q == a * b * (1.0 - c) - e * s
    ensures p * q == (c + x * x * (1.0 - c)) * (a * b * (1.0 - c) - e * s)
  {}

  lemma PlusPlus(c: real, s: real, a: real, b: real, e: real, d: real, f: real, g: real, p: real, q: real)
    requires p == a * b * (1.0 - c) + e * s && q == d * f * (1.0 - c) + g * s
    ensures p * q == (a * b * (1.0 - c) + e * s) * (d * f * (1.0 - c) + g * s)
  {}

  lemma PlusMinus(c: real, s: real, a: real, b: real, e: real, d: real, f: real, g: real, p: real, q: real)
    requires p == a * b * (1.0 - c) + e * s && q == d * f * (1.0 - c) - g * s
    ensures p * q == (a * b * (1.0 - c) + e * s) * (d * f * (1.0 - c) - g * s)
  {}

  lemma MinusMinus(c: real, s: real, a: real, b: real, e: real, d: real, f: real, g: real, p: real, q: real)
    requires p == a * b * (1.0 - c) - e * s && q == d * f * (1.0 - c) - g * s
    ensures p * q == (a * b * (1.0 - c) - e * s) * (d * f * (1.0 - c) - g * s)
  {}

  // A column of a rotation has length one, ...
  lemma ColumnPoly(c: real, s: real, x: real, y: real, z: real)
    requires IsAngle(c, s) && IsUnit(x, y, z)
    ensures (c + x * x * (1.0 - c)) * (c + x * x * (1.0 - c))
      + (y * x * (1.0 - c) + z * s) * (y * x * (1.0 - c) + z * s)
          + (z * x * (1.0 - c) - y * s) * (z * x * (1.0 - c) - y * s) == 1.0
  {}

  lemma RotateColumn(c: real, s: real, x: real, y: real, z: real, p0: real, p1: real, p2: real)
    requires IsAngle(c, s) && IsUnit(x, y, z)
    requires p0 == c + x * x * (1.0 - c) && p1 == y * x * (1.0 - c) + z * s && p2 == z * x * (1.0 - c) - y * s
    ensures p0 * p0 + p1 * p1 + p2 * p2 == 1.0
  {
    ColumnPoly(c, s, x, y, z);
    DiagDiag(c, x, x, p0, p0); PlusPlus(c, s, y, x, z, y, x, z, p1, p1); MinusMinus(c, s, z, x, y, z, x, y, p2, p2);
  }

  // ... is orthogonal to the next column, ...
  lemma ColumnsPoly(c: real, s: real, x: real, y: real, z: real)
    requires IsAngle(c, s) && IsUnit(x, y, z)
    ensures (c + x * x * (1.0 - c)) * (x * y * (1.0 - c) - z * s)
      + (c + y * y * (1.0 - c)) * (y * x * (1.0 - c) + z * s)
          + (z * y * (1.0 - c) + x * s) * (z * x * (1.0 - c) - y * s) == 0.0
  {}

  lemma RotateColumns(c: real, s: real, x: real, y: real, z: real,
                      p0: real, p1: real, p2: real, q0: real, q1: real, q2: real)
    requires IsAngle(c, s) && IsUnit(x, y, z)
    requires p0 == c + x * x * (1.0 - c) && p1 == y * x * (1.0 - c) + z * s && p2 == z * x * (1.0 - c) - y * s
    requires q0 == x * y * (1.0 - c) - z * s && q1 == c + y * y * (1.0 - c) && q2 == z * y * (1.0 - c) + x * s
    ensures p0 * q0 + p1 * q1 + p2 * q2 == 0.0
  {
    ColumnsPoly(c, s, x, y, z);
    DiagMinus(c, s, x, x, y, z, p0, q0); DiagPlus(c, s, y, y, x, z, q1, p1); PlusMinus(c, s, z, y, x, z, x, y, q2, p2);
  }

  // ... and is the cross product of the other two.
  lemma CrossPoly(c: real, s: real, x: real, y: real, z: real)
    requires IsAngle(c, s) && IsUnit(x, y, z)
    ensures (c + y * y * (1.0 - c)) * (c + z * z * (1.0 - c))
      - (z * y * (1.0 - c) + x * s) * (y * z * (1.0 - c) - x * s) == c + x * x * (1.0 - c)
    ensures (z * y * (1.0 - c) + x * s) * (x * z * (1.0 - c) + y * s)
      - (c + z * z * (1.0 - c)) * (x * y * (1.0 - c) - z * s) == y * x * (1.0 - c) + z * s
    ensures (x * y * (1.0 - c) - z * s) * (y * z * (1.0 - c) - x * s)
      - (c + y * y * (1.0 - c)) * (x * z * (1.0 - c) + y * s) == z * x * (1.0 - c) - y * s
  {}

  lemma RotateCross(c: real, s: real, x: real, y: real, z: real,
                    q0: real, q1: real, q2: real, r0: real, r1: real, r2: real)
    requires IsAngle(c, s) && IsUnit(x, y, z)
    requires q0 == x * y * (1.0 - c) - z * s && q1 == c + y * y * (1.0 - c) && q2 == z * y * (1.0 - c) + x * s
    requires r0 == x * z * (1.0 - c) + y * s && r1 == y * z * (1.0 - c) - x * s && r2 == c + z * z * (1.0 - c)
    ensures q1 * r2 - q2 * r1 == c + x * x * (1.0 - c)
    ensures q2 * r0 - q0 * r2 == y * x * (1.0 - c) + z * s
    ensures q0 * r1 - q1 * r0 == z * x * (1.0 - c) - y * s
  {
    CrossPoly(c, s, x, y, z);
    DiagDiag(c, y, z, q1, r2); PlusMinus(c, s, z, y, x, y, z, x, q2, r1);
    PlusPlus(c, s, z, y, x, x, z, y, q2, r0); DiagMinus(c, s, z, x, y, z, r2, q0);
    MinusMinus(c, s, x, y, z, y, z, x, q0, r1); DiagPlus(c, s, y, x, z, y, q1, r0);
  }

  lemma VolumeWithAxis(p: Vec4, q: Vec4, r: Vec4)
    requires p.w == q.w == r.w == 0.0
    ensures Volume(p, q, r, Vec4(0.0, 0.0, 0.0, 1.0)) ==
      p.x * (q.y * r.z - q.z * r.y) + p.y * (q.z * r.x - q.x * r.z) + p.z * (q.x * r.y - q.y * r.x)
  {}

  lemma GramIsProduct(m: Mat)
    ensures Mul(Transpose(m), m) == Mat(
      Vec4(Dot(m.c0, m.c0), Dot(m.c1, m.c0), Dot(m.c2, m.c0), Dot(m.c3, m.c0)),
      Vec4(Dot(m.c0, m.c1), Dot(m.c1, m.c1), Dot(m.c2, m.c1), Dot(m.c3, m.c1)),
      Vec4(Dot(m.c0, m.c2), Dot(m.c1, m.c2), Dot(m.c2, m.c2), Dot(m.c3, m.c2)),
      Vec4(Dot(m.c0, m.c3), Dot(m.c1, m.c3), Dot(m.c2, m.c3), Dot(m.c3, m.c3)))
  {
    hide Mul, Apply, Dot;
    var t := Transpose(m);
    MulCols(t, m);
    ApplyRows(t, m.c0); ApplyRows(t, m.c1); ApplyRows(t, m.c2); ApplyRows(t, m.c3);
    assert Transpose(t) == m;
  }

  lemma RotateLengths(c: real, s: real, x: real, y: real, z: real)
    requires IsAngle(c, s) && IsUnit(x, y, z)
    ensures var m := Rotate(c, s, x, y, z); Dot(m.c0, m.c0) == Dot(m.c1, m.c1) == Dot(m.c2, m.c2) == 1.0
  {
    RotateLength0(c, s, x, y, z); RotateLength1(c, s, x, y, z); RotateLength2(c, s, x, y, z);
    hide Rotate, Dot;
  }

  lemma RotateLength0(c: real, s: real, x: real, y: real, z: real)
    requires IsAngle(c, s) && IsUnit(x, y, z)
    ensures var m := Rotate(c, s, x, y, z); Dot(m.c0, m.c0) == 1.0
  {
    var p := Rotate(c, s, x, y, z).c0;
    RotateColumn(c, s, x, y, z, p.x, p.y, p.z);
  }

  lemma RotateLength1(c: real, s: real, x: real, y: real, z: real)
    requires IsAngle(c, s) && IsUnit(x, y, z)
    ensures var m := Rotate(c, s, x, y, z); Dot(m.c1, m.c1) == 1.0
  {
    var q := Rotate(c, s, x, y, z).c1;
    RotateColumn(c, s, y, z, x, q.y, q.z, q.x);
  }

  lemma RotateLength2(c: real, s: real, x: real, y: real, z: real)
    requires IsAngle(c, s) && IsUnit(x, y, z)
    ensures var m := Rotate(c, s, x, y, z); Dot(m.c2, m.c2) == 1.0
  {
    var r := Rotate(c, s, x, y, z).c2;
    RotateColumn(c, s, z, x, y, r.z, r.x, r.y);
  }

  lemma RotateAngle01(c: real, s: real, x: real, y: real, z: real)
    requires IsAngle(c, s) && IsUnit(x, y, z)
    ensures var m := Rotate(c, s, x, y, z); Dot(m.c0, m.c1) == 0.0
  {
    var Mat(p, q, _, _) := Rotate(c, s, x, y, z);
    RotateColumns(c, s, x, y, z, p.x, p.y, p.z, q.x, q.y, q.z);
  }

  lemma RotateAngle12(c: real, s: real, x: real, y: real, z: real)
    requires IsAngle(c, s) && IsUnit(x, y, z)
    ensures var m := Rotate(c, s, x, y, z); Dot(m.c1, m.c2) == 0.0
  {
    var Mat(_, q, r, _) := Rotate(c, s, x, y, z);
    RotateColumns(c, s, y, z, x, q.y, q.z, q.x, r.y, r.z, r.x);
  }

  lemma RotateAngle20(c: real, s: real, x: real, y: real, z: real)
    requires IsAngle(c, s) && IsUnit(x, y, z)
    ensures var m := Rotate(c, s, x, y, z); Dot(m.c2, m.c0) == 0.0
  {
    var Mat(p, _, r, _) := Rotate(c, s, x, y, z);
    RotateColumns(c, s, z, x, y, r.z, r.x, r.y, p.z, p.x, p.y);
  }

  lemma RotateOrthogonal(c: real, s: real, x: real, y: real, z: real)
    requires IsAngle(c, s) && IsUnit(x, y, z)
    ensures Orthogonal(Rotate(c, s, x, y, z))
  {
    hide Mul, Dot;
    var m := Rotate(c, s, x, y, z);
    RotateLengths(c, s, x, y, z); RotateAngle01(c, s, x, y, z); RotateAngle12(c, s, x, y, z);
    RotateAngle20(c, s, x, y, z);
    GramIsProduct(m);
    DotSym(m.c0, m.c1); DotSym(m.c1, m.c2); DotSym(m.c2, m.c0);
    DotLast(m.c0); DotLast(m.c1); DotLast(m.c2); DotLast(m.c3);
  }

  lemma DotLast(v: Vec4)
    ensures var e := Vec4(0.0, 0.0, 0.0, 1.0); Dot(v, e) == Dot(e, v) == v.w
  {}

  lemma RotateVolume(c: real, s: real, x: real, y: real, z: real)
    requires IsAngle(c, s) && IsUnit(x, y, z)
    ensures var m := Rotate(c, s, x, y, z); VolumeOf(m) == Dot(m.c0, m.c0)
  {
    hide Volume;
    var Mat(p, q, r, _) := Rotate(c, s, x, y, z);
    VolumeWithAxis(p, q, r);
    RotateCross(c, s, x, y, z, q.x, q.y, q.z, r.x, r.y, r.z);
    Times(p.x, q.y * r.z - q.z * r.y, p.x);
    Times(p.y, q.z * r.x - q.x * r.z, p.y);
    Times(p.z, q.x * r.y - q.y * r.x, p.z);
  }

  // The axis is fixed, whatever the angle.
  lemma RotateFixesAxis(c: real, s: real, x: real, y: real, z: real, w: real)
    requires IsUnit(x, y, z)
    ensures Apply(Rotate(c, s, x, y, z), Vec4(x, y, z, w)) == Vec4(x, y, z, w)
  {
    RotateTurns(c, s, x, y, z, Vec4(x, y, z, w));
    hide Apply, Rotate;
    TurnedAxis(c, s, x, y, z); TurnedAxis(c, s, y, z, x); TurnedAxis(c, s, z, x, y);
  }

  lemma TurnedAxis(c: real, s: real, x: real, y: real, z: real)
    requires IsUnit(x, y, z)
    ensures c * x + (1.0 - c) * (x * x + y * y + z * z) * x + s * (y * z - z * y) == x
    ensures c * x + (1.0 - c) * (z * z + x * x + y * y) * x + s * (y * z - z * y) == x
    ensures c * x + (1.0 - c) * (y * y + z * z + x * x) * x + s * (y * z - z * y) == x
  {}

  // An orthogonal matrix is inverted by transposing it; products of orthogonal matrices are orthogonal.
  lemma OrthogonalInverse(m: Mat)
    requires Orthogonal(m)
    ensures Inverse(m) == Transpose(m)
    ensures Mul(m, Transpose(m)) == Identity()
  {
    hide Mul, Inverse, Transpose, Det;
    LeftInverseUnique(Transpose(m), m);
  }

  lemma TransposeMul(a: Mat, b: Mat)
    ensures Transpose(Mul(a, b)) == Mul(Transpose(b), Transpose(a))
  {
    hide Apply, Dot;
    var at, bt := Transpose(a), Transpose(b);
    MulCols(bt, at);
    ApplyRows(bt, at.c0); ApplyRows(bt, at.c1); ApplyRows(bt, at.c2); ApplyRows(bt, at.c3);
    MulCols(a, b);
    ApplyRows(a, b.c0); ApplyRows(a, b.c1); ApplyRows(a, b.c2); ApplyRows(a, b.c3);
    assert Transpose(bt) == b;
    DotSym(at.c0, b.c0); DotSym(at.c0, b.c1); DotSym(at.c0, b.c2); DotSym(at.c0, b.c3);
    DotSym(at.c1, b.c0); DotSym(at.c1, b.c1); DotSym(at.c1, b.c2); DotSym(at.c1, b.c3);
    DotSym(at.c2, b.c0); DotSym(at.c2, b.c1); DotSym(at.c2, b.c2); DotSym(at.c2, b.c3);
    DotSym(at.c3, b.c0); DotSym(at.c3, b.c1); DotSym(at.c3, b.c2); DotSym(at.c3, b.c3);
  }

  lemma OrthogonalMul(a: Mat, b: Mat)
    requires Orthogonal(a) && Orthogonal(b)
    ensures Orthogonal(Mul(a, b))
  {
    hide Mul, Transpose;
    TransposeMul(a, b);
    MulAssoc(Mul(Transpose(b), Transpose(a)), a, b);
    MulAssoc(Transpose(b), Transpose(a), a);
    MulIdentity(Transpose(b));
  }

  lemma RotateCorrect(c: real, s: real, x: real, y: real, z: real)
    requires IsAngle(c, s) && IsUnit(x, y, z)
    ensures var m := Rotate(c, s, x, y, z);
      && Mul(m, Transpose(m)) == Identity()
      && Det(m) == 1.0
      && Inverse(m) == Transpose(m) == Rotate(c, -s, x, y, z)
      && forall w :: Apply(m, Vec4(x, y, z, w)) == Vec4(x, y, z, w)
  {
    hide Mul, Det, Inverse, Apply, Dot, Volume;
    var m := Rotate(c, s, x, y, z);
    RotateOrthogonal(c, s, x, y, z);
    OrthogonalInverse(m);
    DetIsVolume(m); RotateVolume(c, s, x, y, z); RotateLengths(c, s, x, y, z);
    assert Transpose(m) == Rotate(c, -s, x, y, z);
    forall w ensures Apply(m, Vec4(x, y, z, w)) == Vec4(x, y, z, w) {
      RotateFixesAxis(c, s, x, y, z, w);
    }
  }

  lemma RollPitchYawCorrect(cr: real, sr: real, cp: real, sp: real, cy: real, sy: real)
    requires IsAngle(cr, sr) && IsAngle(cp, sp) && IsAngle(cy, sy)
    ensures var m := RollPitchYaw(cr, sr, cp, sp, cy, sy);
      && Orthogonal(m) && Det(m) == 1.0
      && Inverse(m) == Mul(Rotate(cr, -sr, 1.0, 0.0, 0.0),
                           Mul(Rotate(cp, -sp, 0.0, 1.0, 0.0), Rotate(cy, -sy, 0.0, 0.0, 1.0)))
  {
    hide Mul, Det, Inverse, Apply, Rotate, Transpose;
    var r, p, y := Rotate(cr, sr, 1.0, 0.0, 0.0), Rotate(cp, sp, 0.0, 1.0, 0.0), Rotate(cy, sy, 0.0, 0.0, 1.0);
    RotateCorrect(cr, sr, 1.0, 0.0, 0.0); RotateCorrect(cp, sp, 0.0, 1.0, 0.0); RotateCorrect(cy, sy, 0.0, 0.0, 1.0);
    RotateOrthogonal(cr, sr, 1.0, 0.0, 0.0); RotateOrthogonal(cp, sp, 0.0, 1.0, 0.0);
    RotateOrthogonal(cy, sy, 0.0, 0.0, 1.0);
    OrthogonalMul(y, p); OrthogonalMul(Mul(y, p), r);
    OrthogonalInverse(Mul(Mul(y, p), r));
    DetMul(y, p); DetMul(Mul(y, p), r);
    TransposeMul(y, p); TransposeMul(Mul(y, p), r);
  }

  // ---- Which way it turns ----

  // One coordinate of the product with a vector.
  lemma TurnedCoordinate(c: real, s: real, x: real, y: real, z: real, p: real, q: real, r: real,
                         e: real, m: real, n: real)
    requires e == c + (x * x * (1.0 - c))
    requires m == (x * y * (1.0 - c)) - (z * s) && n == (x * z * (1.0 - c)) + (y * s)
    ensures e * p + m * q + n * r == c * p + (1.0 - c) * (x * p + y * q + z * r) * x + s * (y * r - z * q)
  {
    var k := 1.0 - c;
    assert m * q == x * y * k * q - z * s * q;
    assert n * r == x * z * k * r + y * s * r;
    assert e * p == c * p + x * x * k * p;
    assert k * (x * p + y * q + z * r) * x == x * x * k * p + x * y * k * q + x * z * k * r;
    assert s * (y * r - z * q) == y * s * r - z * s * q;
  }

  lemma SameFactor(k: real, a: real, b: real, x: real)
    requires a == b
    ensures k * a * x == k * b * x
  {}

  // The second and third coordinate by turning the letters round.
  lemma SecondCoordinate(c: real, s: real, x: real, y: real, z: real, p: real, q: real, r: real,
                         e: real, m: real, n: real)
    requires e == c + (y * y * (1.0 - c))
    requires m == (y * z * (1.0 - c)) - (x * s) && n == (y * x * (1.0 - c)) + (z * s)
    ensures n * p + e * q + m * r == c * q + (1.0 - c) * (x * p + y * q + z * r) * y + s * (z * p - x * r)
  {
    TurnedCoordinate(c, s, y, z, x, q, r, p, e, m, n);
    SameFactor(1.0 - c, y * q + z * r + x * p, x * p + y * q + z * r, y);
  }

  lemma ThirdCoordinate(c: real, s: real, x: real, y: real, z: real, p: real, q: real, r: real,
                        e: real, m: real, n: real)
    requires e == c + (z * z * (1.0 - c))
    requires m == (z * x * (1.0 - c)) - (y * s) && n == (z * y * (1.0 - c)) + (x * s)
    ensures m * p + n * q + e * r == c * r + (1.0 - c) * (x * p + y * q + z * r) * z + s * (x * q - y * p)
  {
    TurnedCoordinate(c, s, z, x, y, r, p, q, e, m, n);
    SameFactor(1.0 - c, z * r + x * p + y * q, x * p + y * q + z * r, z);
  }

  lemma ApplyAffine(m: Mat, v: Vec4)
    requires m.c0.w == m.c1.w == m.c2.w == 0.0 && m.c3 == Vec4(0.0, 0.0, 0.0, 1.0)
    ensures var r := Apply(m, v);
      && r.x == m.c0.x * v.x + m.c1.x * v.y + m.c2.x * v.z && r.y == m.c0.y * v.x + m.c1.y * v.y + m.c2.y * v.z
      && r.z == m.c0.z * v.x + m.c1.z * v.y + m.c2.z * v.z && r.w == v.w
  {}

  // The entries of a rotation, as variables, against a vector.
  lemma Turned(c: real, s: real, x: real, y: real, z: real, p: real, q: real, r: real, a: Vec4, b: Vec4, d: Vec4)
    requires Rotate(c, s, x, y, z) == Mat(a, b, d, Vec4(0.0, 0.0, 0.0, 1.0))
    ensures a.w == b.w == d.w == 0.0
    ensures a.x * p + b.x * q + d.x * r == c * p + (1.0 - c) * (x * p + y * q + z * r) * x + s * (y * r - z * q)
    ensures a.y * p + b.y * q + d.y * r == c * q + (1.0 - c) * (x * p + y * q + z * r) * y + s * (z * p - x * r)
    ensures a.z * p + b.z * q + d.z * r == c * r + (1.0 - c) * (x * p + y * q + z * r) * z + s * (x * q - y * p)
  {
    TurnedCoordinate(c, s, x, y, z, p, q, r, a.x, b.x, d.x);
    SecondCoordinate(c, s, x, y, z, p, q, r, b.y, d.y, a.y);
    ThirdCoordinate(c, s, x, y, z, p, q, r, d.z, a.z, b.z);
    hide Rotate;
  }

  lemma LastColumn(c: real, s: real, x: real, y: real, z: real)
    ensures Rotate(c, s, x, y, z).c3 == Vec4(0.0, 0.0, 0.0, 1.0)
  {}

  // A vector v turns to cos v + (1 - cos) (u . v) u + sin (u x v) about the axis u: from v towards u x v.
  lemma RotateTurns(c: real, s: real, x: real, y: real, z: real, v: Vec4)
    ensures var r, d := Apply(Rotate(c, s, x, y, z), v), x * v.x + y * v.y + z * v.z;
      && r.x == c * v.x + (1.0 - c) * d * x + s * (y * v.z - z * v.y)
      && r.y == c * v.y + (1.0 - c) * d * y + s * (z * v.x - x * v.z)
      && r.z == c * v.z + (1.0 - c) * d * z + s * (x * v.y - y * v.x)
      && r.w == v.w
  {
    hide Apply, Rotate;
    var m := Rotate(c, s, x, y, z);
    LastColumn(c, s, x, y, z);
    Turned(c, s, x, y, z, v.x, v.y, v.z, m.c0, m.c1, m.c2);
    ApplyAffine(m, v);
  }

  // Where roll, pitch and yaw take the three axes.
  lemma RollPitchYawTurns(cr: real, sr: real, cp: real, sp: real, cy: real, sy: real)
    ensures var m := RollPitchYaw(cr, sr, cp, sp, cy, sy);
      && Apply(m, Vec4(1.0, 0.0, 0.0, 0.0)) == Vec4(cy * cp, sy * cp, -sp, 0.0)
      && Apply(m, Vec4(0.0, 1.0, 0.0, 0.0)) ==
           Vec4(cy * (sp * sr) - sy * cr, sy * (sp * sr) + cy * cr, cp * sr, 0.0)
      && Apply(m, Vec4(0.0, 0.0, 1.0, 0.0)) ==
           Vec4(cy * (sp * cr) + sy * sr, sy * (sp * cr) - cy * sr, cp * cr, 0.0)
  {
    hide Apply, Mul, Rotate;
    RollPitchYawOf(cr, sr, cp, sp, cy, sy, Vec4(1.0, 0.0, 0.0, 0.0));
    RollPitchYawOf(cr, sr, cp, sp, cy, sy, Vec4(0.0, 1.0, 0.0, 0.0));
    RollPitchYawOf(cr, sr, cp, sp, cy, sy, Vec4(0.0, 0.0, 1.0, 0.0));
  }

  lemma RollPitchYawOf(cr: real, sr: real, cp: real, sp: real, cy: real, sy: real, v: Vec4)
    ensures var y, z := cr * v.y - sr * v.z, sr * v.y + cr * v.z;
            var x, w := cp * v.x + sp * z, cp * z - sp * v.x;
            Apply(RollPitchYaw(cr, sr, cp, sp, cy, sy), v) == Vec4(cy * x - sy * y, sy * x + cy * y, w, v.w)
  {
    var r, p, q := Rotate(cr, sr, 1.0, 0.0, 0.0), Rotate(cp, sp, 0.0, 1.0, 0.0), Rotate(cy, sy, 0.0, 0.0, 1.0);
    hide Apply, Mul, Rotate;
    ApplyMul(Mul(q, p), r, v);
    ApplyMul(q, p, Apply(r, v));
    AboutX(cr, sr, v);
    AboutY(cp, sp, Apply(r, v));
    AboutZ(cy, sy, Apply(p, Apply(r, v)));
  }

  lemma AboutX(c: real, s: real, v: Vec4)
    ensures Apply(Rotate(c, s, 1.0, 0.0, 0.0), v) == Vec4(v.x, c * v.y - s * v.z, s * v.y + c * v.z, v.w)
  {
    RotateTurns(c, s, 1.0, 0.0, 0.0, v);
    hide Apply, Rotate;
  }

  lemma AboutY(c: real, s: real, v: Vec4)
    ensures Apply(Rotate(c, s, 0.0, 1.0, 0.0), v) == Vec4(c * v.x + s * v.z, v.y, c * v.z - s * v.x, v.w)
  {
    RotateTurns(c, s, 0.0, 1.0, 0.0, v);
    hide Apply, Rotate;
  }

  lemma AboutZ(c: real, s: real, v: Vec4)
    ensures Apply(Rotate(c, s, 0.0, 0.0, 1.0), v) == Vec4(c * v.x - s * v.y, s * v.x + c * v.y, v.z, v.w)
  {
    RotateTurns(c, s, 0.0, 0.0, 1.0, v);
    hide Apply, Rotate;
  }
}
