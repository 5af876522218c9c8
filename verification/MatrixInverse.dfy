/** The algebra behind invert: the determinant it divides by is multiplicative, and the scaled
    cofactors are the two-sided inverse whenever there is one. */
module MatrixInverse {
  import opened MatrixValues

  // ---- Vectors ----

  function Dot(u: Vec4, v: Vec4): real { u.x * v.x + u.y * v.y + u.z * v.z + u.w * v.w }

  function Add(u: Vec4, v: Vec4): Vec4 { Vec4(u.x + v.x, u.y + v.y, u.z + v.z, u.w + v.w) }

  lemma Times(k: real, x: real, y: real)
    requires x == y
    ensures k * x == k * y
  {}

  lemma DotAdd(u: Vec4, v: Vec4, c: Vec4)
    ensures Dot(Add(u, v), c) == Dot(u, c) + Dot(v, c)
  {}

  lemma DotScale(u: Vec4, k: real, c: Vec4)
    ensures Dot(ScaleVec(u, k), c) == k * Dot(u, c)
  {}

  lemma ScaleAdd(u: Vec4, v: Vec4, k: real)
    ensures ScaleVec(Add(u, v), k) == Add(ScaleVec(u, k), ScaleVec(v, k))
  {}

  lemma ScaleSum(v: Vec4, i: real, j: real, k: real)
    requires k == i + j
    ensures ScaleVec(v, k) == Add(ScaleVec(v, i), ScaleVec(v, j))
  {}

  lemma Reassociate(x: real, j: real, k: real, y: real, l: real)
    requires y == x * j && l == j * k
    ensures y * k == x * l
  {}

  lemma ScaleTwice(v: Vec4, j: real, k: real, l: real)
    requires l == j * k
    ensures ScaleVec(ScaleVec(v, j), k) == ScaleVec(v, l)
  {
    var u := ScaleVec(v, j);
    Reassociate(v.x, j, k, u.x, l); Reassociate(v.y, j, k, u.y, l);
    Reassociate(v.z, j, k, u.z, l); Reassociate(v.w, j, k, u.w, l);
  }

  lemma ScaleCommutes(v: Vec4, j: real, k: real)
    ensures ScaleVec(ScaleVec(v, j), k) == ScaleVec(ScaleVec(v, k), j)
  {
    ScaleTwice(v, j, k, j * k); ScaleTwice(v, k, j, j * k);
  }

  // ---- Matrices act linearly ----

  lemma ApplySum(a: Mat, v: Vec4)
    ensures Apply(a, v) ==
      Add(Add(ScaleVec(a.c0, v.x), ScaleVec(a.c1, v.y)), Add(ScaleVec(a.c2, v.z), ScaleVec(a.c3, v.w)))
  {
    var s0, s1, s2, s3 := ScaleVec(a.c0, v.x), ScaleVec(a.c1, v.y), ScaleVec(a.c2, v.z), ScaleVec(a.c3, v.w);
    var u := Apply(a, v);
    assert u.x == s0.x + s1.x + s2.x + s3.x;
    assert u.y == s0.y + s1.y + s2.y + s3.y;
    assert u.z == s0.z + s1.z + s2.z + s3.z;
    assert u.w == s0.w + s1.w + s2.w + s3.w;
    assert u == Add(Add(s0, s1), Add(s2, s3)) by { hide Apply, ScaleVec; }
  }

  lemma ApplyAdd(a: Mat, u: Vec4, v: Vec4)
    ensures Apply(a, Add(u, v)) == Add(Apply(a, u), Apply(a, v))
  {
    hide Apply, ScaleVec;
    var t := Add(u, v);
    ApplySum(a, u); ApplySum(a, v); ApplySum(a, t);
    ScaleSum(a.c0, u.x, v.x, t.x); ScaleSum(a.c1, u.y, v.y, t.y);
    ScaleSum(a.c2, u.z, v.z, t.z); ScaleSum(a.c3, u.w, v.w, t.w);
  }

  lemma ApplyScale(a: Mat, v: Vec4, k: real)
    ensures Apply(a, ScaleVec(v, k)) == ScaleVec(Apply(a, v), k)
  {
    hide Apply;
    var u := ScaleVec(v, k);
    var s0, s1, s2, s3 := ScaleVec(a.c0, v.x), ScaleVec(a.c1, v.y), ScaleVec(a.c2, v.z), ScaleVec(a.c3, v.w);
    ApplySum(a, v); ApplySum(a, u);
    ScaleAdd(Add(s0, s1), Add(s2, s3), k); ScaleAdd(s0, s1, k); ScaleAdd(s2, s3, k);
    ScaleTwice(a.c0, v.x, k, u.x); ScaleTwice(a.c1, v.y, k, u.y);
    ScaleTwice(a.c2, v.z, k, u.z); ScaleTwice(a.c3, v.w, k, u.w);
  }

  lemma ScaleApply(a: Mat, k: real, v: Vec4)
    ensures Apply(Scale(a, k), v) == ScaleVec(Apply(a, v), k)
  {
    hide Apply, ScaleVec, Add;
    var s0, s1, s2, s3 := ScaleVec(a.c0, v.x), ScaleVec(a.c1, v.y), ScaleVec(a.c2, v.z), ScaleVec(a.c3, v.w);
    ApplySum(a, v); ApplySum(Scale(a, k), v);
    ScaleAdd(Add(s0, s1), Add(s2, s3), k); ScaleAdd(s0, s1, k); ScaleAdd(s2, s3, k);
    ScaleCommutes(a.c0, v.x, k); ScaleCommutes(a.c1, v.y, k); ScaleCommutes(a.c2, v.z, k); ScaleCommutes(a.c3, v.w, k);
  }

  lemma DotApply(a: Mat, v: Vec4, c: Vec4)
    ensures Dot(Apply(a, v), c) ==
      v.x * Dot(a.c0, c) + v.y * Dot(a.c1, c) + v.z * Dot(a.c2, c) + v.w * Dot(a.c3, c)
  {
    hide *;
    var s0, s1, s2, s3 := ScaleVec(a.c0, v.x), ScaleVec(a.c1, v.y), ScaleVec(a.c2, v.z), ScaleVec(a.c3, v.w);
    ApplySum(a, v);
    DotAdd(Add(s0, s1), Add(s2, s3), c); DotAdd(s0, s1, c); DotAdd(s2, s3, c);
    DotScale(a.c0, v.x, c); DotScale(a.c1, v.y, c); DotScale(a.c2, v.z, c); DotScale(a.c3, v.w, c);
  }

  lemma MulCols(a: Mat, b: Mat)
    ensures Mul(a, b) == Mat(Apply(a, b.c0), Apply(a, b.c1), Apply(a, b.c2), Apply(a, b.c3))
  {
    MulCol0(a, b); MulCol1(a, b); MulCol2(a, b); MulCol3(a, b);
    hide Mul, Apply;
  }

  lemma MulCol0(a: Mat, b: Mat)
    ensures Mul(a, b).c0 == Apply(a, b.c0)
  {}

  lemma MulCol1(a: Mat, b: Mat)
    ensures Mul(a, b).c1 == Apply(a, b.c1)
  {}

  lemma MulCol2(a: Mat, b: Mat)
    ensures Mul(a, b).c2 == Apply(a, b.c2)
  {}

  lemma MulCol3(a: Mat, b: Mat)
    ensures Mul(a, b).c3 == Apply(a, b.c3)
  {}

  // operator* on matrices is the composition of operator* on vectors.
  lemma ApplyMul(a: Mat, b: Mat, v: Vec4)
    ensures Apply(Mul(a, b), v) == Apply(a, Apply(b, v))
  {
    hide *;
    var s0, s1, s2, s3 := ScaleVec(b.c0, v.x), ScaleVec(b.c1, v.y), ScaleVec(b.c2, v.z), ScaleVec(b.c3, v.w);
    ApplySum(b, v);
    ApplyAdd(a, Add(s0, s1), Add(s2, s3)); ApplyAdd(a, s0, s1); ApplyAdd(a, s2, s3);
    ApplyScale(a, b.c0, v.x); ApplyScale(a, b.c1, v.y); ApplyScale(a, b.c2, v.z); ApplyScale(a, b.c3, v.w);
    MulCols(a, b);
    ApplySum(Mul(a, b), v);
  }

  lemma MulAssoc(a: Mat, b: Mat, c: Mat)
    ensures Mul(Mul(a, b), c) == Mul(a, Mul(b, c))
  {
    hide *;
    MulCols(Mul(a, b), c); MulCols(b, c); MulCols(a, Mul(b, c));
    ApplyMul(a, b, c.c0); ApplyMul(a, b, c.c1); ApplyMul(a, b, c.c2); ApplyMul(a, b, c.c3);
  }

  lemma MulIdentity(m: Mat)
    ensures Mul(Identity(), m) == m == Mul(m, Identity())
  {}

  lemma MulScale(a: Mat, k: real, b: Mat)
    ensures Mul(Scale(a, k), b) == Scale(Mul(a, b), k)
  {
    hide Apply, Mul, ScaleVec;
    MulCols(Scale(a, k), b); MulCols(a, b);
    ScaleApply(a, k, b.c0); ScaleApply(a, k, b.c1); ScaleApply(a, k, b.c2); ScaleApply(a, k, b.c3);
  }

  // ---- The volume spanned by four vectors ----

  // The 3x3 determinant with columns (a, b, c), (d, e, f), (g, h, i).
  function Det3(a: real, b: real, c: real, d: real, e: real, f: real, g: real, h: real, i: real): real {
    a * e * i - a * f * h - d * b * i + d * c * h + g * b * f - g * c * e
  }

  // The vector whose dot product with p is the volume of p, q, r and s.
  function Cross(q: Vec4, r: Vec4, s: Vec4): Vec4 {
    Vec4(Det3(q.y, q.z, q.w, r.y, r.z, r.w, s.y, s.z, s.w),
         -Det3(q.x, q.z, q.w, r.x, r.z, r.w, s.x, s.z, s.w),
         Det3(q.x, q.y, q.w, r.x, r.y, r.w, s.x, s.y, s.w),
         -Det3(q.x, q.y, q.z, r.x, r.y, r.z, s.x, s.y, s.z))
  }

  // The Leibniz sum over the 24 permutations.
  function Volume(p: Vec4, q: Vec4, r: Vec4, s: Vec4): real {
    p.x * q.y * r.z * s.w - p.x * q.y * r.w * s.z - p.x * r.y * q.z * s.w
    + p.x * r.y * q.w * s.z + p.x * s.y * q.z * r.w - p.x * s.y * q.w * r.z
    - p.y * q.x * r.z * s.w + p.y * q.x * r.w * s.z + p.y * r.x * q.z * s.w
    - p.y * r.x * q.w * s.z - p.y * s.x * q.z * r.w + p.y * s.x * q.w * r.z
    + p.z * q.x * r.y * s.w - p.z * q.x * r.w * s.y - p.z * r.x * q.y * s.w
    + p.z * r.x * q.w * s.y + p.z * s.x * q.y * r.w - p.z * s.x * q.w * r.y
    - p.w * q.x * r.y * s.z + p.w * q.x * r.z * s.y + p.w * r.x * q.y * s.z
    - p.w * r.x * q.z * s.y - p.w * s.x * q.y * r.z + p.w * s.x * q.z * r.y
  }

  function VolumeOf(a: Mat): real { Volume(a.c0, a.c1, a.c2, a.c3) }

  lemma Det3Times(k: real, a: real, b: real, c: real, d: real, e: real, f: real, g: real, h: real, i: real)
    ensures k * Det3(a, b, c, d, e, f, g, h, i) ==
      k * a * e * i - k * a * f * h - k * d * b * i + k * d * c * h + k * g * b * f - k * g * c * e
  {}

  lemma DotCross(p: Vec4, q: Vec4, r: Vec4, s: Vec4)
    ensures Dot(p, Cross(q, r, s)) == Volume(p, q, r, s)
  {
    Det3Times(p.x, q.y, q.z, q.w, r.y, r.z, r.w, s.y, s.z, s.w);
    Det3Times(p.y, q.x, q.z, q.w, r.x, r.z, r.w, s.x, s.z, s.w);
    Det3Times(p.z, q.x, q.y, q.w, r.x, r.y, r.w, s.x, s.y, s.w);
    Det3Times(p.w, q.x, q.y, q.z, r.x, r.y, r.z, s.x, s.y, s.z);
  }

  lemma VolumeSwap01(p: Vec4, q: Vec4, r: Vec4, s: Vec4)
    ensures Volume(p, q, r, s) == -Volume(q, p, r, s)
  {}

  lemma VolumeSwap12(p: Vec4, q: Vec4, r: Vec4, s: Vec4)
    ensures Volume(p, q, r, s) == -Volume(p, r, q, s)
  {}

  lemma VolumeSwap23(p: Vec4, q: Vec4, r: Vec4, s: Vec4)
    ensures Volume(p, q, r, s) == -Volume(p, q, s, r)
  {}

  lemma VolumeRepeated(p: Vec4, q: Vec4, r: Vec4)
    ensures Volume(p, p, q, r) == Volume(p, q, p, r) == Volume(p, q, r, p) == 0.0
    ensures Volume(p, q, q, r) == Volume(p, q, r, q) == Volume(p, r, q, q) == 0.0
  {
    hide *;
    VolumeSwap01(p, p, q, r); VolumeSwap12(p, p, q, r); VolumeSwap23(p, q, p, r);
    VolumeSwap12(p, q, q, r); VolumeSwap23(p, q, q, r); VolumeSwap23(p, r, q, q);
  }

  // A combination of the columns of a in the first place.
  lemma VolumeApply(a: Mat, v: Vec4, q: Vec4, r: Vec4, s: Vec4)
    ensures Volume(Apply(a, v), q, r, s) ==
      v.x * Volume(a.c0, q, r, s) + v.y * Volume(a.c1, q, r, s) + v.z * Volume(a.c2, q, r, s)
        + v.w * Volume(a.c3, q, r, s)
  {
    hide *;
    DotApply(a, v, Cross(q, r, s));
    DotCross(Apply(a, v), q, r, s);
    DotCross(a.c0, q, r, s); DotCross(a.c1, q, r, s); DotCross(a.c2, q, r, s); DotCross(a.c3, q, r, s);
  }

  // Exchanging columns of a and entries of v alike changes nothing.
  function Swap01(v: Vec4): Vec4 { Vec4(v.y, v.x, v.z, v.w) }
  function Swap12(v: Vec4): Vec4 { Vec4(v.x, v.z, v.y, v.w) }
  function Swap23(v: Vec4): Vec4 { Vec4(v.x, v.y, v.w, v.z) }
  function SwapCols01(a: Mat): Mat { Mat(a.c1, a.c0, a.c2, a.c3) }
  function SwapCols12(a: Mat): Mat { Mat(a.c0, a.c2, a.c1, a.c3) }
  function SwapCols23(a: Mat): Mat { Mat(a.c0, a.c1, a.c3, a.c2) }

  lemma ApplySwap(a: Mat, v: Vec4)
    ensures Apply(SwapCols01(a), Swap01(v)) == Apply(a, v)
    ensures Apply(SwapCols12(a), Swap12(v)) == Apply(a, v)
    ensures Apply(SwapCols23(a), Swap23(v)) == Apply(a, v)
  {
    hide Apply, ScaleVec;
    ApplySum(a, v);
    ApplySum(SwapCols01(a), Swap01(v)); ApplySum(SwapCols12(a), Swap12(v)); ApplySum(SwapCols23(a), Swap23(v));
  }

  lemma VolumeSwap(a: Mat)
    ensures VolumeOf(SwapCols01(a)) == VolumeOf(SwapCols12(a)) == VolumeOf(SwapCols23(a)) == -VolumeOf(a)
  {
    hide Volume;
    VolumeSwap01(a.c0, a.c1, a.c2, a.c3); VolumeSwap12(a.c0, a.c1, a.c2, a.c3); VolumeSwap23(a.c0, a.c1, a.c2, a.c3);
  }

  // Combinations of the columns of a in the last two places, the last three, and all four.
  lemma Volume2(a: Mat, r: Vec4, s: Vec4)
    ensures Volume(a.c0, a.c1, Apply(a, r), Apply(a, s)) == (r.z * s.w - r.w * s.z) * VolumeOf(a)
  {
    hide Volume, Apply;
    var p, q, x, y := a.c0, a.c1, a.c2, a.c3;
    var ar, bs := Apply(a, r), Apply(a, s);
    VolumeSwap12(p, q, ar, bs); VolumeSwap01(p, ar, q, bs);
    VolumeApply(a, r, p, q, bs);
    VolumeRepeated(p, q, bs); VolumeRepeated(q, p, bs);
    VolumeSwap23(x, p, q, bs); VolumeSwap12(x, p, bs, q); VolumeSwap01(x, bs, p, q);
    VolumeApply(a, s, x, p, q);
    VolumeRepeated(p, x, q); VolumeRepeated(q, x, p); VolumeRepeated(x, p, q);
    VolumeSwap23(y, p, q, bs); VolumeSwap12(y, p, bs, q); VolumeSwap01(y, bs, p, q);
    VolumeApply(a, s, y, p, q);
    VolumeRepeated(p, y, q); VolumeRepeated(q, y, p); VolumeRepeated(y, p, q);
    VolumeSwap01(y, x, p, q); VolumeSwap12(x, y, p, q); VolumeSwap23(x, p, y, q);
    VolumeSwap01(x, p, q, y); VolumeSwap12(p, x, q, y);
  }

  lemma Expand3(q: Vec4, r: Vec4, s: Vec4, v: real)
    ensures Cross(q, r, s).x * v ==
      q.y * ((r.z * s.w - r.w * s.z) * v) - q.z * ((r.y * s.w - r.w * s.y) * v) + q.w * ((r.y * s.z - r.z * s.y) * v)
  {
    Det3Times(v, q.y, q.z, q.w, r.y, r.z, r.w, s.y, s.z, s.w);
  }

  lemma Volume3(a: Mat, q: Vec4, r: Vec4, s: Vec4)
    ensures Volume(a.c0, Apply(a, q), Apply(a, r), Apply(a, s)) == Cross(q, r, s).x * VolumeOf(a)
  {
    hide Volume, Apply, Cross;
    var aq, ar, bs := Apply(a, q), Apply(a, r), Apply(a, s);
    VolumeSwap01(a.c0, aq, ar, bs);
    VolumeApply(a, q, a.c0, ar, bs);
    VolumeRepeated(a.c0, ar, bs);
    VolumeSwap01(a.c1, a.c0, ar, bs); VolumeSwap01(a.c2, a.c0, ar, bs); VolumeSwap01(a.c3, a.c0, ar, bs);
    Volume2(a, r, s);
    ApplySwap(a, r); ApplySwap(a, s); VolumeSwap(a);
    Volume2(SwapCols12(a), Swap12(r), Swap12(s));
    var b, r', s' := SwapCols23(a), Swap23(r), Swap23(s);
    ApplySwap(b, r'); ApplySwap(b, s'); VolumeSwap(b);
    Volume2(SwapCols12(b), Swap12(r'), Swap12(s'));
    Expand3(q, r, s, VolumeOf(a));
  }

  lemma BothNegated(x: real, y: real, x': real, y': real)
    requires x' == -x && y' == -y
    ensures x' * y' == x * y
  {}

  // The same with the fixed column at each of the other places.
  lemma Volume3At1(a: Mat, q: Vec4, r: Vec4, s: Vec4)
    ensures Volume(a.c1, Apply(a, q), Apply(a, r), Apply(a, s)) == Cross(q, r, s).y * VolumeOf(a)
  {
    hide Volume, Apply;
    ApplySwap(a, q); ApplySwap(a, r); ApplySwap(a, s); VolumeSwap(a);
    Volume3(SwapCols01(a), Swap01(q), Swap01(r), Swap01(s));
    BothNegated(Cross(q, r, s).y, VolumeOf(a),
                Cross(Swap01(q), Swap01(r), Swap01(s)).x, VolumeOf(SwapCols01(a)));
  }

  lemma Volume3At2(a: Mat, q: Vec4, r: Vec4, s: Vec4)
    ensures Volume(a.c2, Apply(a, q), Apply(a, r), Apply(a, s)) == Cross(q, r, s).z * VolumeOf(a)
  {
    hide Volume, Apply;
    ApplySwap(a, q); ApplySwap(a, r); ApplySwap(a, s); VolumeSwap(a);
    Volume3At1(SwapCols12(a), Swap12(q), Swap12(r), Swap12(s));
    BothNegated(Cross(q, r, s).z, VolumeOf(a),
                Cross(Swap12(q), Swap12(r), Swap12(s)).y, VolumeOf(SwapCols12(a)));
  }

  lemma Volume3At3(a: Mat, q: Vec4, r: Vec4, s: Vec4)
    ensures Volume(a.c3, Apply(a, q), Apply(a, r), Apply(a, s)) == Cross(q, r, s).w * VolumeOf(a)
  {
    hide Volume, Apply;
    ApplySwap(a, q); ApplySwap(a, r); ApplySwap(a, s); VolumeSwap(a);
    Volume3At2(SwapCols23(a), Swap23(q), Swap23(r), Swap23(s));
    BothNegated(Cross(q, r, s).w, VolumeOf(a),
                Cross(Swap23(q), Swap23(r), Swap23(s)).z, VolumeOf(SwapCols23(a)));
  }

  lemma Expand4(p: Vec4, c: Vec4, v: real)
    ensures Dot(p, c) * v == p.x * (c.x * v) + p.y * (c.y * v) + p.z * (c.z * v) + p.w * (c.w * v)
  {}

  lemma Volume4(a: Mat, p: Vec4, q: Vec4, r: Vec4, s: Vec4)
    ensures Volume(Apply(a, p), Apply(a, q), Apply(a, r), Apply(a, s)) == Volume(p, q, r, s) * VolumeOf(a)
  {
    hide *;
    VolumeApply(a, p, Apply(a, q), Apply(a, r), Apply(a, s));
    Volume3(a, q, r, s); Volume3At1(a, q, r, s); Volume3At2(a, q, r, s); Volume3At3(a, q, r, s);
    Expand4(p, Cross(q, r, s), VolumeOf(a));
    DotCross(p, q, r, s);
  }

  // ---- invert ----

  function Neg(v: Vec4): Vec4 { Vec4(-v.x, -v.y, -v.z, -v.w) }

  lemma DotNeg(u: Vec4, v: Vec4)
    ensures Dot(Neg(u), v) == -Dot(u, v)
  {}

  lemma CofactorRow0(m: Mat)
    ensures Transpose(Cofactors(m)).c0 == Cross(m.c1, m.c2, m.c3)
  {}

  lemma CofactorRow1(m: Mat)
    ensures Transpose(Cofactors(m)).c1 == Neg(Cross(m.c0, m.c2, m.c3))
  {}

  lemma CofactorRow2(m: Mat)
    ensures Transpose(Cofactors(m)).c2 == Cross(m.c0, m.c1, m.c3)
  {}

  lemma CofactorRow3(m: Mat)
    ensures Transpose(Cofactors(m)).c3 == Neg(Cross(m.c0, m.c1, m.c2))
  {}

  lemma CofactorRows(m: Mat)
    ensures Transpose(Cofactors(m)) == Mat(
      Cross(m.c1, m.c2, m.c3), Neg(Cross(m.c0, m.c2, m.c3)), Cross(m.c0, m.c1, m.c3), Neg(Cross(m.c0, m.c1, m.c2)))
  {
    hide *;
    CofactorRow0(m); CofactorRow1(m); CofactorRow2(m); CofactorRow3(m);
  }

  lemma ApplyRows(a: Mat, v: Vec4)
    ensures var t := Transpose(a); Apply(a, v) == Vec4(Dot(t.c0, v), Dot(t.c1, v), Dot(t.c2, v), Dot(t.c3, v))
  {}

  lemma DotSym(u: Vec4, v: Vec4)
    ensures Dot(u, v) == Dot(v, u)
  {}

  // A row of the cofactors against a column of m is a volume of columns of m.
  lemma CofactorDots(m: Mat, v: Vec4)
    ensures Apply(Cofactors(m), v) == Vec4(
      Volume(v, m.c1, m.c2, m.c3), -Volume(v, m.c0, m.c2, m.c3), Volume(v, m.c0, m.c1, m.c3),
      -Volume(v, m.c0, m.c1, m.c2))
  {
    hide Apply, Cofactors, Volume, Dot, Cross, Neg;
    var x, y, z, w := Cross(m.c1, m.c2, m.c3), Cross(m.c0, m.c2, m.c3), Cross(m.c0, m.c1, m.c3),
      Cross(m.c0, m.c1, m.c2);
    CofactorRows(m); ApplyRows(Cofactors(m), v);
    DotSym(x, v); DotNeg(y, v); DotSym(y, v); DotSym(z, v); DotNeg(w, v); DotSym(w, v);
    DotCross(v, m.c1, m.c2, m.c3); DotCross(v, m.c0, m.c2, m.c3); DotCross(v, m.c0, m.c1, m.c3);
    DotCross(v, m.c0, m.c1, m.c2);
  }

  lemma DetIsVolume(m: Mat)
    ensures Det(m) == VolumeOf(m)
  {
    hide Cofactors, Volume, Cross, Neg;
    CofactorRows(m);
    DotCross(m.c0, m.c1, m.c2, m.c3);
  }

  // The determinant that invert divides by is multiplicative.
  lemma DetMul(a: Mat, b: Mat)
    ensures Det(Mul(a, b)) == Det(a) * Det(b)
  {
    hide Det, Mul, Apply, Volume;
    MulCols(a, b);
    DetIsVolume(a); DetIsVolume(b); DetIsVolume(Mul(a, b));
    Volume4(a, b.c0, b.c1, b.c2, b.c3);
  }

  lemma DetIdentity()
    ensures Det(Identity()) == 1.0
  {
    hide Cofactors, Det;
    DetIsVolume(Identity());
  }

  lemma LeftAdjugate(m: Mat)
    ensures Mul(Cofactors(m), m) == Scale(Identity(), Det(m))
  {
    hide Cofactors, Det, Mul, Apply, Volume;
    var p, q, r, s := m.c0, m.c1, m.c2, m.c3;
    MulCols(Cofactors(m), m);
    DetIsVolume(m);
    CofactorDots(m, p); CofactorDots(m, q); CofactorDots(m, r); CofactorDots(m, s);
    VolumeRepeated(p, r, s); VolumeRepeated(p, q, s); VolumeRepeated(p, q, r);
    VolumeRepeated(q, r, s); VolumeRepeated(q, p, s); VolumeRepeated(q, p, r);
    VolumeRepeated(r, q, s); VolumeRepeated(r, p, s); VolumeRepeated(r, p, q);
    VolumeRepeated(s, q, r); VolumeRepeated(s, p, r); VolumeRepeated(s, p, q);
    VolumeSwap01(q, p, r, s);
    VolumeSwap01(r, p, q, s); VolumeSwap12(p, r, q, s);
    VolumeSwap01(s, p, q, r); VolumeSwap12(p, s, q, r); VolumeSwap23(p, q, s, r);
    assert m == Mat(p, q, r, s);
    var d := Det(m);
    assert Scale(Identity(), d) == Mat(
      Vec4(d, 0.0, 0.0, 0.0), Vec4(0.0, d, 0.0, 0.0), Vec4(0.0, 0.0, d, 0.0), Vec4(0.0, 0.0, 0.0, d));
  }

  lemma ScaleByReciprocal(d: real)
    requires d != 0.0
    ensures Scale(Scale(Identity(), d), 1.0 / d) == Identity()
  {
    assert d * (1.0 / d) == 1.0;
  }

  lemma InverseLeft(m: Mat)
    requires Det(m) != 0.0
    ensures Mul(Inverse(m), m) == Identity()
  {
    hide Det, Cofactors, Mul, Scale, Identity;
    LeftAdjugate(m);
    MulScale(Cofactors(m), 1.0 / Det(m), m);
    ScaleByReciprocal(Det(m));
  }

  // A left inverse is the inverse, and there is one exactly when the determinant is not zero.
  lemma LeftInverseUnique(n: Mat, m: Mat)
    requires Mul(n, m) == Identity()
    ensures Det(m) != 0.0 && n == Inverse(m)
    ensures Mul(m, n) == Identity()
  {
    hide *;
    DetMul(n, m); DetIdentity();
    InverseLeft(n);
    var l := Inverse(n);
    MulAssoc(l, n, m); MulIdentity(l); MulIdentity(m);
    InverseLeft(m);
    MulAssoc(Inverse(m), m, n); MulIdentity(n); MulIdentity(Inverse(m));
  }

  lemma InverseCorrect(m: Mat)
    ensures Det(m) != 0.0 ==> Mul(Inverse(m), m) == Mul(m, Inverse(m)) == Identity()
    ensures Det(m) == 0.0 ==> Inverse(m) == Identity()
    ensures (exists n :: Mul(n, m) == Identity()) <==> Det(m) != 0.0
  {
    hide Det, Cofactors, Mul, Scale, Identity;
    if Det(m) != 0.0 {
      InverseLeft(m);
      LeftInverseUnique(Inverse(m), m);
    }
    if n :| Mul(n, m) == Identity() {
      LeftInverseUnique(n, m);
    }
  }

  lemma InverseOfProduct(a: Mat, b: Mat)
    requires Det(a) != 0.0 && Det(b) != 0.0
    ensures Inverse(Mul(a, b)) == Mul(Inverse(b), Inverse(a))
  {
    hide *;
    var ia, ib := Inverse(a), Inverse(b);
    InverseLeft(a); InverseLeft(b);
    MulAssoc(Mul(ib, ia), a, b); MulAssoc(ib, ia, a); MulIdentity(ib);
    LeftInverseUnique(Mul(ib, ia), Mul(a, b));
  }

  lemma InverseInvolution(m: Mat)
    requires Det(m) != 0.0
    ensures Det(Inverse(m)) * Det(m) == 1.0
    ensures Inverse(Inverse(m)) == m
  {
    hide *;
    InverseLeft(m);
    DetMul(Inverse(m), m); DetIdentity();
    LeftInverseUnique(Inverse(m), m);
    LeftInverseUnique(m, Inverse(m));
  }
}
