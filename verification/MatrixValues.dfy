/** Matrix.cpp over exact reals: the value of a Matrix4 and the operators on it. */
module MatrixValues {
  datatype Vec4 = Vec4(x: real, y: real, z: real, w: real)

  // The value of a Matrix4. The array data is column-major: column j is data[4 * j .. 4 * j + 4].
  datatype Mat = Mat(c0: Vec4, c1: Vec4, c2: Vec4, c3: Vec4)

  // The sixteen-argument constructor, which takes its arguments row by row.
  function Rows(
    m00: real, m01: real, m02: real, m03: real,
    m10: real, m11: real, m12: real, m13: real,
    m20: real, m21: real, m22: real, m23: real,
    m30: real, m31: real, m32: real, m33: real): Mat
  {
    Mat(Vec4(m00, m10, m20, m30), Vec4(m01, m11, m21, m31), Vec4(m02, m12, m22, m32), Vec4(m03, m13, m23, m33))
  }

  function Identity(): Mat {
    Rows(1.0, 0.0, 0.0, 0.0, 0.0, 1.0, 0.0, 0.0, 0.0, 0.0, 1.0, 0.0, 0.0, 0.0, 0.0, 1.0)
  }

  function Transpose(m: Mat): Mat {
    Rows(m.c0.x, m.c0.y, m.c0.z, m.c0.w, m.c1.x, m.c1.y, m.c1.z, m.c1.w,
         m.c2.x, m.c2.y, m.c2.z, m.c2.w, m.c3.x, m.c3.y, m.c3.z, m.c3.w)
  }

  function Mul(a: Mat, b: Mat): Mat {
    Rows(
      a.c0.x * b.c0.x + a.c1.x * b.c0.y + a.c2.x * b.c0.z + a.c3.x * b.c0.w,
      a.c0.x * b.c1.x + a.c1.x * b.c1.y + a.c2.x * b.c1.z + a.c3.x * b.c1.w,
      a.c0.x * b.c2.x + a.c1.x * b.c2.y + a.c2.x * b.c2.z + a.c3.x * b.c2.w,
      a.c0.x * b.c3.x + a.c1.x * b.c3.y + a.c2.x * b.c3.z + a.c3.x * b.c3.w,
      a.c0.y * b.c0.x + a.c1.y * b.c0.y + a.c2.y * b.c0.z + a.c3.y * b.c0.w,
      a.c0.y * b.c1.x + a.c1.y * b.c1.y + a.c2.y * b.c1.z + a.c3.y * b.c1.w,
      a.c0.y * b.c2.x + a.c1.y * b.c2.y + a.c2.y * b.c2.z + a.c3.y * b.c2.w,
      a.c0.y * b.c3.x + a.c1.y * b.c3.y + a.c2.y * b.c3.z + a.c3.y * b.c3.w,
      a.c0.z * b.c0.x + a.c1.z * b.c0.y + a.c2.z * b.c0.z + a.c3.z * b.c0.w,
      a.c0.z * b.c1.x + a.c1.z * b.c1.y + a.c2.z * b.c1.z + a.c3.z * b.c1.w,
      a.c0.z * b.c2.x + a.c1.z * b.c2.y + a.c2.z * b.c2.z + a.c3.z * b.c2.w,
      a.c0.z * b.c3.x + a.c1.z * b.c3.y + a.c2.z * b.c3.z + a.c3.z * b.c3.w,
      a.c0.w * b.c0.x + a.c1.w * b.c0.y + a.c2.w * b.c0.z + a.c3.w * b.c0.w,
      a.c0.w * b.c1.x + a.c1.w * b.c1.y + a.c2.w * b.c1.z + a.c3.w * b.c1.w,
      a.c0.w * b.c2.x + a.c1.w * b.c2.y + a.c2.w * b.c2.z + a.c3.w * b.c2.w,
      a.c0.w * b.c3.x + a.c1.w * b.c3.y + a.c2.w * b.c3.z + a.c3.w * b.c3.w)
  }

  function Apply(a: Mat, b: Vec4): Vec4 {
    Vec4(a.c0.x * b.x + a.c1.x * b.y + a.c2.x * b.z + a.c3.x * b.w,
         a.c0.y * b.x + a.c1.y * b.y + a.c2.y * b.z + a.c3.y * b.w,
         a.c0.z * b.x + a.c1.z * b.y + a.c2.z * b.z + a.c3.z * b.w,
         a.c0.w * b.x + a.c1.w * b.y + a.c2.w * b.z + a.c3.w * b.w)
  }

  function ScaleVec(v: Vec4, k: real): Vec4 { Vec4(v.x * k, v.y * k, v.z * k, v.w * k) }

  function Scale(m: Mat, k: real): Mat {
    Mat(ScaleVec(m.c0, k), ScaleVec(m.c1, k), ScaleVec(m.c2, k), ScaleVec(m.c3, k))
  }

  // The cofactor list that invert builds before it divides by the determinant.
  function Cofactors(m: Mat): Mat {
    Rows(
      m.c1.y * m.c2.z * m.c3.w - m.c1.y * m.c2.w * m.c3.z - m.c2.y * m.c1.z * m.c3.w + m.c2.y * m.c1.w * m.c3.z
        + m.c3.y * m.c1.z * m.c2.w - m.c3.y * m.c1.w * m.c2.z,
      -m.c1.x * m.c2.z * m.c3.w + m.c1.x * m.c2.w * m.c3.z + m.c2.x * m.c1.z * m.c3.w - m.c2.x * m.c1.w * m.c3.z
        - m.c3.x * m.c1.z * m.c2.w + m.c3.x * m.c1.w * m.c2.z,
      m.c1.x * m.c2.y * m.c3.w - m.c1.x * m.c2.w * m.c3.y - m.c2.x * m.c1.y * m.c3.w + m.c2.x * m.c1.w * m.c3.y
        + m.c3.x * m.c1.y * m.c2.w - m.c3.x * m.c1.w * m.c2.y,
      -m.c1.x * m.c2.y * m.c3.z + m.c1.x * m.c2.z * m.c3.y + m.c2.x * m.c1.y * m.c3.z - m.c2.x * m.c1.z * m.c3.y
        - m.c3.x * m.c1.y * m.c2.z + m.c3.x * m.c1.z * m.c2.y,
      -m.c0.y * m.c2.z * m.c3.w + m.c0.y * m.c2.w * m.c3.z + m.c2.y * m.c0.z * m.c3.w - m.c2.y * m.c0.w * m.c3.z
        - m.c3.y * m.c0.z * m.c2.w + m.c3.y * m.c0.w * m.c2.z,
      m.c0.x * m.c2.z * m.c3.w - m.c0.x * m.c2.w * m.c3.z - m.c2.x * m.c0.z * m.c3.w + m.c2.x * m.c0.w * m.c3.z
        + m.c3.x * m.c0.z * m.c2.w - m.c3.x * m.c0.w * m.c2.z,
      -m.c0.x * m.c2.y * m.c3.w + m.c0.x * m.c2.w * m.c3.y + m.c2.x * m.c0.y * m.c3.w - m.c2.x * m.c0.w * m.c3.y
        - m.c3.x * m.c0.y * m.c2.w + m.c3.x * m.c0.w * m.c2.y,
      m.c0.x * m.c2.y * m.c3.z - m.c0.x * m.c2.z * m.c3.y - m.c2.x * m.c0.y * m.c3.z + m.c2.x * m.c0.z * m.c3.y
        + m.c3.x * m.c0.y * m.c2.z - m.c3.x * m.c0.z * m.c2.y,
      m.c0.y * m.c1.z * m.c3.w - m.c0.y * m.c1.w * m.c3.z - m.c1.y * m.c0.z * m.c3.w + m.c1.y * m.c0.w * m.c3.z
        + m.c3.y * m.c0.z * m.c1.w - m.c3.y * m.c0.w * m.c1.z,
      -m.c0.x * m.c1.z * m.c3.w + m.c0.x * m.c1.w * m.c3.z + m.c1.x * m.c0.z * m.c3.w - m.c1.x * m.c0.w * m.c3.z
        - m.c3.x * m.c0.z * m.c1.w + m.c3.x * m.c0.w * m.c1.z,
      m.c0.x * m.c1.y * m.c3.w - m.c0.x * m.c1.w * m.c3.y - m.c1.x * m.c0.y * m.c3.w + m.c1.x * m.c0.w * m.c3.y
        + m.c3.x * m.c0.y * m.c1.w - m.c3.x * m.c0.w * m.c1.y,
      -m.c0.x * m.c1.y * m.c3.z + m.c0.x * m.c1.z * m.c3.y + m.c1.x * m.c0.y * m.c3.z - m.c1.x * m.c0.z * m.c3.y
        - m.c3.x * m.c0.y * m.c1.z + m.c3.x * m.c0.z * m.c1.y,
      -m.c0.y * m.c1.z * m.c2.w + m.c0.y * m.c1.w * m.c2.z + m.c1.y * m.c0.z * m.c2.w - m.c1.y * m.c0.w * m.c2.z
        - m.c2.y * m.c0.z * m.c1.w + m.c2.y * m.c0.w * m.c1.z,
      m.c0.x * m.c1.z * m.c2.w - m.c0.x * m.c1.w * m.c2.z - m.c1.x * m.c0.z * m.c2.w + m.c1.x * m.c0.w * m.c2.z
        + m.c2.x * m.c0.z * m.c1.w - m.c2.x * m.c0.w * m.c1.z,
      -m.c0.x * m.c1.y * m.c2.w + m.c0.x * m.c1.w * m.c2.y + m.c1.x * m.c0.y * m.c2.w - m.c1.x * m.c0.w * m.c2.y
        - m.c2.x * m.c0.y * m.c1.w + m.c2.x * m.c0.w * m.c1.y,
      m.c0.x * m.c1.y * m.c2.z - m.c0.x * m.c1.z * m.c2.y - m.c1.x * m.c0.y * m.c2.z + m.c1.x * m.c0.z * m.c2.y
        + m.c2.x * m.c0.y * m.c1.z - m.c2.x * m.c0.z * m.c1.y)
  }

  function Det(m: Mat): real {
    var c := Cofactors(m);
    m.c0.x * c.c0.x + m.c0.y * c.c1.x + m.c0.z * c.c2.x + m.c0.w * c.c3.x
  }

  function Inverse(m: Mat): Mat {
    if Det(m) != 0.0 then Scale(Cofactors(m), 1.0 / Det(m)) else Identity()
  }
}
