/** The mutable Matrix4 object: sixteen numbers updated in place. */
module MatrixObject {
  import opened MatrixValues
  import opened MatrixInverse

  function FromData(s: seq<real>): Mat
    requires |s| == 16
  {
    Mat(Vec4(s[0], s[1], s[2], s[3]), Vec4(s[4], s[5], s[6], s[7]),
        Vec4(s[8], s[9], s[10], s[11]), Vec4(s[12], s[13], s[14], s[15]))
  }

  lemma DataDiffers(s: seq<real>, t: seq<real>, i: nat)
    requires |s| == |t| == 16 && i < 16 && s[i] != t[i]
    ensures FromData(s) != FromData(t)
  {}

  lemma ScaledData(s: seq<real>, t: seq<real>, k: real)
    requires |s| == |t| == 16
    requires forall j :: 0 <= j < 16 ==> t[j] == s[j] * k
    ensures FromData(t) == Scale(FromData(s), k)
  {
    hide ScaleVec;
    ScaledColumn(s[0], s[1], s[2], s[3], k, Vec4(t[0], t[1], t[2], t[3]));
    ScaledColumn(s[4], s[5], s[6], s[7], k, Vec4(t[4], t[5], t[6], t[7]));
    ScaledColumn(s[8], s[9], s[10], s[11], k, Vec4(t[8], t[9], t[10], t[11]));
    ScaledColumn(s[12], s[13], s[14], s[15], k, Vec4(t[12], t[13], t[14], t[15]));
  }

  lemma ScaledColumn(a: real, b: real, c: real, d: real, k: real, v: Vec4)
    requires v.x == a * k && v.y == b * k && v.z == c * k && v.w == d * k
    ensures v == ScaleVec(Vec4(a, b, c, d), k)
  {}

  class Matrix4 {
    const data: array<real>

    ghost predicate Valid() { data.Length == 16 }

    function Value(): Mat
      requires Valid()
      reads data
    {
      FromData(data[..])
    }

    constructor Of(m: Mat)
      ensures Valid() && fresh(data)
      ensures Value() == m
    {
      data := new real[][m.c0.x, m.c0.y, m.c0.z, m.c0.w, m.c1.x, m.c1.y, m.c1.z, m.c1.w,
                         m.c2.x, m.c2.y, m.c2.z, m.c2.w, m.c3.x, m.c3.y, m.c3.z, m.c3.w];
    }

    // a *= k
    method ScaleInPlace(k: real)
      requires Valid()
      modifies data
      ensures Value() == Scale(old(Value()), k)
    {
      hide Scale, FromData;
      ghost var before := data[..];
      var i := 0;
      while i < 16
        invariant 0 <= i <= 16
        invariant forall j :: 0 <= j < i ==> data[j] == before[j] * k
        invariant forall j :: i <= j < 16 ==> data[j] == before[j]
      {
        data[i] := data[i] * k;
        i := i + 1;
      }
      ScaledData(before, data[..], k);
    }

    // a *= b
    method MulInPlace(b: Matrix4)
      requires Valid() && b.Valid()
      modifies data
      ensures Value() == Mul(old(Value()), old(b.Value()))
    {
      var m := new Matrix4.Of(Mul(Value(), b.Value()));
      forall i | 0 <= i < 16 { data[i] := m.data[i]; }
      assert data[..] == m.data[..];
    }

    // a == b
    method Equals(b: Matrix4) returns (same: bool)
      requires Valid() && b.Valid()
      ensures same <==> Value() == b.Value()
    {
      var i := 0;
      while i < 16
        invariant 0 <= i <= 16
        invariant forall j :: 0 <= j < i ==> data[j] == b.data[j]
      {
        if data[i] != b.data[i] {
          DataDiffers(data[..], b.data[..], i);
          return false;
        }
        i := i + 1;
      }
      return true;
    }

    static method Invert(mat: Matrix4) returns (inverted: Matrix4)
      requires mat.Valid()
      ensures inverted.Valid() && fresh(inverted) && fresh(inverted.data)
      ensures inverted.Value() == Inverse(mat.Value())
      ensures Det(mat.Value()) != 0.0 ==>
        Mul(mat.Value(), inverted.Value()) == Mul(inverted.Value(), mat.Value()) == Identity()
    {
      var m := mat.Value();
      inverted := new Matrix4.Of(Cofactors(m));
      var determinant := mat.data[0] * inverted.data[0] + mat.data[1] * inverted.data[4]
                       + mat.data[2] * inverted.data[8] + mat.data[3] * inverted.data[12];
      assert determinant == Det(m);
      if determinant != 0.0 {
        inverted.ScaleInPlace(1.0 / determinant);
      } else {
        inverted := new Matrix4.Of(Identity());
      }
      InverseCorrect(m);
    }
  }
}
