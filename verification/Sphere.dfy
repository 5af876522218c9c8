/** CreateSphereGeometry of util/geometry_utils.cpp: a sphere as a grid of vertices and two triangles for each of its
    cells. */
module Sphere {
  import opened Arithmetic

  datatype Vec3 = Vec3(x: real, y: real, z: real)

  // A place in the grid.
  datatype Corner = Corner(row: int, col: int)

  function Rows(slices: nat): nat { slices / 2 }

  function VertexCount(slices: nat): nat { (Rows(slices) + 1) * (slices + 1) }

  function IndexCount(slices: nat): nat { Rows(slices) * slices * 6 }

  function Vertex(slices: nat, c: Corner): int { c.row * (slices + 1) + c.col }

  ghost predicate InGrid(slices: nat, c: Corner) { 0 <= c.row <= Rows(slices) && 0 <= c.col <= slices }

  // The six corners of the triangles of the cell with its first corner at (i, j).
  function CellCorner(i: int, j: int, k: int): Corner {
    match k
    case 0 => Corner(i, j)
    case 1 => Corner(i + 1, j)
    case 2 => Corner(i + 1, j + 1)
    case 3 => Corner(i, j)
    case 4 => Corner(i + 1, j + 1)
    case _ => Corner(i, j + 1)
  }

  // The corner whose vertex is the nth index.
  function CornerOf(slices: nat, n: nat): Corner
    requires slices > 0
  {
    CellCorner(n / 6 / slices, n / 6 % slices, n % 6)
  }

  const USHORT := 65536

  // static_cast<unsigned short>
  function Ushort(v: int): int { v % USHORT }

  // ---- Rows and columns ----

  // Different places have different vertices, and all are within the array.
  lemma VertexInRange(slices: nat, c: Corner)
    requires InGrid(slices, c)
    ensures 0 <= Vertex(slices, c) < VertexCount(slices)
  {
    MulMono(c.row, Rows(slices), slices + 1);
    MulMono(0, c.row, slices + 1);
  }

  lemma VertexInjective(slices: nat, c: Corner, d: Corner)
    requires InGrid(slices, c) && InGrid(slices, d) && Vertex(slices, c) == Vertex(slices, d)
    ensures c == d
  {
    DivMod(c.row, c.col, slices + 1);
    DivMod(d.row, d.col, slices + 1);
  }

  // An index number is a cell and one of its six corners.
  lemma CellOf(slices: nat, n: nat)
    requires n < IndexCount(slices)
    ensures slices > 0
    ensures 0 <= n / 6 / slices < Rows(slices) && 0 <= n / 6 % slices < slices
    ensures n == 6 * (n / 6 / slices * slices + n / 6 % slices) + n % 6
    ensures InGrid(slices, CornerOf(slices, n))
  {
    var q := n / 6;
    assert q < Rows(slices) * slices;
    DivModOf(q, slices);
    MulMono(Rows(slices), q / slices, slices);
  }

  lemma IndexOfCell(slices: nat, i: int, j: int, k: int)
    requires 0 <= i < Rows(slices) && 0 <= j < slices && 0 <= k < 6
    ensures 0 <= 6 * (i * slices + j) + k < IndexCount(slices)
    ensures slices > 0 && CornerOf(slices, 6 * (i * slices + j) + k) == CellCorner(i, j, k)
  {
    MulMono(0, i, slices);
    MulMono(i + 1, Rows(slices), slices);
    DivMod(i, j, slices);
    var q := i * slices + j;
    assert (6 * q + k) / 6 == q && (6 * q + k) % 6 == k;
  }

  // ---- The edges ----

  datatype Edge = Edge(start: Corner, end: Corner)
  {
    function Reverse(): Edge { Edge(end, start) }

    // Both ends on the same side of the grid.
    ghost predicate OnBoundary(slices: nat) {
      || (start.row == 0 && end.row == 0) || (start.row == Rows(slices) && end.row == Rows(slices))
      || (start.col == 0 && end.col == 0) || (start.col == slices && end.col == slices)
    }
  }

  // The index after n in its triangle.
  function Next(n: nat): nat { n - n % 3 + (n + 1) % 3 }

  // The edge from the nth index.
  function EdgeOf(slices: nat, n: nat): Edge
    requires slices > 0
  {
    Edge(CornerOf(slices, n), CornerOf(slices, Next(n)))
  }

  function CellEdge(i: int, j: int, k: int): Edge
    requires 0 <= k < 6
  {
    Edge(CellCorner(i, j, k), CellCorner(i, j, Next(k)))
  }

  lemma NextOfEach(k: int)
    requires 0 <= k < 6
    ensures Next(k) == if k == 2 then 0 else if k == 5 then 3 else k + 1
  {}

  lemma NextInCell(q: nat, k: nat)
    requires k < 6
    ensures Next(6 * q + k) == 6 * q + Next(k) && Next(k) < 6
  {
    assert 6 * q + k == 3 * (2 * q) + k;
  }

  lemma EdgeOfCell(slices: nat, n: nat)
    requires n < IndexCount(slices)
    ensures slices > 0 && EdgeOf(slices, n) == CellEdge(n / 6 / slices, n / 6 % slices, n % 6)
    ensures Next(n) < IndexCount(slices)
  {
    CellOf(slices, n);
    EdgeAt(slices, n / 6 / slices, n / 6 % slices, n % 6);
  }

  lemma EdgeAt(slices: nat, i: int, j: int, k: int)
    requires 0 <= i < Rows(slices) && 0 <= j < slices && 0 <= k < 6
    ensures var n := 6 * (i * slices + j) + k;
            && 0 <= n < IndexCount(slices) && Next(n) < IndexCount(slices)
            && slices > 0 && EdgeOf(slices, n) == CellEdge(i, j, k)
  {
    IndexOfCell(slices, i, j, k);
    MulMono(0, i, slices);
    NextInCell(i * slices + j, k);
    IndexOfCell(slices, i, j, Next(k));
    hide CornerOf, IndexCount, Next;
  }

  // The six edges of a cell point in different directions, so an edge tells its cell.
  lemma CellEdgeInjective(i: int, j: int, k: int, i': int, j': int, k': int)
    requires 0 <= k < 6 && 0 <= k' < 6 && CellEdge(i, j, k) == CellEdge(i', j', k')
    ensures i == i' && j == j' && k == k'
  {
    NextOfEach(k);
    NextOfEach(k');
    hide Next;
  }

  // No edge is there twice in the same direction.
  lemma EdgesDiffer(slices: nat, n: nat, m: nat)
    requires n < IndexCount(slices) && m < IndexCount(slices)
    ensures slices > 0 && (EdgeOf(slices, n) == EdgeOf(slices, m) ==> n == m)
  {
    EdgeOfCell(slices, n);
    EdgeOfCell(slices, m);
    CellOf(slices, n);
    CellOf(slices, m);
    if EdgeOf(slices, n) == EdgeOf(slices, m) {
      CellEdgeInjective(n / 6 / slices, n / 6 % slices, n % 6, m / 6 / slices, m / 6 % slices, m % 6);
    }
  }

  // The cell and corner that hold an edge the other way round.
  function Twin(i: int, j: int, k: int): (int, int, int)
    requires 0 <= k < 6
  {
    match k
    case 0 => (i, j - 1, 4)
    case 1 => (i + 1, j, 5)
    case 2 => (i, j, 3)
    case 3 => (i, j, 2)
    case 4 => (i, j + 1, 0)
    case _ => (i - 1, j, 1)
  }

  lemma TwinIsCell(i: int, j: int, k: int)
    requires 0 <= k < 6
    ensures 0 <= Twin(i, j, k).2 < 6
  {}

  lemma TwinReverses(i: int, j: int, k: int)
    requires 0 <= k < 6
    ensures 0 <= Twin(i, j, k).2 < 6
    ensures var t := Twin(i, j, k); CellEdge(t.0, t.1, t.2) == CellEdge(i, j, k).Reverse()
  {
    NextOfEach(k);
    NextOfEach(Twin(i, j, k).2);
    hide Next;
  }

  lemma TwinInGridIff(slices: nat, i: int, j: int, k: int)
    requires 0 <= i < Rows(slices) && 0 <= j < slices && 0 <= k < 6
    ensures var t := Twin(i, j, k);
            (0 <= t.0 < Rows(slices) && 0 <= t.1 < slices) <==> !CellEdge(i, j, k).OnBoundary(slices)
  {}

  ghost predicate IsReverse(slices: nat, n: nat, m: nat) {
    n < IndexCount(slices) && m < IndexCount(slices) && slices > 0 && EdgeOf(slices, m) == EdgeOf(slices, n).Reverse()
  }

  // An edge is there the other way round too, and then once, unless it lies on the boundary of the grid.
  lemma ReverseIff(slices: nat, n: nat)
    requires n < IndexCount(slices)
    ensures slices > 0
    ensures (exists m :: IsReverse(slices, n, m)) <==> !EdgeOf(slices, n).OnBoundary(slices)
    ensures forall m, m' :: IsReverse(slices, n, m) && IsReverse(slices, n, m') ==> m == m'
  {
    CellOf(slices, n);
    hide IsReverse;
    if !EdgeOf(slices, n).OnBoundary(slices) { ReverseInside(slices, n); }
    if m :| IsReverse(slices, n, m) { ReverseIsInside(slices, n, m); }
    forall m, m' | IsReverse(slices, n, m) && IsReverse(slices, n, m') ensures m == m' { OneReverse(slices, n, m, m'); }
  }

  lemma ReverseInside(slices: nat, n: nat)
    requires n < IndexCount(slices) && slices > 0 && !EdgeOf(slices, n).OnBoundary(slices)
    ensures exists m :: IsReverse(slices, n, m)
  {
    CellOf(slices, n);
    EdgeOfCell(slices, n);
    hide EdgeOf, IndexCount, CellEdge, Twin, Rows, Edge.OnBoundary;
    var i, j, k := n / 6 / slices, n / 6 % slices, n % 6;
    var t := Twin(i, j, k);
    TwinIsCell(i, j, k);
    TwinReverses(i, j, k);
    TwinInGridIff(slices, i, j, k);
    EdgeAt(slices, t.0, t.1, t.2);
    assert IsReverse(slices, n, 6 * (t.0 * slices + t.1) + t.2);
  }

  lemma ReverseIsInside(slices: nat, n: nat, m: nat)
    requires IsReverse(slices, n, m)
    ensures !EdgeOf(slices, n).OnBoundary(slices)
  {
    CellOf(slices, n);
    EdgeOfCell(slices, n);
    CellOf(slices, m);
    EdgeOfCell(slices, m);
    hide EdgeOf, IndexCount, CellEdge, Twin, Rows, Edge.OnBoundary;
    var i, j, k := n / 6 / slices, n / 6 % slices, n % 6;
    var t := Twin(i, j, k);
    TwinIsCell(i, j, k);
    TwinReverses(i, j, k);
    CellEdgeInjective(t.0, t.1, t.2, m / 6 / slices, m / 6 % slices, m % 6);
    TwinInGridIff(slices, i, j, k);
  }

  lemma OneReverse(slices: nat, n: nat, m: nat, m': nat)
    requires IsReverse(slices, n, m) && IsReverse(slices, n, m')
    ensures m == m'
  {
    EdgesDiffer(slices, m, m');
  }

  // ---- 16 bits ----

  // The casts keep every index exactly when there are at most 361 slices.
  lemma CastsLosslessIff(slices: nat)
    ensures (forall n :: 0 <= n < IndexCount(slices) ==> Fits(slices, n)) <==> slices <= 361
  {
    hide Fits, IndexCount;
    if slices <= 361 {
      forall n | 0 <= n < IndexCount(slices) ensures Fits(slices, n) { FewFit(slices, n); }
    } else {
      var n := TooMany(slices);
      assert !Fits(slices, n);
    }
  }

  lemma FewFit(slices: nat, n: nat)
    requires slices <= 361 && n < IndexCount(slices)
    ensures Fits(slices, n)
  {
    CellOf(slices, n);
    VertexInRange(slices, CornerOf(slices, n));
    hide CornerOf, Vertex, IndexCount;
    FewVertices(slices);
  }

  lemma FewVertices(slices: nat)
    requires slices <= 361
    ensures VertexCount(slices) <= USHORT
  {
    MulMono(Rows(slices) + 1, 181, slices + 1);
    MulMono(slices + 1, 362, 181);
  }

  // The last vertex.
  lemma TooMany(slices: nat) returns (n: nat)
    requires slices > 361
    ensures n < IndexCount(slices) && !Fits(slices, n)
  {
    var i, j := Rows(slices) - 1, slices - 1;
    IndexOfCell(slices, i, j, 2);
    n := 6 * (i * slices + j) + 2;
    assert CornerOf(slices, n) == Corner(Rows(slices), slices);
    hide CornerOf, IndexCount;
    MulMono(181, Rows(slices), slices + 1);
  }

  ghost predicate Fits(slices: nat, n: nat) {
    slices > 0 && Ushort(Vertex(slices, CornerOf(slices, n))) == Vertex(slices, CornerOf(slices, n))
  }

  // ---- CreateSphereGeometry ----

  // The sine and cosine of each multiple of the angle step.
  datatype Angles = Angles(sine: nat -> real, cosine: nat -> real)
  {
    ghost predicate Valid() { forall k :: sine(k) * sine(k) + cosine(k) * cosine(k) == 1.0 }
  }

  function Direction(a: Angles, i: nat, j: nat): Vec3 {
    Vec3(a.sine(i) * a.sine(j), a.cosine(i), a.sine(i) * a.cosine(j))
  }

  function Scaled(v: Vec3, r: real): Vec3 { Vec3(v.x * r, v.y * r, v.z * r) }

  function Dot(u: Vec3, v: Vec3): real { u.x * v.x + u.y * v.y + u.z * v.z }

  // Every normal has length one, and every position lies on the sphere.
  lemma OnSphere(a: Angles, i: nat, j: nat, r: real)
    requires a.Valid()
    ensures Dot(Direction(a, i, j), Direction(a, i, j)) == 1.0
    ensures Dot(Scaled(Direction(a, i, j), r), Scaled(Direction(a, i, j), r)) == r * r
  {
    UnitLength(a.sine(i), a.cosine(i), a.sine(j), a.cosine(j));
    ScaledLength(a.sine(i) * a.sine(j), a.cosine(i), a.sine(i) * a.cosine(j), r);
  }

  // The first row is the pole on the y axis, and the first column the meridian that leads down from it over the z axis.
  lemma PoleAndMeridian(a: Angles, k: nat)
    requires a.sine(0) == 0.0 && a.cosine(0) == 1.0
    ensures Direction(a, 0, k) == Vec3(0.0, 1.0, 0.0) && Direction(a, k, 0) == Vec3(0.0, a.cosine(k), a.sine(k))
  {}

  lemma UnitLength(s: real, c: real, t: real, d: real)
    requires s * s + c * c == 1.0 && t * t + d * d == 1.0
    ensures (s * t) * (s * t) + c * c + (s * d) * (s * d) == 1.0
  {
    assert (s * t) * (s * t) + (s * d) * (s * d) == (s * s) * (t * t + d * d);
  }

  lemma ScaledLength(x: real, y: real, z: real, r: real)
    ensures (x * r) * (x * r) + (y * r) * (y * r) + (z * r) * (z * r) == (x * x + y * y + z * z) * (r * r)
  {}

  // ---- Which way the triangles face ----

  // Six times the volume of the tetrahedron from the origin: positive if u, v and w run counterclockwise seen from
  // outside.
  function Volume(u: Vec3, v: Vec3, w: Vec3): real {
    u.x * (v.y * w.z - v.z * w.y) + u.y * (v.z * w.x - v.x * w.z) + u.z * (v.x * w.y - v.y * w.x)
  }

  function AtCorner(a: Angles, c: Corner): Vec3
    requires c.row >= 0 && c.col >= 0
  {
    Direction(a, c.row, c.col)
  }

  // The sine of the step from one multiple of the angle to the next.
  function StepSine(a: Angles, k: nat): real { a.sine(k + 1) * a.cosine(k) - a.cosine(k + 1) * a.sine(k) }

  // With s and c for the sine and cosine of an angle down, and t and d for one around.
  function Spherical(s: real, c: real, t: real, d: real): Vec3 { Vec3(s * t, c, s * d) }

  // Two points of the lower row and one of the upper, at the first angle around.
  lemma LowerTriangle(s: real, c: real, s': real, c': real, t: real, d: real, t': real, d': real)
    ensures Volume(Spherical(s, c, t, d), Spherical(s', c', t, d), Spherical(s', c', t', d')) ==
      s' * (t' * d - d' * t) * (s' * c - c' * s)
  {
    var e := t' * d - d' * t;
    var x, y, z := c' * (s' * d') - (s' * d) * c', (s' * d) * (s' * t') - (s' * t) * (s' * d'),
                   (s' * t) * c' - c' * (s' * t');
    assert x == (s' * c') * (d' - d);
    assert y == (s' * s') * e by { Cross(s', t, d, t', d'); }
    assert z == (s' * c') * (t - t');
    FlatPart(s, s' * c', t, d, t', d');
    Combine(s, c, s', c', e);
  }

  lemma Cross(s: real, t: real, d: real, t': real, d': real)
    ensures (s * d) * (s * t') - (s * t) * (s * d') == (s * s) * (t' * d - d' * t)
  {
    assert (s * d) * (s * t') == (s * s) * (t' * d);
    assert (s * t) * (s * d') == (s * s) * (d' * t);
  }

  lemma FlatPart(s: real, m: real, t: real, d: real, t': real, d': real)
    ensures (s * t) * (m * (d' - d)) + (s * d) * (m * (t - t')) == -((s * m) * (t' * d - d' * t))
  {
    var n := s * m;
    assert (s * t) * (m * (d' - d)) == n * (t * (d' - d));
    assert (s * d) * (m * (t - t')) == n * (d * (t - t'));
    assert t * (d' - d) + d * (t - t') == -(t' * d - d' * t);
    assert n * (t * (d' - d)) + n * (d * (t - t')) == n * (t * (d' - d) + d * (t - t'));
  }

  lemma Combine(s: real, c: real, s': real, c': real, e: real)
    ensures -((s * (s' * c')) * e) + c * ((s' * s') * e) == s' * e * (s' * c - c' * s)
  {
    assert s' * e * (s' * c - c' * s) == s' * e * (s' * c) - s' * e * (c' * s);
    assert s' * e * (s' * c) == c * ((s' * s') * e);
    assert s' * e * (c' * s) == (s * (s' * c')) * e;
  }

  // Each of the two triangles of a cell faces outwards: its volume is the sine of a row times the sines of the steps.
  lemma FacesOutwards(a: Angles, i: nat, j: nat)
    ensures Volume(AtCorner(a, CellCorner(i, j, 0)), AtCorner(a, CellCorner(i, j, 1)), AtCorner(a, CellCorner(i, j, 2)))
         == a.sine(i + 1) * StepSine(a, j) * StepSine(a, i)
    ensures Volume(AtCorner(a, CellCorner(i, j, 3)), AtCorner(a, CellCorner(i, j, 4)), AtCorner(a, CellCorner(i, j, 5)))
         == a.sine(i) * StepSine(a, j) * StepSine(a, i)
  {
    FirstFaces(a, i, j);
    SecondFaces(a, i, j);
    hide Volume, Direction, StepSine;
  }

  lemma FirstFaces(a: Angles, i: nat, j: nat)
    ensures Volume(Direction(a, i, j), Direction(a, i + 1, j), Direction(a, i + 1, j + 1))
         == a.sine(i + 1) * StepSine(a, j) * StepSine(a, i)
  {
    LowerTriangle(a.sine(i), a.cosine(i), a.sine(i + 1), a.cosine(i + 1),
                  a.sine(j), a.cosine(j), a.sine(j + 1), a.cosine(j + 1));
    hide Volume;
  }

  lemma SecondFaces(a: Angles, i: nat, j: nat)
    ensures Volume(Direction(a, i, j), Direction(a, i + 1, j + 1), Direction(a, i, j + 1))
         == a.sine(i) * StepSine(a, j) * StepSine(a, i)
  {
    var s, c, s', c' := a.sine(i), a.cosine(i), a.sine(i + 1), a.cosine(i + 1);
    var t, d, t', d' := a.sine(j), a.cosine(j), a.sine(j + 1), a.cosine(j + 1);
    LowerTriangle(s', c', s, c, t', d', t, d);
    Cyclic(Spherical(s', c', t', d'), Spherical(s, c, t', d'), Spherical(s, c, t, d));
    BothSigns(s, t * d' - d * t', s * c' - c * s', t' * d - d' * t, s' * c - c' * s);
    hide Volume;
  }

  lemma Cyclic(u: Vec3, v: Vec3, w: Vec3)
    ensures Volume(w, u, v) == Volume(u, v, w)
  {}

  lemma BothSigns(s: real, p: real, q: real, p': real, q': real)
    requires p' == -p && q' == -q
    ensures s * p * q == s * p' * q'
  {}

  function RowStart(width: nat, i: nat): nat { i * width }

  lemma NextRow(width: nat, i: nat)
    ensures RowStart(width, i + 1) == RowStart(width, i) + width
    ensures RowStart(width, 0) == 0
  {}

  // The vertices before n.
  ghost predicate Placed(positions: seq<Vec3>, normals: seq<Vec3>, slices: nat, radius: real, a: Angles, n: nat) {
    n <= |positions| && n <= |normals| && forall v :: 0 <= v < n ==>
      normals[v] == Direction(a, v / (slices + 1), v % (slices + 1)) && positions[v] == Scaled(normals[v], radius)
  }

  lemma Indexed(slices: nat, i: nat, j: nat, v: nat)
    requires i <= Rows(slices) && j <= slices && v == RowStart(slices + 1, i) + j
    ensures v < VertexCount(slices) && v / (slices + 1) == i && v % (slices + 1) == j
  {
    VertexInRange(slices, Corner(i, j));
    DivMod(i, j, slices + 1);
  }

  lemma PlaceOne(positions: seq<Vec3>, normals: seq<Vec3>, slices: nat, radius: real, a: Angles, n: nat, d: Vec3)
    requires n < |positions| && n < |normals| && Placed(positions, normals, slices, radius, a, n)
    requires d == Direction(a, n / (slices + 1), n % (slices + 1))
    ensures Placed(positions[n := Scaled(d, radius)], normals[n := d], slices, radius, a, n + 1)
  {
    hide Direction, Scaled;
  }

  lemma NonePlaced(positions: seq<Vec3>, normals: seq<Vec3>, slices: nat, radius: real, a: Angles)
    ensures Placed(positions, normals, slices, radius, a, RowStart(slices + 1, 0))
  {}

  lemma LastRow(slices: nat)
    ensures RowStart(slices + 1, slices / 2 + 1) == VertexCount(slices)
  {}

  lemma AllPlaced(positions: seq<Vec3>, normals: seq<Vec3>, slices: nat, radius: real, a: Angles, n: nat)
    requires Placed(positions, normals, slices, radius, a, n) && |positions| == |normals| == n
    ensures forall v :: 0 <= v < n ==> normals[v] == Direction(a, v / (slices + 1), v % (slices + 1))
    ensures forall v :: 0 <= v < n ==> positions[v] == Scaled(normals[v], radius)
  {}

  class SphereGeometry {
    var positions: seq<Vec3>
    var normals: seq<Vec3>
    var indices: seq<int>

    method Create(sliceCount: nat, radius: real, a: Angles)
      modifies this
      ensures |positions| == |normals| == VertexCount(sliceCount)
      ensures forall v :: 0 <= v < |normals| ==> normals[v] == Direction(a, v / (sliceCount + 1), v % (sliceCount + 1))
      ensures forall v :: 0 <= v < |positions| ==> positions[v] == Scaled(normals[v], radius)
      ensures |indices| == IndexCount(sliceCount)
      ensures AllPushed(sliceCount, indices)
    {
      hide Direction, Scaled, AllPushed, IndexCount, VertexCount, Placed, RowStart, Resized;
      var parallelCount := sliceCount / 2;
      var vertexCount := VertexCount(sliceCount);
      positions := Resized(positions, vertexCount);
      normals := Resized(normals, vertexCount);
      NonePlaced(positions, normals, sliceCount, radius, a);
      var i := 0;
      while i < parallelCount + 1
        invariant 0 <= i <= parallelCount + 1
        invariant |positions| == |normals| == vertexCount
        invariant Placed(positions, normals, sliceCount, radius, a, RowStart(sliceCount + 1, i))
      {
        var j := 0;
        while j < sliceCount + 1
          invariant 0 <= j <= sliceCount + 1
          invariant |positions| == |normals| == vertexCount
          invariant Placed(positions, normals, sliceCount, radius, a, RowStart(sliceCount + 1, i) + j)
        {
          var direction := Direction(a, i, j);
          var vertexIdx := RowStart(sliceCount + 1, i) + j;
          Indexed(sliceCount, i, j, vertexIdx);
          PlaceOne(positions, normals, sliceCount, radius, a, vertexIdx, direction);
          positions := positions[vertexIdx := Scaled(direction, radius)];
          normals := normals[vertexIdx := direction];
          j := j + 1;
        }
        NextRow(sliceCount + 1, i);
        i := i + 1;
      }
      LastRow(sliceCount);
      AllPlaced(positions, normals, sliceCount, radius, a, vertexCount);
      CreateIndices(sliceCount);
    }

    method CreateIndices(sliceCount: nat)
      modifies this`indices
      ensures |indices| == IndexCount(sliceCount)
      ensures AllPushed(sliceCount, indices)
    {
      hide Vertex, CornerOf, Ushort, AllPushed, IndexCount, RowStart;
      indices := [];
      NonePushed(sliceCount);
      NextRow(sliceCount, 0);
      var i := 0;
      while i < sliceCount / 2
        invariant 0 <= i <= sliceCount / 2
        invariant |indices| == 6 * RowStart(sliceCount, i)
        invariant AllPushed(sliceCount, indices)
      {
        var j := 0;
        while j < sliceCount
          invariant 0 <= j <= sliceCount
          invariant |indices| == 6 * (RowStart(sliceCount, i) + j)
          invariant AllPushed(sliceCount, indices)
        {
          ghost var was := indices;
          indices := indices + [Ushort(Vertex(sliceCount, Corner(i, j)))];
          indices := indices + [Ushort(Vertex(sliceCount, Corner(i + 1, j)))];
          indices := indices + [Ushort(Vertex(sliceCount, Corner(i + 1, j + 1)))];
          indices := indices + [Ushort(Vertex(sliceCount, Corner(i, j)))];
          indices := indices + [Ushort(Vertex(sliceCount, Corner(i + 1, j + 1)))];
          indices := indices + [Ushort(Vertex(sliceCount, Corner(i, j + 1)))];
          CellPushed(sliceCount, i, j, was, indices);
          j := j + 1;
        }
        NextRow(sliceCount, i);
        i := i + 1;
      }
      CountPushed(sliceCount);
    }
  }

  function Resized(v: seq<Vec3>, n: nat): (r: seq<Vec3>)
    ensures |r| == n
  {
    if n <= |v| then v[..n] else v + seq(n - |v|, _ => Vec3(0.0, 0.0, 0.0))
  }

  // Every index is the vertex of its corner, cast to 16 bits.
  ghost predicate AllPushed(slices: nat, indices: seq<int>) {
    forall n :: 0 <= n < |indices| ==> slices > 0 && indices[n] == Ushort(Vertex(slices, CornerOf(slices, n)))
  }

  lemma CountPushed(slices: nat)
    ensures 6 * RowStart(slices, slices / 2) == IndexCount(slices)
  {}

  lemma NonePushed(slices: nat)
    ensures AllPushed(slices, [])
  {}

  lemma CellPushed(slices: nat, i: nat, j: nat, was: seq<int>, indices: seq<int>)
    requires i < Rows(slices) && j < slices && |was| == 6 * (RowStart(slices, i) + j) && AllPushed(slices, was)
    requires indices == was + [Ushort(Vertex(slices, Corner(i, j))), Ushort(Vertex(slices, Corner(i + 1, j))),
                               Ushort(Vertex(slices, Corner(i + 1, j + 1))), Ushort(Vertex(slices, Corner(i, j))),
                               Ushort(Vertex(slices, Corner(i + 1, j + 1))), Ushort(Vertex(slices, Corner(i, j + 1)))]
    ensures AllPushed(slices, indices)
  {
    hide Vertex, CornerOf, Ushort;
    forall n | 0 <= n < |indices| ensures slices > 0 && indices[n] == Ushort(Vertex(slices, CornerOf(slices, n))) {
      if n >= |was| { IndexOfCell(slices, i, j, n - |was|); }
    }
  }

  // The stored list, with its casts: no edge of it is there twice, all its indices are vertices, and the reverse of an
  // edge is there, once, unless the edge is on the boundary.
  lemma StoredEdges(slices: nat, indices: seq<int>, n: nat, m: nat)
    requires slices <= 361 && |indices| == IndexCount(slices) && n < |indices| && m < |indices|
    requires AllPushed(slices, indices)
    ensures 0 <= indices[n] < VertexCount(slices) && Next(n) < |indices| && Next(m) < |indices| && slices > 0
    ensures indices[n] == indices[m] && indices[Next(n)] == indices[Next(m)] ==> n == m
    ensures indices[n] == indices[Next(m)] && indices[Next(n)] == indices[m] <==> IsReverse(slices, n, m)
  {
    EdgeOfCell(slices, n);
    EdgeOfCell(slices, m);
    Stored(slices, indices, n);
    Stored(slices, indices, m);
    Stored(slices, indices, Next(n));
    Stored(slices, indices, Next(m));
    EdgesDiffer(slices, n, m);
    hide Vertex, CornerOf, Ushort, IndexCount, AllPushed;
    var a, b, c, d := CornerOf(slices, n), CornerOf(slices, Next(n)), CornerOf(slices, m), CornerOf(slices, Next(m));
    if indices[n] == indices[m] { VertexInjective(slices, a, c); }
    if indices[Next(n)] == indices[Next(m)] { VertexInjective(slices, b, d); }
    if indices[n] == indices[Next(m)] { VertexInjective(slices, a, d); }
    if indices[Next(n)] == indices[m] { VertexInjective(slices, b, c); }
  }

  lemma Stored(slices: nat, indices: seq<int>, n: nat)
    requires slices <= 361 && |indices| == IndexCount(slices) && n < |indices|
    requires AllPushed(slices, indices)
    ensures slices > 0 && indices[n] == Vertex(slices, CornerOf(slices, n)) && 0 <= indices[n] < VertexCount(slices)
    ensures InGrid(slices, CornerOf(slices, n))
  {
    CastsLosslessIff(slices);
    CellOf(slices, n);
    VertexInRange(slices, CornerOf(slices, n));
    assert Fits(slices, n);
  }
}
