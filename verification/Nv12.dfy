/** The conversion of bmp_to_nv12.py: a bitmap to one luma byte a pixel and one chroma pair for every four. */
module Nv12 {
  import opened Arithmetic

  type Byte = x: int | 0 <= x < 256

  // >> 8, which rounds down for negative numbers too.
  function Shift8(x: int): int { x / 256 }

  function Luma(r: Byte, g: Byte, b: Byte): (y: Byte)
    ensures 16 <= y <= 235
  {
    Shift8(66 * r + 129 * g + 25 * b + 128) + 16
  }

  function ChromaU(r: Byte, g: Byte, b: Byte): (u: Byte)
    ensures 16 <= u <= 240
  {
    Shift8(-38 * r - 74 * g + 112 * b + 128) + 128
  }

  function ChromaV(r: Byte, g: Byte, b: Byte): (v: Byte)
    ensures 16 <= v <= 240
  {
    Shift8(112 * r - 94 * g - 18 * b + 128) + 128
  }

  // Each is its weighted sum of the colours divided by 256, rounded to the nearest number, and shifted.
  lemma RoundedToNearest(r: Byte, g: Byte, b: Byte)
    ensures -128 < 256 * (Luma(r, g, b) - 16) - (66 * r + 129 * g + 25 * b) <= 128
    ensures -128 < 256 * (ChromaU(r, g, b) - 128) - (112 * b - 38 * r - 74 * g) <= 128
    ensures -128 < 256 * (ChromaV(r, g, b) - 128) - (112 * r - 94 * g - 18 * b) <= 128
  {}

  // The pure colours.
  lemma Primaries()
    ensures Luma(255, 0, 0) == 82 && ChromaU(255, 0, 0) == 90 && ChromaV(255, 0, 0) == 240
    ensures Luma(0, 255, 0) == 144 && ChromaU(0, 255, 0) == 54 && ChromaV(0, 255, 0) == 34
    ensures Luma(0, 0, 255) == 41 && ChromaU(0, 0, 255) == 240 && ChromaV(0, 0, 255) == 110
  {}

  // The ranges are reached.
  lemma RangesAreTight()
    ensures Luma(0, 0, 0) == 16 && Luma(255, 255, 255) == 235
    ensures ChromaU(255, 255, 0) == 16 && ChromaU(0, 0, 255) == 240
    ensures ChromaV(0, 255, 255) == 16 && ChromaV(255, 0, 0) == 240
  {}

  // Chroma does not see grey: adding the same to all three colours changes nothing, and grey itself is 128.
  lemma GreyIsNeutral(r: Byte, g: Byte, b: Byte, k: int)
    requires 0 <= r + k < 256 && 0 <= g + k < 256 && 0 <= b + k < 256
    ensures ChromaU(r + k, g + k, b + k) == ChromaU(r, g, b) && ChromaV(r + k, g + k, b + k) == ChromaV(r, g, b)
    ensures r == g == b ==> ChromaU(r, g, b) == ChromaV(r, g, b) == 128
  {}

  // ---- Places ----

  function Pixels(width: nat, height: nat): nat { width * height }

  // The pixel in a row and a column.
  function At(width: nat, row: nat, col: nat): nat { row * width + col }

  // The two pixels behind the ith byte of the UV buffer: in the left column of its block, one below the other.
  function Upper(width: nat, i: nat): nat
    requires width > 0
  {
    At(width, i / width * 2, i % width - i % width % 2)
  }

  function Lower(width: nat, i: nat): nat
    requires width > 0
  {
    At(width, i / width * 2 + 1, i % width - i % width % 2)
  }

  ghost predicate Even(width: nat, height: nat) { width > 0 && height > 0 && width % 2 == 0 && height % 2 == 0 }

  lemma AtInRange(width: nat, height: nat, row: nat, col: nat)
    requires row < height && col < width
    ensures At(width, row, col) < Pixels(width, height)
  {
    MulMono(row + 1, height, width);
  }

  lemma RowInRange(width: nat, height: nat, i: nat)
    requires Even(width, height) && i < Pixels(width, height) / 2
    ensures i / width * 2 + 1 < height
  {
    EvenProduct(width, height);
    DivModOf(i, width);
    MulMono(height / 2, i / width, width);
  }

  lemma BothInRange(width: nat, height: nat, i: nat)
    requires Even(width, height) && i < Pixels(width, height) / 2
    ensures Upper(width, i) < Pixels(width, height) && Lower(width, i) < Pixels(width, height)
  {
    RowInRange(width, height, i);
    DivModOf(i, width);
    var r, c := i / width, i % width;
    AtInRange(width, height, r * 2, c - c % 2);
    AtInRange(width, height, r * 2 + 1, c - c % 2);
  }

  lemma EvenColumn(width: nat, i: nat)
    requires width > 0 && width % 2 == 0 && i % 2 == 0
    ensures i % width % 2 == 0
  {
    DivModOf(i, width);
    EvenProduct(i / width, width);
  }

  lemma HalfIsEven(width: nat, height: nat)
    requires Even(width, height)
    ensures Pixels(width, height) / 2 % 2 == 0
  {
    assert height == 2 * (height / 2);
    HalfProduct(width, height / 2);
    EvenProduct(height / 2, width);
  }

  lemma HalfProduct(w: nat, k: nat)
    ensures w * (2 * k) / 2 == k * w
  {
    assert w * (2 * k) == 2 * (k * w);
  }

  // A byte in an even place starts a pair, with the next one in the same row.
  lemma Pair(width: nat, height: nat, i: nat)
    requires Even(width, height) && i < Pixels(width, height) / 2 && i % 2 == 0
    ensures i + 1 < Pixels(width, height) / 2
    ensures i % width % 2 == 0 && (i + 1) / width == i / width && (i + 1) % width == i % width + 1
  {
    HalfIsEven(width, height);
    EvenColumn(width, i);
    NextInRow(width, i);
  }

  lemma NextInRow(width: nat, i: nat)
    requires width > 0 && width % 2 == 0 && i % width % 2 == 0
    ensures (i + 1) / width == i / width && (i + 1) % width == i % width + 1
  {
    DivModOf(i, width);
    var r, c := i / width, i % width;
    DivMod(r, c + 1, width);
  }

  // Where the script reads the two samples.
  function First(width: nat, i: nat): nat
    requires width > 0
  {
    i / width * 2 * width + i % width
  }

  function Second(width: nat, i: nat): nat
    requires width > 0
  {
    i / width * 2 * width + width + i % width
  }

  lemma PairPlaces(width: nat, height: nat, i: nat)
    requires Even(width, height) && i < Pixels(width, height) / 2 && i % 2 == 0
    ensures First(width, i) == Upper(width, i) == Upper(width, i + 1)
    ensures Second(width, i) == Lower(width, i) == Lower(width, i + 1)
  {
    Pair(width, height, i);
    var r := i / width;
    Distribute(r * 2, width);
  }

  lemma Distribute(a: int, w: int)
    ensures (a + 1) * w == a * w + w
  {}

  // ---- The loops ----

  function Red(pixels: seq<Byte>, p: nat): Byte
    requires p * 3 + 2 < |pixels|
  {
    pixels[p * 3 + 2]
  }

  function Green(pixels: seq<Byte>, p: nat): Byte
    requires p * 3 + 2 < |pixels|
  {
    pixels[p * 3 + 1]
  }

  function Blue(pixels: seq<Byte>, p: nat): Byte
    requires p * 3 + 2 < |pixels|
  {
    pixels[p * 3]
  }

  function LumaOf(pixels: seq<Byte>, p: nat): Byte
    requires p * 3 + 2 < |pixels|
  {
    Luma(Red(pixels, p), Green(pixels, p), Blue(pixels, p))
  }

  function UOf(pixels: seq<Byte>, p: nat): Byte
    requires p * 3 + 2 < |pixels|
  {
    ChromaU(Red(pixels, p), Green(pixels, p), Blue(pixels, p))
  }

  function VOf(pixels: seq<Byte>, p: nat): Byte
    requires p * 3 + 2 < |pixels|
  {
    ChromaV(Red(pixels, p), Green(pixels, p), Blue(pixels, p))
  }

  method Convert(pixels: seq<Byte>, width: nat, height: nat) returns (converted: array<Byte>)
    requires |pixels| == Pixels(width, height) * 3
    ensures fresh(converted) && converted.Length == Pixels(width, height) * 3
    ensures forall p :: 0 <= p < Pixels(width, height) ==> IsConverted(pixels, converted[..], p)
  {
    hide Luma, ChromaU, ChromaV, Pixels;
    var n := Pixels(width, height);
    converted := new Byte[n * 3](k requires 0 <= k < |pixels| => pixels[k]);
    var i := 0;
    while i < n
      invariant 0 <= i <= n
      invariant forall p :: 0 <= p < i ==> IsConverted(pixels, converted[..], p)
    {
      var r, g, b := pixels[i * 3 + 2], pixels[i * 3 + 1], pixels[i * 3];
      ghost var before := converted[..];
      converted[i * 3] := Luma(r, g, b);
      converted[i * 3 + 1] := ChromaU(r, g, b);
      converted[i * 3 + 2] := ChromaV(r, g, b);
      PixelDone(pixels, before, converted[..], i);
      i := i + 1;
    }
  }

  ghost predicate IsConverted(pixels: seq<Byte>, converted: seq<Byte>, p: nat) {
    && p * 3 + 2 < |pixels| && p * 3 + 2 < |converted|
    && converted[p * 3] == LumaOf(pixels, p)
    && converted[p * 3 + 1] == UOf(pixels, p)
    && converted[p * 3 + 2] == VOf(pixels, p)
  }

  lemma PixelDone(pixels: seq<Byte>, before: seq<Byte>, after: seq<Byte>, i: nat)
    requires i * 3 + 2 < |pixels| == |before| == |after| && IsConverted(pixels, after, i)
    requires forall k :: 0 <= k < i * 3 ==> after[k] == before[k]
    requires forall p :: 0 <= p < i ==> IsConverted(pixels, before, p)
    ensures forall p :: 0 <= p < i + 1 ==> IsConverted(pixels, after, p)
  {
    forall p | 0 <= p < i + 1 ensures IsConverted(pixels, after, p) {
      if p < i { assert IsConverted(pixels, before, p); }
    }
  }

  // The mean, rounded down, of two samples one below the other.
  function MeanOf(a: Byte, b: Byte): (m: Byte)
    ensures a <= b ==> a <= m <= b
    ensures b <= a ==> b <= m <= a
  {
    (a + b) / 2
  }

  // A byte of the UV buffer: the mean of the two samples, U in even columns and V in odd ones.
  ghost function Packed(pixels: seq<Byte>, width: nat, height: nat, i: nat): Byte
    requires Even(width, height) && |pixels| == Pixels(width, height) * 3 && i < Pixels(width, height) / 2
  {
    BothInRange(width, height, i);
    var p, q := Upper(width, i), Lower(width, i);
    if i % width % 2 == 0 then MeanOf(UOf(pixels, p), UOf(pixels, q)) else MeanOf(VOf(pixels, p), VOf(pixels, q))
  }

  function Counting(n: nat): seq<int> { seq(n, k => k) }

  lemma NoneCounted()
    ensures Counting(0) == []
  {}

  lemma TwoCounted(n: nat)
    ensures Counting(n) + [n] + [n + 1] == Counting(n + 2)
  {}

  // A bytearray that keeps the places it was written to, in order.
  class ByteBuffer {
    const bytes: array<Byte>
    ghost var writes: seq<int>

    constructor (size: nat)
      ensures fresh(bytes) && bytes.Length == size && writes == []
    {
      bytes := new Byte[size];
      writes := [];
    }

    method Put(i: nat, value: Byte)
      requires i < bytes.Length
      modifies this, bytes
      ensures bytes[i] == value && forall k :: 0 <= k < bytes.Length && k != i ==> bytes[k] == old(bytes[k])
      ensures writes == old(writes) + [i]
    {
      bytes[i] := value;
      writes := writes + [i];
    }
  }

  // Every byte is written once.
  method Downsample(ghost pixels: seq<Byte>, converted: array<Byte>, width: nat, height: nat)
      returns (uv: ByteBuffer)
    requires Even(width, height)
    requires |pixels| == Pixels(width, height) * 3 == converted.Length
    requires forall p :: 0 <= p < Pixels(width, height) ==> IsConverted(pixels, converted[..], p)
    ensures fresh(uv) && fresh(uv.bytes) && uv.bytes.Length == Pixels(width, height) / 2
    ensures forall i :: 0 <= i < uv.bytes.Length ==> uv.bytes[i] == Packed(pixels, width, height, i)
    ensures uv.writes == Counting(Pixels(width, height) / 2)
  {
    hide IsConverted, Packed, Upper, Lower, Pixels, First, Second, Counting;
    NoneCounted();
    var n := Pixels(width, height) / 2;
    uv := new ByteBuffer(n);
    var i := 0;
    while i < n
      invariant 0 <= i <= n && i % 2 == 0
      invariant fresh(uv) && fresh(uv.bytes)
      invariant forall k :: 0 <= k < i ==> uv.bytes[k] == Packed(pixels, width, height, k)
      invariant uv.writes == Counting(i)
    {
      PairPlaces(width, height, i);
      Pair(width, height, i);
      BothInRange(width, height, i);
      PairPacked(pixels, converted[..], width, height, i);
      var u1 := converted[First(width, i) * 3 + 1];
      var u2 := converted[Second(width, i) * 3 + 1];
      var v1 := converted[First(width, i) * 3 + 2];
      var v2 := converted[Second(width, i) * 3 + 2];
      uv.Put(i, MeanOf(u1, u2));
      uv.Put(i + 1, MeanOf(v1, v2));
      TwoCounted(i);
      i := i + 2;
    }
  }

  lemma PairPacked(pixels: seq<Byte>, converted: seq<Byte>, width: nat, height: nat, i: nat)
    requires Even(width, height) && i % 2 == 0 && i < Pixels(width, height) / 2
    requires |pixels| == Pixels(width, height) * 3 == |converted|
    requires forall p :: 0 <= p < Pixels(width, height) ==> IsConverted(pixels, converted, p)
    ensures i + 1 < Pixels(width, height) / 2
    ensures Upper(width, i) < Pixels(width, height) && Lower(width, i) < Pixels(width, height)
    ensures var p, q := Upper(width, i) * 3, Lower(width, i) * 3;
            && MeanOf(converted[p + 1], converted[q + 1]) == Packed(pixels, width, height, i)
            && MeanOf(converted[p + 2], converted[q + 2]) == Packed(pixels, width, height, i + 1)
  {
    PackedPair(pixels, width, height, i);
    hide Upper, Lower, Pixels, MeanOf, Packed, Even;
    Converted(pixels, converted, Upper(width, i), Pixels(width, height));
    Converted(pixels, converted, Lower(width, i), Pixels(width, height));
  }

  lemma Converted(pixels: seq<Byte>, converted: seq<Byte>, p: nat, n: nat)
    requires p < n && |pixels| == n * 3 == |converted|
    requires forall k :: 0 <= k < n ==> IsConverted(pixels, converted, k)
    ensures converted[p * 3 + 1] == UOf(pixels, p) && converted[p * 3 + 2] == VOf(pixels, p)
  {
    hide UOf, VOf, LumaOf;
    assert IsConverted(pixels, converted, p);
  }

  lemma PackedPair(pixels: seq<Byte>, width: nat, height: nat, i: nat)
    requires Even(width, height) && i % 2 == 0 && i < Pixels(width, height) / 2 && |pixels| == Pixels(width, height) * 3
    ensures i + 1 < Pixels(width, height) / 2
    ensures Upper(width, i) < Pixels(width, height) && Lower(width, i) < Pixels(width, height)
    ensures var p, q := Upper(width, i), Lower(width, i);
            && Packed(pixels, width, height, i) == MeanOf(UOf(pixels, p), UOf(pixels, q))
            && Packed(pixels, width, height, i + 1) == MeanOf(VOf(pixels, p), VOf(pixels, q))
  {
    Pair(width, height, i);
    PairPlaces(width, height, i);
    BothInRange(width, height, i);
    hide UOf, VOf, Upper, Lower, Pixels, MeanOf, Even, First, Second;
  }

  method ExtractLuma(ghost pixels: seq<Byte>, converted: array<Byte>, width: nat, height: nat)
      returns (y: ByteBuffer)
    requires |pixels| == Pixels(width, height) * 3 == converted.Length
    requires forall p :: 0 <= p < Pixels(width, height) ==> IsConverted(pixels, converted[..], p)
    ensures fresh(y) && fresh(y.bytes) && y.bytes.Length == Pixels(width, height)
    ensures forall p :: 0 <= p < y.bytes.Length ==> y.bytes[p] == LumaOf(pixels, p)
    ensures y.writes == Counting(Pixels(width, height))
  {
    hide LumaOf, UOf, VOf, Pixels;
    var n := Pixels(width, height);
    y := new ByteBuffer(n);
    var i := 0;
    while i < n
      invariant 0 <= i <= n
      invariant fresh(y) && fresh(y.bytes)
      invariant forall p :: 0 <= p < i ==> y.bytes[p] == LumaOf(pixels, p)
      invariant y.writes == Counting(i)
    {
      assert IsConverted(pixels, converted[..], i);
      y.Put(i, converted[i * 3]);
      i := i + 1;
    }
  }

  // Every chroma byte is in range, and a grey image has nothing but 128.
  lemma PackedRange(pixels: seq<Byte>, width: nat, height: nat, i: nat)
    requires Even(width, height) && |pixels| == Pixels(width, height) * 3 && i < Pixels(width, height) / 2
    ensures 16 <= Packed(pixels, width, height, i) <= 240
    ensures (forall p :: 0 <= p < Pixels(width, height) ==> IsGrey(pixels, p)) ==>
      Packed(pixels, width, height, i) == 128
  {
    BothInRange(width, height, i);
    var p, q := Upper(width, i), Lower(width, i);
    hide Upper, Lower, Pixels, ChromaU, ChromaV;
    if forall k :: 0 <= k < Pixels(width, height) ==> IsGrey(pixels, k) {
      assert IsGrey(pixels, p) && IsGrey(pixels, q);
      GreyIsNeutral(pixels[p * 3], pixels[p * 3], pixels[p * 3], 0);
      GreyIsNeutral(pixels[q * 3], pixels[q * 3], pixels[q * 3], 0);
    }
  }

  ghost predicate IsGrey(pixels: seq<Byte>, p: nat) {
    p * 3 + 2 < |pixels| && pixels[p * 3] == pixels[p * 3 + 1] == pixels[p * 3 + 2]
  }
}
