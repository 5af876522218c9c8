/** The statistics of perf_test_runner.py, over exact reals. */
module PerfStats {
  import opened Sorting

  // ValueError and ZeroDivisionError.
  datatype Result<T> = Ok(value: T) | Raised

  predicate Le(x: real, y: real) { x <= y }

  function Sum(s: seq<real>): real {
    if s == [] then 0.0 else s[0] + Sum(s[1..])
  }

  function Mean(s: seq<real>): Result<real> {
    if |s| < 1 then Raised else Ok(Sum(s) / |s| as real)
  }

  function Square(x: real): real { x * x }

  function SumOfSquareDeviations(s: seq<real>, c: real): real {
    if s == [] then 0.0 else Square(s[0] - c) + SumOfSquareDeviations(s[1..], c)
  }

  // The square root, as a parameter.
  ghost predicate Root(sqrt: real -> real) {
    forall x :: x >= 0.0 ==> sqrt(x) >= 0.0 && sqrt(x) * sqrt(x) == x
  }

  function CoefficientOfVariation(sqrt: real -> real, s: seq<real>): Result<real> {
    if |s| < 2 then Raised
    else
      var c := Sum(s) / |s| as real;
      var pvar := SumOfSquareDeviations(s, c) / |s| as real;
      if c == 0.0 then Raised else Ok(sqrt(pvar) / c)
  }

  // s[lo:hi] with an upper bound that counts from the end if it is negative.
  function Slice(s: seq<real>, lo: nat, hi: int): seq<real> {
    var end := if hi < 0 then |s| + hi else if hi > |s| then |s| else hi;
    if lo <= end then s[lo..end] else []
  }

  // Slicing up to -0 leaves nothing.
  function TruncatedList(s: seq<real>, n: nat): Result<seq<real>> {
    if |s| < n * 2 then Raised else Ok(Slice(Sort(Le, s), n, 0 - n))
  }

  function TruncatedMean(s: seq<real>, n: nat): Result<real> {
    var t := TruncatedList(s, n);
    if t.Raised? then Raised else Mean(t.value)
  }

  function TruncatedCov(sqrt: real -> real, s: seq<real>, n: nat): Result<real> {
    var t := TruncatedList(s, n);
    if t.Raised? then Raised else CoefficientOfVariation(sqrt, t.value)
  }

  lemma LeIsOrder()
    ensures TotalPreorder(Le) && AntiSymmetric(Le)
  {}

  // ---- When there is a mean ----

  lemma TruncatedLength(s: seq<real>, n: nat)
    requires |s| >= n * 2
    ensures TruncatedList(s, n).Ok? && |TruncatedList(s, n).value| == if n == 0 then 0 else |s| - 2 * n
    ensures |Sort(Le, s)| == |s| && (n > 0 ==> TruncatedList(s, n).value == Sort(Le, s)[n..|s| - n])
  {
    LeIsOrder();
    SortSorts(Le, s);
  }

  lemma MeanIff(s: seq<real>, n: nat)
    ensures TruncatedMean(s, n).Ok? <==> n >= 1 && |s| > 2 * n
  {
    if |s| >= n * 2 { TruncatedLength(s, n); }
  }

  // The driver's choice, len >> 3 for more than seven scores, always leaves some.
  lemma DriverTruncation(s: seq<real>)
    requires |s| > 7
    ensures TruncatedMean(s, |s| / 8).Ok?
    ensures |TruncatedList(s, |s| / 8).value| >= 6
  {
    TruncatedLength(s, |s| / 8);
    MeanIff(s, |s| / 8);
  }

  // What is cut off are the n smallest and the n largest samples.
  lemma TruncatedParts(s: seq<real>, n: nat) returns (low: seq<real>, high: seq<real>)
    requires n >= 1 && |s| >= 2 * n
    ensures TruncatedList(s, n).Ok? && |low| == |high| == n
    ensures multiset(s) == multiset(low) + multiset(TruncatedList(s, n).value) + multiset(high)
    ensures forall x, y :: x in low && y in TruncatedList(s, n).value ==> x <= y
    ensures forall x, y :: x in TruncatedList(s, n).value && y in high ==> x <= y
    ensures forall x, y :: x in low && y in high ==> x <= y
  {
    TruncatedLength(s, n);
    LeIsOrder();
    SortSorts(Le, s);
    var r := Sort(Le, s);
    var m := |s| - n;
    hide Sort;
    low, high := r[..n], r[m..];
    assert r == r[..n] + r[n..m] + r[m..];
    SortedParts(r, n, m);
  }

  lemma SortedParts(r: seq<real>, n: nat, m: nat)
    requires SortedBy(Le, r) && n <= m <= |r|
    ensures forall x, y :: x in r[..n] && y in r[n..m] ==> x <= y
    ensures forall x, y :: x in r[n..m] && y in r[m..] ==> x <= y
    ensures forall x, y :: x in r[..n] && y in r[m..] ==> x <= y
  {
    forall x, y | x in r[..n] && (y in r[n..m] || y in r[m..]) ensures x <= y {
      var i :| 0 <= i < n && r[i] == x;
      var j :| n <= j < |r| && r[j] == y;
      assert Le(r[i], r[j]);
    }
    forall x, y | x in r[n..m] && y in r[m..] ensures x <= y {
      var i :| n <= i < m && r[i] == x;
      var j :| m <= j < |r| && r[j] == y;
      assert Le(r[i], r[j]);
    }
  }

  // ---- The mean ----

  function SumOfDeviations(s: seq<real>, c: real): real {
    if s == [] then 0.0 else (s[0] - c) + SumOfDeviations(s[1..], c)
  }

  lemma {:induction false} DeviationsSum(s: seq<real>, c: real)
    ensures SumOfDeviations(s, c) == Sum(s) - c * |s| as real
  {
    if s != [] {
      DeviationsSum(s[1..], c);
      Distribute(c, 1.0, |s[1..]| as real);
    }
  }

  // The mean is where the samples balance, and that alone.
  lemma MeanBalances(s: seq<real>, m: real)
    ensures Mean(s) == Ok(m) <==> s != [] && SumOfDeviations(s, m) == 0.0
  {
    DeviationsSum(s, m);
    hide Sum, SumOfDeviations;
    if s != [] { QuotientIff(Sum(s), |s| as real, m); }
  }

  lemma QuotientIff(x: real, n: real, q: real)
    requires n > 0.0
    ensures x / n == q <==> x - q * n == 0.0
  {
    var p := x / n;
    assert p * n == x;
    if q * n == x { QuotientIs(x, n, q); }
  }

  lemma {:induction false} ShiftedSquares(s: seq<real>, m: real, c: real)
    ensures SumOfSquareDeviations(s, c) ==
      SumOfSquareDeviations(s, m) + 2.0 * (m - c) * SumOfDeviations(s, m) + |s| as real * Square(m - c)
  {
    if s != [] {
      ShiftedSquares(s[1..], m, c);
      var a, d, k, rest := s[0] - m, m - c, |s[1..]| as real, SumOfDeviations(s[1..], m);
      SquareOfSum(a, d);
      assert s[0] - c == a + d;
      hide Square;
      Gathered(Square(a), SumOfSquareDeviations(s[1..], m), a, rest, d, k, Square(d));
    }
  }

  lemma Gathered(p: real, q: real, a: real, b: real, d: real, k: real, e: real)
    ensures (p + 2.0 * d * a + e) + (q + 2.0 * d * b + k * e) == (p + q) + 2.0 * d * (a + b) + (k + 1.0) * e
  {}

  lemma SquareOfSum(a: real, d: real)
    ensures Square(a + d) == Square(a) + 2.0 * d * a + Square(d)
  {}

  // From it the squares of the deviations sum up to least: by as much less as the other point is away, squared, for
  // each sample.
  lemma MeanIsLeast(s: seq<real>, m: real, c: real)
    requires Mean(s) == Ok(m)
    ensures SumOfSquareDeviations(s, c) == SumOfSquareDeviations(s, m) + |s| as real * Square(m - c)
  {
    MeanBalances(s, m);
    ShiftedSquares(s, m, c);
    hide Square, SumOfDeviations, SumOfSquareDeviations, Mean;
    assert 2.0 * (m - c) * SumOfDeviations(s, m) == 0.0;
  }

  // There is no coefficient for fewer than two samples or a zero mean, and otherwise, times the mean, it is the root of
  // the mean square deviation.
  lemma CoefficientIs(sqrt: real -> real, s: seq<real>, v: real, m: real)
    requires Root(sqrt) && Mean(s) == Ok(m)
    ensures CoefficientOfVariation(sqrt, s).Ok? <==> |s| >= 2 && m != 0.0
    ensures CoefficientOfVariation(sqrt, s) == Ok(v) ==>
      v * m >= 0.0 && Square(v * m) * |s| as real == SumOfSquareDeviations(s, m)
  {
    NoDeviationIff(s, m);
    hide Square, SumOfSquareDeviations, Root, Sum;
    if CoefficientOfVariation(sqrt, s) == Ok(v) { RootOver(sqrt, SumOfSquareDeviations(s, m), |s| as real, m, v); }
  }

  lemma RootOver(sqrt: real -> real, d: real, n: real, c: real, v: real)
    requires Root(sqrt) && d >= 0.0 && n > 0.0 && c != 0.0 && v == sqrt(d / n) / c
    ensures v * c >= 0.0 && Square(v * c) * n == d
  {
    var p := d / n;
    Quotient(1.0, d, n);
    var r := sqrt(p);
    assert r >= 0.0 && r * r == p;
    hide Root;
    assert p * n == d;
    assert v * c == r;
  }

  // ---- The order of the samples ----

  lemma PermutationInvariant(sqrt: real -> real, s: seq<real>, t: seq<real>, n: nat)
    requires multiset(s) == multiset(t)
    ensures TruncatedMean(s, n) == TruncatedMean(t, n)
    ensures TruncatedCov(sqrt, s, n) == TruncatedCov(sqrt, t, n)
  {
    LeIsOrder();
    SortOfPermutation(Le, s, t);
    assert |s| == |multiset(s)| == |multiset(t)| == |t|;
  }

  // ---- Replaced samples ----

  // How many samples differ.
  function Replaced(s: seq<real>, t: seq<real>): nat
    requires |s| == |t|
  {
    if s == [] then 0 else (if s[0] == t[0] then 0 else 1) + Replaced(s[1..], t[1..])
  }

  ghost predicate Within(s: seq<real>, lo: real, hi: real) {
    forall i :: 0 <= i < |s| ==> lo <= s[i] <= hi
  }

  // How many samples are below m, or above it.
  function Below(s: seq<real>, m: real): nat {
    if s == [] then 0 else (if s[0] < m then 1 else 0) + Below(s[1..], m)
  }

  function Above(s: seq<real>, m: real): nat {
    if s == [] then 0 else (if s[0] > m then 1 else 0) + Above(s[1..], m)
  }

  lemma {:induction false} FewOutside(s: seq<real>, t: seq<real>, lo: real, hi: real)
    requires |s| == |t| && Within(s, lo, hi)
    ensures Below(t, lo) <= Replaced(s, t) && Above(t, hi) <= Replaced(s, t)
  {
    if s != [] {
      FewOutside(s[1..], t[1..], lo, hi);
    }
  }

  lemma {:induction false} CountsConcat(s: seq<real>, t: seq<real>, m: real)
    ensures Below(s + t, m) == Below(s, m) + Below(t, m) && Above(s + t, m) == Above(s, m) + Above(t, m)
  {
    if s == [] {
      assert s + t == t;
    } else {
      assert (s + t)[1..] == s[1..] + t;
      CountsConcat(s[1..], t, m);
    }
  }

  // The counts do not depend on the order.
  lemma {:induction false} CountsOfPermutation(s: seq<real>, t: seq<real>, m: real)
    requires multiset(s) == multiset(t)
    ensures Below(s, m) == Below(t, m) && Above(s, m) == Above(t, m)
    decreases |s|
  {
    hide Below, Above;
    SameLength(s, t);
    if s == [] {
      assert t == [];
    } else {
      var i := Matching(s, t);
      var rest := t[..i] + t[i + 1..];
      FirstTakenOut(s, m);
      TakenOut(t, i, m);
      RestsMatch(s, t, i, rest);
      CountsOfPermutation(s[1..], rest, m);
    }
  }

  lemma SameLength(s: seq<real>, t: seq<real>)
    requires multiset(s) == multiset(t)
    ensures |s| == |t|
  {
    assert |s| == |multiset(s)| == |multiset(t)| == |t|;
  }

  lemma Matching(s: seq<real>, t: seq<real>) returns (i: nat)
    requires multiset(s) == multiset(t) && s != []
    ensures i < |t| && t[i] == s[0]
  {
    assert s[0] in multiset(t);
    i :| 0 <= i < |t| && t[i] == s[0];
  }

  lemma FirstTakenOut(s: seq<real>, m: real)
    requires s != []
    ensures Below(s, m) == Below(s[1..], m) + (if s[0] < m then 1 else 0)
    ensures Above(s, m) == Above(s[1..], m) + (if s[0] > m then 1 else 0)
  {}

  lemma RestsMatch(s: seq<real>, t: seq<real>, i: nat, rest: seq<real>)
    requires multiset(s) == multiset(t) && s != [] && i < |t| && t[i] == s[0]
    requires multiset(rest) == multiset(t) - multiset{t[i]}
    ensures multiset(s[1..]) == multiset(rest)
  {
    assert s == [s[0]] + s[1..];
    assert multiset(s) == multiset([s[0]]) + multiset(s[1..]);
  }

  lemma TakenOut(s: seq<real>, i: nat, m: real)
    requires i < |s|
    ensures var rest := s[..i] + s[i + 1..];
            && multiset(rest) == multiset(s) - multiset{s[i]}
            && Below(s, m) == Below(rest, m) + (if s[i] < m then 1 else 0)
            && Above(s, m) == Above(rest, m) + (if s[i] > m then 1 else 0)
  {
    var a, x, b := s[..i], s[i], s[i + 1..];
    assert s == a + ([x] + b);
    CountsConcat(a, b, m);
    CountsConcat(a, [x] + b, m);
    assert ([x] + b)[1..] == b;
  }

  lemma {:induction false} AllBelow(s: seq<real>, m: real)
    requires forall i :: 0 <= i < |s| ==> s[i] < m
    ensures Below(s, m) == |s|
  {
    if s != [] {
      AllBelow(s[1..], m);
    }
  }

  lemma {:induction false} AllAbove(s: seq<real>, m: real)
    requires forall i :: 0 <= i < |s| ==> s[i] > m
    ensures Above(s, m) == |s|
  {
    if s != [] {
      AllAbove(s[1..], m);
    }
  }

  // Fewer than k + 1 samples below m leave the kth of the sorted ones at m or more, and likewise from above.
  lemma SortedBounds(r: seq<real>, m: real, k: nat)
    requires SortedBy(Le, r) && k < |r|
    ensures Below(r, m) <= k ==> r[k] >= m
    ensures Above(r, m) <= |r| - 1 - k ==> r[k] <= m
  {
    assert r == r[..k + 1] + r[k + 1..] == r[..k] + r[k..];
    CountsConcat(r[..k + 1], r[k + 1..], m);
    CountsConcat(r[..k], r[k..], m);
    if r[k] < m {
      forall j | 0 <= j <= k ensures r[j] < m {
        if j < k { assert Le(r[j], r[k]); }
      }
      AllBelow(r[..k + 1], m);
    }
    if r[k] > m {
      forall j | k <= j < |r| ensures r[j] > m {
        if k < j { assert Le(r[k], r[j]); }
      }
      AllAbove(r[k..], m);
    }
  }

  lemma {:induction false} SumBounds(s: seq<real>, lo: real, hi: real)
    requires Within(s, lo, hi)
    ensures lo * |s| as real <= Sum(s) <= hi * |s| as real
  {
    if s != [] {
      SumBounds(s[1..], lo, hi);
      var n, m := |s| as real, |s[1..]| as real;
      assert n == 1.0 + m;
      Distribute(lo, 1.0, m);
      Distribute(hi, 1.0, m);
    }
  }

  lemma QuotientBounds(x: real, n: real, lo: real, hi: real)
    requires n > 0.0 && lo * n <= x <= hi * n
    ensures lo <= x / n <= hi
  {
    var q := x / n;
    assert q * n == x;
    LessTimes(q, lo, n);
    LessTimes(hi, q, n);
  }

  lemma LessTimes(a: real, b: real, n: real)
    requires n > 0.0
    ensures a < b ==> a * n < b * n
  {}

  lemma Distribute(k: real, a: real, b: real)
    ensures k * (a + b) == k * a + k * b
  {}

  // Changing up to n samples to any values whatever keeps the truncated mean within the range of the original samples.
  lemma TruncatedMeanIsRobust(s: seq<real>, t: seq<real>, n: nat, lo: real, hi: real)
    requires n >= 1 && |s| == |t| > 2 * n && Replaced(s, t) <= n
    requires Within(s, lo, hi)
    ensures TruncatedMean(t, n).Ok? && lo <= TruncatedMean(t, n).value <= hi
  {
    TruncatedLength(t, n);
    MiddleWithin(s, t, n, lo, hi);
    hide Sort, Within, Replaced, Mean;
    MeanWithin(TruncatedList(t, n).value, lo, hi);
  }

  lemma MeanWithin(u: seq<real>, lo: real, hi: real)
    requires |u| > 0 && Within(u, lo, hi)
    ensures Mean(u).Ok? && lo <= Mean(u).value <= hi
  {
    SumBounds(u, lo, hi);
    QuotientBounds(Sum(u), |u| as real, lo, hi);
  }

  lemma MiddleWithin(s: seq<real>, t: seq<real>, n: nat, lo: real, hi: real)
    requires |s| == |t| > 2 * n && Replaced(s, t) <= n
    requires Within(s, lo, hi)
    ensures |Sort(Le, t)| == |t| && Within(Sort(Le, t)[n..|t| - n], lo, hi)
  {
    var r := Sort(Le, t);
    LeIsOrder();
    SortSorts(Le, t);
    hide Sort, TotalPreorder, AntiSymmetric, SortedBy;
    FewOutside(s, t, lo, hi);
    CountsOfPermutation(t, r, lo);
    CountsOfPermutation(t, r, hi);
    forall k | n <= k < |t| - n ensures lo <= r[k] <= hi {
      SortedBounds(r, lo, k);
      SortedBounds(r, hi, k);
    }
  }

  // One more would be too many: with n + 1 of 2n + 1 samples replaced the mean is whatever they are set to.
  lemma OneMoreIsTooMany(n: nat, x: real)
    requires n >= 1 && x > 0.0
    ensures var s, t := Repeat(0.0, 2 * n + 1), Repeat(0.0, n) + Repeat(x, n + 1);
            Replaced(s, t) == n + 1 && TruncatedMean(t, n) == Ok(x)
  {
    var s, t := Repeat(0.0, 2 * n + 1), Repeat(0.0, n) + Repeat(x, n + 1);
    assert s == Repeat(0.0, n) + Repeat(0.0, n + 1);
    ReplacedConcat(Repeat(0.0, n), Repeat(0.0, n), Repeat(0.0, n + 1), Repeat(x, n + 1));
    NoneReplaced(Repeat(0.0, n));
    AllReplaced(n + 1, 0.0, x);
    LeIsOrder();
    assert SortedBy(Le, t);
    SortSorts(Le, t);
    SortedUnique(Le, Sort(Le, t), t);
    TruncatedLength(t, n);
    assert t[n..|t| - n] == [x];
    assert Sum([x]) == x;
  }

  function Repeat(x: real, n: nat): seq<real> { seq(n, _ => x) }

  lemma {:induction false} ReplacedConcat(a: seq<real>, b: seq<real>, c: seq<real>, d: seq<real>)
    requires |a| == |b| && |c| == |d|
    ensures Replaced(a + c, b + d) == Replaced(a, b) + Replaced(c, d)
  {
    if a == [] {
      assert a + c == c && b + d == d;
    } else {
      assert (a + c)[1..] == a[1..] + c && (b + d)[1..] == b[1..] + d;
      ReplacedConcat(a[1..], b[1..], c, d);
    }
  }

  lemma {:induction false} NoneReplaced(s: seq<real>)
    ensures Replaced(s, s) == 0
  {
    if s != [] { NoneReplaced(s[1..]); }
  }

  lemma {:induction false} AllReplaced(n: nat, x: real, y: real)
    requires x != y
    ensures Replaced(Repeat(x, n), Repeat(y, n)) == n
  {
    if n > 0 {
      assert Repeat(x, n)[1..] == Repeat(x, n - 1) && Repeat(y, n)[1..] == Repeat(y, n - 1);
      AllReplaced(n - 1, x, y);
    }
  }

  // ---- The coefficient of variation ----

  lemma SquareSign(x: real)
    ensures Square(x) >= 0.0 && (Square(x) == 0.0 <==> x == 0.0)
  {
    if x != 0.0 { SameSign(x, x, Square(x)); }
  }

  lemma SameSign(a: real, b: real, p: real)
    requires p == a * b && ((a > 0.0 && b > 0.0) || (a < 0.0 && b < 0.0))
    ensures p > 0.0
  {}

  // Nothing varies exactly when all samples are the same as c.
  lemma {:induction false} NoDeviationIff(s: seq<real>, c: real)
    ensures SumOfSquareDeviations(s, c) >= 0.0
    ensures SumOfSquareDeviations(s, c) == 0.0 <==> forall x :: x in s ==> x == c
  {
    if s != [] {
      NoDeviationIff(s[1..], c);
      SquareSign(s[0] - c);
      hide Square;
      assert forall x :: x in s <==> x == s[0] || x in s[1..];
      assert s[0] in s;
    }
  }

  function Product(k: real, x: real): real { k * x }

  function Times(k: real, s: seq<real>): seq<real> {
    if s == [] then [] else [Product(k, s[0])] + Times(k, s[1..])
  }

  lemma {:induction false} TimesSums(k: real, s: seq<real>, c: real)
    ensures |Times(k, s)| == |s| && Sum(Times(k, s)) == Product(k, Sum(s))
    ensures SumOfSquareDeviations(Times(k, s), Product(k, c)) == Product(Square(k), SumOfSquareDeviations(s, c))
  {
    if s == [] {
      assert Product(k, 0.0) == 0.0 && Product(Square(k), 0.0) == 0.0;
    } else {
      TimesSums(k, s[1..], c);
      ProductOfSum(k, s[0], Sum(s[1..]));
      SquareOfMultiple(k, s[0], c);
      ProductOfSum(Square(k), Square(s[0] - c), SumOfSquareDeviations(s[1..], c));
      hide Product, Square;
      assert Times(k, s)[1..] == Times(k, s[1..]);
    }
  }

  lemma ProductOfSum(k: real, x: real, y: real)
    ensures Product(k, x + y) == Product(k, x) + Product(k, y)
  {}

  lemma SquareOfMultiple(k: real, x: real, c: real)
    ensures Square(Product(k, x) - Product(k, c)) == Product(Square(k), Square(x - c))
  {
    var d := x - c;
    assert Product(k, x) - Product(k, c) == k * d;
  }

  lemma SameSquare(a: real, b: real)
    requires a >= 0.0 && b >= 0.0 && Square(a) == Square(b)
    ensures a == b
  {
    assert Square(a) - Square(b) == (a - b) * (a + b);
    if a < b { SameSign(b - a, a + b, Square(b) - Square(a)); }
    if b < a { SameSign(a - b, a + b, Square(a) - Square(b)); }
  }

  lemma RootOfMultiple(sqrt: real -> real, k: real, v: real)
    requires Root(sqrt) && k > 0.0 && v >= 0.0
    ensures sqrt(Product(Square(k), v)) == Product(k, sqrt(v))
  {
    var r := sqrt(v);
    assert Square(r) == v;
    NonNegativeProduct(Square(k), v);
    NonNegativeProduct(k, r);
    SquareOfProduct(k, r);
    var w := Product(Square(k), v);
    assert Square(sqrt(w)) == w;
    hide Product, Square;
    SameSquare(sqrt(w), Product(k, r));
  }

  lemma NonNegativeProduct(k: real, x: real)
    requires k >= 0.0 && x >= 0.0
    ensures Product(k, x) >= 0.0
  {}

  lemma SquareOfProduct(k: real, x: real)
    ensures Square(Product(k, x)) == Product(Square(k), Square(x)) && Square(k) >= 0.0
  {}

  // The coefficient does not depend on the unit of the samples.
  lemma UnitFree(sqrt: real -> real, k: real, s: seq<real>)
    requires Root(sqrt) && k > 0.0
    ensures CoefficientOfVariation(sqrt, Times(k, s)) == CoefficientOfVariation(sqrt, s)
  {
    var n := |s| as real;
    TimesSums(k, s, 0.0);
    if |s| >= 2 {
      var c := Sum(s) / n;
      TimesSums(k, s, c);
      NoDeviationIff(s, c);
      Quotient(k, Sum(s), n);
      Quotient(Square(k), SumOfSquareDeviations(s, c), n);
      var v := SumOfSquareDeviations(s, c) / n;
      RootOfMultiple(sqrt, k, v);
      CancelFactor(k, sqrt(v), c);
      hide Product, Square, Sum, SumOfSquareDeviations, Times;
      assert Sum(Times(k, s)) / n == Product(k, c);
    }
  }

  lemma Quotient(k: real, x: real, n: real)
    requires n > 0.0
    ensures Product(k, x) / n == Product(k, x / n) && (x >= 0.0 ==> x / n >= 0.0)
  {}

  lemma CancelFactor(k: real, a: real, c: real)
    requires k > 0.0
    ensures Product(k, c) == 0.0 <==> c == 0.0
    ensures c != 0.0 ==> Product(k, a) / Product(k, c) == a / c
  {
    if c != 0.0 {
      var q := a / c;
      assert q * c == a;
      assert q * (k * c) == k * a;
      QuotientIs(k * a, k * c, q);
    }
  }

  lemma QuotientIs(x: real, y: real, q: real)
    requires y != 0.0 && q * y == x
    ensures x / y == q
  {}
}
