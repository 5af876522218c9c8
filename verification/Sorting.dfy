/** Python's sorted(): a stable insertion sort under any total preorder, and the orders the scripts sort by. */
module Sorting {

  ghost predicate TotalPreorder<T(!new)>(le: (T, T) -> bool) {
    && (forall x, y :: le(x, y) || le(y, x))
    && (forall x, y, z :: le(x, y) && le(y, z) ==> le(x, z))
  }

  ghost predicate AntiSymmetric<T(!new)>(le: (T, T) -> bool) {
    forall x, y :: le(x, y) && le(y, x) ==> x == y
  }

  ghost predicate SortedBy<T>(le: (T, T) -> bool, s: seq<T>) {
    forall i, j :: 0 <= i < j < |s| ==> le(s[i], s[j])
  }

  ghost predicate NoDuplicates<T>(s: seq<T>) {
    forall i, j :: 0 <= i < j < |s| ==> s[i] != s[j]
  }

  function Insert<T>(le: (T, T) -> bool, x: T, s: seq<T>): seq<T> {
    if s == [] || le(x, s[0]) then [x] + s else [s[0]] + Insert(le, x, s[1..])
  }

  function Sort<T>(le: (T, T) -> bool, s: seq<T>): seq<T> {
    if s == [] then [] else Insert(le, s[0], Sort(le, s[1..]))
  }

  lemma {:induction false} InsertKeeps<T>(le: (T, T) -> bool, x: T, s: seq<T>)
    ensures multiset(Insert(le, x, s)) == multiset(s) + multiset{x}
  {
    if s != [] && !le(x, s[0]) {
      InsertKeeps(le, x, s[1..]);
      assert s == [s[0]] + s[1..];
    }
  }

  lemma {:induction false} InsertSorts<T(!new)>(le: (T, T) -> bool, x: T, s: seq<T>)
    requires TotalPreorder(le)
    ensures multiset(Insert(le, x, s)) == multiset(s) + multiset{x}
    ensures SortedBy(le, s) ==> SortedBy(le, Insert(le, x, s))
  {
    InsertKeeps(le, x, s);
    if s != [] && !le(x, s[0]) {
      InsertSorts(le, x, s[1..]);
      var t := Insert(le, x, s[1..]);
      assert s == [s[0]] + s[1..];
      if SortedBy(le, s) {
        forall i | 0 <= i < |t| ensures le(s[0], t[i]) {
          assert t[i] in multiset(t);
        }
      }
    }
  }

  lemma {:induction false} SortSorts<T(!new)>(le: (T, T) -> bool, s: seq<T>)
    requires TotalPreorder(le)
    ensures multiset(Sort(le, s)) == multiset(s) && |Sort(le, s)| == |s|
    ensures SortedBy(le, Sort(le, s))
  {
    if s != [] {
      SortSorts(le, s[1..]);
      InsertSorts(le, s[0], Sort(le, s[1..]));
      assert s == [s[0]] + s[1..];
    }
    assert |multiset(Sort(le, s))| == |multiset(s)|;
  }

  // A sorted arrangement is unique when no two different values are equivalent.
  lemma {:induction false} SortedUnique<T(!new)>(le: (T, T) -> bool, s: seq<T>, t: seq<T>)
    requires TotalPreorder(le) && AntiSymmetric(le)
    requires SortedBy(le, s) && SortedBy(le, t) && multiset(s) == multiset(t)
    ensures s == t
  {
    assert |s| == |multiset(s)| == |multiset(t)| == |t|;
    if s != [] {
      SortedFirst(le, s, t);
      SortedFirst(le, t, s);
      RestSorted(le, s);
      RestSorted(le, t);
      assert s[0] == t[0];
      hide TotalPreorder, SortedBy;
      SortedUnique(le, s[1..], t[1..]);
      assert s == [s[0]] + s[1..] && t == [t[0]] + t[1..];
    }
  }

  lemma SortedFirst<T(!new)>(le: (T, T) -> bool, s: seq<T>, t: seq<T>)
    requires TotalPreorder(le) && SortedBy(le, s) && multiset(s) == multiset(t) && |s| == |t| > 0
    ensures le(s[0], t[0])
  {
    assert t[0] in multiset(s);
  }

  lemma RestSorted<T>(le: (T, T) -> bool, s: seq<T>)
    requires s != [] && SortedBy(le, s)
    ensures SortedBy(le, s[1..]) && multiset(s[1..]) == multiset(s) - multiset{s[0]}
  {
    assert s == [s[0]] + s[1..];
  }

  lemma SortOfPermutation<T(!new)>(le: (T, T) -> bool, s: seq<T>, t: seq<T>)
    requires TotalPreorder(le) && AntiSymmetric(le)
    requires multiset(s) == multiset(t)
    ensures Sort(le, s) == Sort(le, t)
  {
    SortSorts(le, s); SortSorts(le, t);
    SortedUnique(le, Sort(le, s), Sort(le, t));
  }

  // ---- The order of strings ----

  predicate Lex(a: string, b: string) {
    a == [] || (b != [] && (a[0] < b[0] || (a[0] == b[0] && Lex(a[1..], b[1..]))))
  }

  // Where a first differs from b, a has the smaller character.
  ghost predicate SmallerAt(a: string, b: string, i: int) {
    0 <= i < |a| && i < |b| && a[..i] == b[..i] && a[i] < b[i]
  }

  // Either the first is the start of the second, or it has the smaller character where they first differ.
  lemma {:induction false} LexIff(a: string, b: string)
    ensures Lex(a, b) <==> a <= b || exists i :: SmallerAt(a, b, i)
  {
    if a != [] && b != [] {
      SmallerFirst(a, b);
      if a[0] == b[0] {
        hide SmallerAt;
        LexIff(a[1..], b[1..]);
        if i :| SmallerAt(a, b, i) { SmallerLater(a, b, i); }
        if i :| SmallerAt(a[1..], b[1..], i) { SmallerLater(a, b, i + 1); }
      }
    }
  }

  lemma SmallerFirst(a: string, b: string)
    requires a != [] && b != []
    ensures SmallerAt(a, b, 0) <==> a[0] < b[0]
    ensures a[0] != b[0] ==> forall i :: i > 0 ==> !SmallerAt(a, b, i)
  {
    assert a[..0] == b[..0];
    forall i | i > 0 && a[0] != b[0] ensures !SmallerAt(a, b, i) {
      if i <= |a| && i <= |b| { assert a[..i][0] == a[0] && b[..i][0] == b[0]; }
    }
  }

  lemma SmallerLater(a: string, b: string, i: int)
    requires a != [] && b != [] && a[0] == b[0]
    ensures i > 0 ==> (SmallerAt(a, b, i) <==> SmallerAt(a[1..], b[1..], i - 1))
  {
    if 0 < i <= |a| && i <= |b| {
      assert a[..i] == [a[0]] + a[1..][..i - 1] && b[..i] == [b[0]] + b[1..][..i - 1];
      assert a[1..][..i - 1] == a[..i][1..] && b[1..][..i - 1] == b[..i][1..];
    }
  }

  lemma {:induction false} LexTotal(a: string, b: string)
    ensures Lex(a, b) || Lex(b, a)
  {
    if a != [] && b != [] && a[0] == b[0] { LexTotal(a[1..], b[1..]); }
  }

  lemma {:induction false} LexTransitive(a: string, b: string, c: string)
    requires Lex(a, b) && Lex(b, c)
    ensures Lex(a, c)
  {
    if a != [] && a[0] == b[0] == c[0] { LexTransitive(a[1..], b[1..], c[1..]); }
  }

  lemma {:induction false} LexAntiSymmetric(a: string, b: string)
    requires Lex(a, b) && Lex(b, a)
    ensures a == b
  {
    if a != [] {
      LexAntiSymmetric(a[1..], b[1..]);
      assert a == [a[0]] + a[1..] && b == [b[0]] + b[1..];
    }
  }

  lemma LexIsOrder()
    ensures TotalPreorder(Lex) && AntiSymmetric(Lex)
  {
    forall a, b ensures Lex(a, b) || Lex(b, a) { LexTotal(a, b); }
    forall a, b, c | Lex(a, b) && Lex(b, c) ensures Lex(a, c) { LexTransitive(a, b, c); }
    forall a, b | Lex(a, b) && Lex(b, a) ensures a == b { LexAntiSymmetric(a, b); }
  }

  function Lower(s: string): string {
    seq(|s|, i requires 0 <= i < |s| => if 'A' <= s[i] <= 'Z' then s[i] - 'A' + 'a' else s[i])
  }

  // The key=str.lower order.
  predicate LexLower(a: string, b: string) { Lex(Lower(a), Lower(b)) }

  lemma LexLowerIsPreorder()
    ensures TotalPreorder(LexLower)
  {
    LexIsOrder();
    forall a, b ensures LexLower(a, b) || LexLower(b, a) { LexTotal(Lower(a), Lower(b)); }
    forall a, b, c | LexLower(a, b) && LexLower(b, c) ensures LexLower(a, c) {
      LexTransitive(Lower(a), Lower(b), Lower(c));
    }
  }

  // set(s), in order of first occurrence
  function Dedup<T(==,!new)>(s: seq<T>): (r: seq<T>)
    ensures forall x :: x in r <==> x in s
    ensures NoDuplicates(r)
  {
    if s == [] then []
    else
      var r := Dedup(s[..|s| - 1]);
      assert s == s[..|s| - 1] + [s[|s| - 1]];
      if s[|s| - 1] in r then r else r + [s[|s| - 1]]
  }

  // sortedi(set(s))
  function SortedSet(s: seq<string>): seq<string> {
    Sort(LexLower, Dedup(s))
  }

  lemma NoDuplicatesByMultiset<T>(s: seq<T>, t: seq<T>)
    requires multiset(s) == multiset(t) && NoDuplicates(s)
    ensures NoDuplicates(t)
  {
    forall i, j | 0 <= i < j < |t| ensures t[i] != t[j] {
      if t[i] == t[j] {
        TwiceInMultiset(t, i, j);
        OnceInMultiset(s, t[i]);
        assert false;
      }
    }
  }

  lemma TwiceInMultiset<T>(s: seq<T>, i: int, j: int)
    requires 0 <= i < j < |s| && s[i] == s[j]
    ensures multiset(s)[s[i]] >= 2
  {
    assert s == s[..j] + [s[j]] + s[j + 1..];
    assert s[i] in s[..j];
    assert multiset(s) == multiset(s[..j]) + multiset{s[j]} + multiset(s[j + 1..]);
  }

  lemma {:induction false} OnceInMultiset<T>(s: seq<T>, x: T)
    requires NoDuplicates(s)
    ensures multiset(s)[x] <= 1
  {
    if s != [] {
      OnceInMultiset(s[1..], x);
      assert s == [s[0]] + s[1..];
      if s[0] == x {
        assert x !in s[1..];
        assert x !in multiset(s[1..]);
      }
    }
  }

  lemma SortedSetCorrect(s: seq<string>)
    ensures forall x :: x in SortedSet(s) <==> x in s
    ensures NoDuplicates(SortedSet(s))
    ensures SortedBy(LexLower, SortedSet(s))
  {
    LexLowerIsPreorder();
    var d, r := Dedup(s), SortedSet(s);
    SortSorts(LexLower, d);
    NoDuplicatesByMultiset(d, r);
    forall x ensures x in r <==> x in s {
      assert x in r <==> x in multiset(r);
      assert x in d <==> x in multiset(d);
    }
  }
}
