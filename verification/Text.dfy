/** Python and C string searching: find, split, replace. */
module Text {
  datatype Option<T> = None | Some(value: T)

  predicate OccursAt(s: string, pat: string, i: int) {
    0 <= i && i + |pat| <= |s| && s[i..i + |pat|] == pat
  }

  // pat in s, and strstr(s, pat) != nullptr
  ghost predicate Contains(s: string, pat: string) {
    exists i :: OccursAt(s, pat, i)
  }

  // The first occurrence at or after i, or |s| + 1 if there is none.
  function FindFrom(s: string, pat: string, i: nat): (r: nat)
    requires i <= |s| + 1
    ensures i <= r <= |s| + 1
    ensures r <= |s| ==> OccursAt(s, pat, r)
    ensures forall j :: i <= j < r ==> !OccursAt(s, pat, j)
    decreases |s| + 1 - i
  {
    if i == |s| + 1 then i
    else if OccursAt(s, pat, i) then i
    else FindFrom(s, pat, i + 1)
  }

  predicate Has(s: string, pat: string)
    ensures Has(s, pat) <==> Contains(s, pat)
  {
    var r := FindFrom(s, pat, 0);
    assert r == |s| + 1 ==> forall i :: !OccursAt(s, pat, i);
    r <= |s|
  }

  // s.split(pat)[0]
  function Before(s: string, pat: string): string
    requires Contains(s, pat)
  {
    s[..FindFrom(s, pat, 0)]
  }

  // s.split(pat, 1)[1]
  function After(s: string, pat: string): string
    requires Contains(s, pat)
  {
    s[FindFrom(s, pat, 0) + |pat|..]
  }

  lemma FindIsFirst(s: string, pat: string, i: nat)
    requires OccursAt(s, pat, i) && forall j :: 0 <= j < i ==> !OccursAt(s, pat, j)
    ensures FindFrom(s, pat, 0) == i
  {
    var r := FindFrom(s, pat, 0);
    assert r <= i;
  }

  lemma ContainsPrefix(s: string, t: string, pat: string)
    requires Contains(s, pat)
    ensures Contains(s + t, pat)
  {
    var i :| OccursAt(s, pat, i);
    assert (s + t)[i..i + |pat|] == s[i..i + |pat|];
    assert OccursAt(s + t, pat, i);
  }

  // s.split(c)
  function Split(s: string, c: char): (r: seq<string>)
    ensures |r| > 0
  {
    if s == "" then [""]
    else
      var rest := Split(s[1..], c);
      if s[0] == c then [""] + rest else [[s[0]] + rest[0]] + rest[1..]
  }

  // The inverse of Split.
  function Join(parts: seq<string>, c: char): string
    requires |parts| > 0
  {
    if |parts| == 1 then parts[0] else parts[0] + [c] + Join(parts[1..], c)
  }

  lemma {:induction false} JoinSplit(s: string, c: char)
    ensures Join(Split(s, c), c) == s
    ensures forall p :: p in Split(s, c) ==> c !in p
  {
    if s != "" {
      JoinSplit(s[1..], c);
      var rest := Split(s[1..], c);
      if s[0] == c {
        assert Split(s, c)[1..] == rest;
      } else {
        var r := Split(s, c);
        assert r[1..] == rest[1..];
        assert s == [s[0]] + s[1..];
        if |rest| > 1 {
          assert Join(r, c) == [s[0]] + rest[0] + [c] + Join(rest[1..], c);
          assert [s[0]] + rest[0] + [c] + Join(rest[1..], c) == [s[0]] + (rest[0] + [c] + Join(rest[1..], c));
        }
      }
    }
  }

  lemma {:induction false} SplitNone(s: string, c: char)
    requires c !in s
    ensures Split(s, c) == [s]
  {
    if s != "" {
      SplitNone(s[1..], c);
      assert [s[0]] + s[1..] == s;
    }
  }

  // A part and the separator after it come off at the front.
  lemma {:induction false} SplitFirst(a: string, s: string, c: char)
    requires c !in a
    ensures Split(a + [c] + s, c) == [a] + Split(s, c)
  {
    var t := a + [c] + s;
    if a == "" {
      assert t[1..] == s;
    } else {
      assert t[1..] == a[1..] + [c] + s;
      SplitFirst(a[1..], s, c);
      assert [a[0]] + a[1..] == a;
    }
  }

  // ---- The parts of a split string that hold a text ----

  lemma {:induction false} PrefixIsInFirst(s: string, c: char, pat: string)
    requires c !in pat
    ensures pat <= s <==> pat <= Split(s, c)[0]
  {
    if s != "" && pat != "" {
      assert pat[0] in pat;
      PrefixIsInFirst(s[1..], c, pat[1..]);
      if s[0] != c {
        var t := Split(s, c)[0];
        assert t[1..] == Split(s[1..], c)[0];
        assert pat <= s <==> pat[0] == s[0] && pat[1..] <= s[1..];
        assert pat <= t <==> pat[0] == t[0] && pat[1..] <= t[1..];
      }
    }
  }

  lemma OccursInRest(s: string, pat: string, i: int)
    requires s != "" && i > 0
    ensures OccursAt(s, pat, i) <==> OccursAt(s[1..], pat, i - 1)
  {
    if i + |pat| <= |s| { assert s[i..i + |pat|] == s[1..][i - 1..i - 1 + |pat|]; }
  }

  lemma ContainsSplitFirst(s: string, pat: string)
    requires s != ""
    ensures Contains(s, pat) <==> pat <= s || Contains(s[1..], pat)
  {
    assert OccursAt(s, pat, 0) <==> pat <= s;
    forall i | i > 0 ensures OccursAt(s, pat, i) <==> OccursAt(s[1..], pat, i - 1) { OccursInRest(s, pat, i); }
    if i :| OccursAt(s[1..], pat, i) { assert OccursAt(s, pat, i + 1); }
    if i :| OccursAt(s, pat, i) {
      if i > 0 { assert OccursAt(s[1..], pat, i - 1); }
    }
  }

  ghost predicate InSome(ts: seq<string>, pat: string) { exists k :: 0 <= k < |ts| && Contains(ts[k], pat) }

  lemma InSomeFirst(ts: seq<string>, pat: string)
    requires ts != []
    ensures InSome(ts, pat) <==> Contains(ts[0], pat) || InSome(ts[1..], pat)
  {
    if k :| 0 <= k < |ts| && Contains(ts[k], pat) {
      if k > 0 { assert ts[1..][k - 1] == ts[k]; }
    }
    if k :| 0 <= k < |ts[1..]| && Contains(ts[1..][k], pat) { assert ts[k + 1] == ts[1..][k]; }
  }

  lemma EmptyContains(pat: string)
    ensures Contains("", pat) <==> pat == ""
  {
    assert pat == "" ==> OccursAt("", pat, 0);
  }

  // A text without the separator is found exactly when it is part of one of the parts, whole or not.
  lemma {:induction false} PartsContain(s: string, c: char, pat: string)
    requires c !in pat
    ensures Contains(s, pat) <==> InSome(Split(s, c), pat)
  {
    hide Contains;
    var ts := Split(s, c);
    InSomeFirst(ts, pat);
    if s == "" {
      assert ts[1..] == [];
    } else {
      var rest := Split(s[1..], c);
      PartsContain(s[1..], c, pat);
      ContainsSplitFirst(s, pat);
      InSomeFirst(rest, pat);
      if s[0] == c {
        EmptyContains(pat);
        assert ts[1..] == rest;
        if pat != "" { assert pat[0] in pat; }
      } else {
        PrefixIsInFirst(s, c, pat);
        ContainsSplitFirst(ts[0], pat);
        assert ts[0][1..] == rest[0] && ts[1..] == rest[1..];
      }
    }
  }

  // ---- Spaces ----

  predicate IsSpace(c: char) { c in " \t\n\r\U{0B}\U{0C}" }

  // s.strip()
  function Strip(s: string): string
    decreases |s|
  {
    if s == "" then s
    else if IsSpace(s[0]) then Strip(s[1..])
    else if IsSpace(s[|s| - 1]) then Strip(s[..|s| - 1])
    else s
  }

  ghost predicate AllSpace(s: string) { forall c :: c in s ==> IsSpace(c) }

  ghost predicate Bare(s: string) { s != "" ==> !IsSpace(s[0]) && !IsSpace(s[|s| - 1]) }

  ghost predicate StrippedBy(s: string, a: string, r: string, b: string) {
    s == a + r + b && AllSpace(a) && AllSpace(b) && Bare(r)
  }

  // What is left is the part without spaces at its ends, with nothing but spaces around it, and there is only one.
  lemma {:induction false} StripIff(s: string, r: string)
    ensures r == Strip(s) <==> exists a, b :: StrippedBy(s, a, r, b)
    decreases |s|
  {
    if s == "" {
      assert StrippedBy(s, "", "", "");
    } else if IsSpace(s[0]) {
      StripIff(s[1..], r);
      if a, b :| StrippedBy(s[1..], a, r, b) {
        assert [s[0]] + s[1..] == s;
        assert s == ([s[0]] + a) + r + b;
        assert StrippedBy(s, [s[0]] + a, r, b);
      }
      if a, b :| StrippedBy(s, a, r, b) { FrontSpace(s, a, r, b); }
    } else if IsSpace(s[|s| - 1]) {
      var n := |s| - 1;
      StripIff(s[..n], r);
      if a, b :| StrippedBy(s[..n], a, r, b) {
        assert s[..n] + [s[n]] == s;
        assert s == a + r + (b + [s[n]]);
        assert StrippedBy(s, a, r, b + [s[n]]);
      }
      if a, b :| StrippedBy(s, a, r, b) { BackSpace(s, s[..n], a, r, b); }
    } else {
      assert StrippedBy(s, "", s, "");
      if a, b :| StrippedBy(s, a, r, b) { NoSpace(s, a, r, b); }
    }
  }

  lemma SpaceAtFront(a: string, t: string)
    requires AllSpace(a)
    ensures a != "" ==> IsSpace((a + t)[0])
  {
    if a != "" { assert (a + t)[0] == a[0] && a[0] in a; }
  }

  lemma SpaceAtBack(t: string, b: string)
    requires AllSpace(b)
    ensures b != "" ==> IsSpace((t + b)[|t + b| - 1])
  {
    if b != "" { assert (t + b)[|t + b| - 1] == b[|b| - 1] && b[|b| - 1] in b; }
  }

  lemma FrontSpace(s: string, a: string, r: string, b: string)
    requires StrippedBy(s, a, r, b) && s != "" && IsSpace(s[0])
    ensures exists a', b' :: StrippedBy(s[1..], a', r, b')
  {
    if a != "" {
      assert s[1..] == a[1..] + r + b;
      assert StrippedBy(s[1..], a[1..], r, b);
    } else {
      assert s[0] == (r + b)[0] && r == "";
      assert s[1..] == "" + r + b[1..];
      assert StrippedBy(s[1..], "", r, b[1..]);
    }
  }

  lemma BackSpace(s: string, init: string, a: string, r: string, b: string)
    requires StrippedBy(s, a, r, b) && s != "" && !IsSpace(s[0]) && IsSpace(s[|s| - 1]) && init == s[..|s| - 1]
    ensures exists a', b' :: StrippedBy(init, a', r, b')
  {
    assert s == a + (r + b);
    SpaceAtFront(a, r + b);
    SpaceAtFront(b, "");
    assert b + "" == b;
    assert init == a + r + b[..|b| - 1];
    assert StrippedBy(init, a, r, b[..|b| - 1]);
  }

  lemma NoSpace(s: string, a: string, r: string, b: string)
    requires StrippedBy(s, a, r, b) && s != "" && !IsSpace(s[0]) && !IsSpace(s[|s| - 1])
    ensures r == s
  {
    assert s == a + (r + b);
    SpaceAtFront(a, r + b);
    SpaceAtBack(a + r, b);
    assert "" + r + "" == r;
  }
}
