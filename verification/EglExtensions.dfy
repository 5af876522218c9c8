/** Extension strings of EGL: lists of names separated by spaces. CheckExtensionExists looks for a whole name, and the
    rest of util/EGLWindow.cpp for a substring. */
module EglExtensions {
  import opened Text

  const SPACE := ' '

  // The token of s that starts at i is name.
  ghost predicate TokenAt(s: string, i: int, name: string) {
    && OccursAt(s, name, i)
    && (i > 0 ==> s[i - 1] == SPACE)
    && (i + |name| < |s| ==> s[i + |name|] == SPACE)
  }

  lemma {:induction false} FirstToken(s: string, name: string)
    requires SPACE !in name
    ensures Split(s, SPACE)[0] == name <==> TokenAt(s, 0, name)
  {
    if s != "" && s[0] != SPACE && name != "" {
      var n1 := name[1..];
      FirstToken(s[1..], n1);
      assert name == [name[0]] + n1;
      if |name| <= |s| { assert s[..|name|] == [s[0]] + s[1..][..|n1|]; }
    } else if s != "" && s[0] == SPACE && name != "" {
      assert name[0] != SPACE;
      assert |name| <= |s| ==> s[0..|name|][0] == s[0];
    }
  }

  lemma Shifted(s: string, i: int, name: string)
    requires s != "" && i > 1
    ensures TokenAt(s, i, name) <==> TokenAt(s[1..], i - 1, name)
  {
    if i + |name| <= |s| { assert s[i..i + |name|] == s[1..][i - 1..i - 1 + |name|]; }
  }

  lemma ShiftedFirst(s: string, name: string)
    requires s != ""
    ensures TokenAt(s, 1, name) <==> s[0] == SPACE && TokenAt(s[1..], 0, name)
  {
    if 1 + |name| <= |s| { assert s[1..1 + |name|] == s[1..][0..|name|]; }
  }

  lemma {:induction false} LaterToken(s: string, name: string)
    requires SPACE !in name
    ensures name in Split(s, SPACE)[1..] <==> exists i :: i >= 1 && TokenAt(s, i, name)
  {
    if s != "" {
      var s1, rest := s[1..], Split(s[1..], SPACE);
      FirstToken(s1, name);
      LaterToken(s1, name);
      assert name in rest <==> name == rest[0] || name in rest[1..];
      assert Split(s, SPACE)[1..] == if s[0] == SPACE then rest else rest[1..];
      ShiftedFirst(s, name);
      forall i | i > 1 ensures TokenAt(s, i, name) <==> TokenAt(s1, i - 1, name) { Shifted(s, i, name); }
      if i :| i >= 1 && TokenAt(s1, i, name) { assert TokenAt(s, i + 1, name); }
      if i :| i >= 1 && TokenAt(s, i, name) {
        if i > 1 { assert TokenAt(s1, i - 1, name); }
      }
    }
  }

  lemma TokensFound(s: string, name: string)
    requires SPACE !in name
    ensures name in Split(s, SPACE) <==> exists i :: TokenAt(s, i, name)
  {
    var ts := Split(s, SPACE);
    FirstToken(s, name);
    LaterToken(s, name);
    assert name in ts <==> name == ts[0] || name in ts[1..];
    if i :| TokenAt(s, i, name) { assert i == 0 || i >= 1; }
  }

  // ---- CheckExtensionExists ----

  predicate CheckExtensionExists(allExtensions: string, extName: string) {
    Has(" " + allExtensions + " ", " " + extName + " ")
  }

  lemma PaddedAt(s: string, i: int, name: string)
    ensures OccursAt(" " + s + " ", " " + name + " ", i) <==> TokenAt(s, i, name)
  {
    var p, q := " " + s + " ", " " + name + " ";
    if 0 <= i && i + |q| <= |p| {
      var w := p[i..i + |q|];
      var n := |name|;
      assert p[i + 1..i + 1 + n] == w[1..1 + n];
      assert p[1..1 + |s|] == s;
      assert p[i + 1..i + 1 + n] == p[1..1 + |s|][i..i + n];
      assert w == [w[0]] + w[1..1 + |name|] + [w[1 + |name|]];
      assert w[0] == p[i] && w[1 + |name|] == p[i + 1 + |name|];
      assert q[0] == ' ' && q[1..1 + |name|] == name && q[1 + |name|] == ' ';
      assert w == q <==> w[0] == ' ' && w[1..1 + |name|] == name && w[1 + |name|] == ' ';
    }
  }

  // For a name without a space the padded search finds exactly the names listed.
  lemma CheckFindsTokens(allExtensions: string, extName: string)
    requires SPACE !in extName
    ensures CheckExtensionExists(allExtensions, extName) <==> extName in Split(allExtensions, SPACE)
  {
    TokensFound(allExtensions, extName);
    var p, q := " " + allExtensions + " ", " " + extName + " ";
    forall i ensures OccursAt(p, q, i) <==> TokenAt(allExtensions, i, extName) { PaddedAt(allExtensions, i, extName); }
    if i :| OccursAt(p, q, i) { assert TokenAt(allExtensions, i, extName); }
    if i :| TokenAt(allExtensions, i, extName) { assert OccursAt(p, q, i); }
  }

  // And only for such a name: one with a space is found in itself, but never listed.
  lemma CheckIsExactIff(extName: string)
    ensures (forall all :: CheckExtensionExists(all, extName) <==> extName in Split(all, SPACE)) <==> SPACE !in extName
  {
    if SPACE !in extName {
      forall all ensures CheckExtensionExists(all, extName) <==> extName in Split(all, SPACE) {
        CheckFindsTokens(all, extName);
      }
    } else {
      JoinSplit(extName, SPACE);
      assert extName !in Split(extName, SPACE);
      var p := " " + extName + " ";
      assert OccursAt(p, p, 0);
      assert CheckExtensionExists(extName, extName);
    }
  }

  // ---- The substring tests ----

  // strstr finds a name exactly when it is part of one of those listed, whole or not.
  lemma StrstrFindsParts(s: string, pat: string)
    requires SPACE !in pat
    ensures Contains(s, pat) <==> InSome(Split(s, SPACE), pat)
  {
    PartsContain(s, SPACE, pat);
  }

  // So a name is found of which only a longer one is listed.
  lemma StrstrOfLongerName(name: string, suffix: string)
    requires SPACE !in name && SPACE !in suffix && suffix != ""
    ensures Contains(name + suffix, name) && name !in Split(name + suffix, SPACE)
  {
    var s := name + suffix;
    assert OccursAt(s, name, 0);
    FirstToken(s, s);
    LaterToken(s, name);
    assert TokenAt(s, 0, s);
    forall i | i >= 1 ensures !TokenAt(s, i, name) {
      if i <= |s| { assert s[i - 1] in name || s[i - 1] in suffix; }
    }
    var ts := Split(s, SPACE);
    assert name in ts <==> name == ts[0] || name in ts[1..];
  }

  // ---- A substring test with a space at its end ----

  ghost predicate EndsWith(t: string, name: string) { |name| <= |t| && t[|t| - |name|..] == name }

  // Some name but the last ends with the given one.
  ghost predicate EndsEarlier(ts: seq<string>, name: string) { exists k :: 0 <= k < |ts| - 1 && EndsWith(ts[k], name) }

  lemma EndsEarlierFirst(ts: seq<string>, name: string)
    requires |ts| > 1
    ensures EndsEarlier(ts, name) <==> EndsWith(ts[0], name) || EndsEarlier(ts[1..], name)
  {
    if k :| 0 <= k < |ts| - 1 && EndsWith(ts[k], name) {
      if k > 0 { assert ts[1..][k - 1] == ts[k]; }
    }
    if k :| 0 <= k < |ts[1..]| - 1 && EndsWith(ts[1..][k], name) { assert ts[k + 1] == ts[1..][k]; }
  }

  lemma {:induction false} OneToken(s: string)
    ensures |Split(s, SPACE)| == 1 <==> SPACE !in s
  {
    if s != "" { OneToken(s[1..]); }
  }

  lemma PrefixAndSpace(s: string, name: string)
    requires SPACE !in name
    ensures name + " " <= s <==> Split(s, SPACE)[0] == name && |Split(s, SPACE)| > 1
  {
    FirstToken(s, name);
    OneToken(s);
    if name + " " <= s {
      assert s[|name|] == ' ';
      assert s[0..|name|] == name;
    }
    if TokenAt(s, 0, name) {
      assert s[0..|name|] == name;
      if |name| < |s| { assert s[..|name| + 1] == name + " "; } else { assert s == name; }
    }
  }

  // So it finds a name listed anywhere but at the end, whole or as the end of a longer one.
  lemma {:induction false} SpacedFindsEarlier(s: string, name: string)
    requires SPACE !in name
    ensures Contains(s, name + " ") <==> EndsEarlier(Split(s, SPACE), name)
  {
    hide Contains, EndsEarlier, EndsWith;
    var ts := Split(s, SPACE);
    if s == "" {
      EmptyContains(name + " ");
      OnlyOne(ts, name);
    } else {
      var s1, rest := s[1..], Split(s[1..], SPACE);
      ContainsSplitFirst(s, name + " ");
      PrefixAndSpace(s, name);
      SpacedFindsEarlier(s1, name);
      if s[0] == SPACE {
        assert ts[1..] == rest;
        EndsEarlierFirst(ts, name);
        EmptyEnds(name);
      } else if |rest| == 1 {
        OnlyOne(ts, name);
        OnlyOne(rest, name);
      } else {
        EndsEarlierFirst(ts, name);
        EndsEarlierFirst(rest, name);
        assert ts[1..] == rest[1..];
        EndsWithFirst(s[0], rest[0], name);
      }
    }
  }

  lemma EmptyEnds(name: string)
    ensures EndsWith("", name) <==> name == ""
  {}

  lemma EndsWithFirst(c: char, t: string, name: string)
    ensures EndsWith([c] + t, name) <==> [c] + t == name || EndsWith(t, name)
  {
    var u := [c] + t;
    if |name| <= |t| { assert u[|u| - |name|..] == t[|t| - |name|..]; }
  }

  lemma OnlyOne(ts: seq<string>, name: string)
    requires |ts| == 1
    ensures !EndsEarlier(ts, name)
  {}
}
