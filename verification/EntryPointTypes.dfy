/** The names generate_entry_points.py gives to parameter types, and back: get_capture_param_type_name and
    get_gl_pointer_type; and the splitting of a parameter into its type and its name. */
module EntryPointTypes {
  import opened Text
  import opened TextWords

  const CONST := "const"
  const STAR := '*'

  // What the script reads of a type: its name, whether some const stands alone in it, and its stars.
  datatype Type = Type(base: string, isConst: bool, depth: nat)

  function WithoutConst(ws: seq<string>): seq<string> {
    if ws == [] then [] else (if ws[0] == CONST then [] else [ws[0]]) + WithoutConst(ws[1..])
  }

  // The words of the type apart from const; a const that touches a star does not count as one.
  function Describe(paramType: string): Type {
    Type(Spaced(WithoutConst(Words(Strip(Drop(paramType, STAR))))), CONST in Words(paramType), Count(paramType, STAR))
  }

  function Pointers(n: nat): string { if n == 0 then "" else Pointers(n - 1) + "Pointer" }

  function Suffix(t: Type): string { (if t.isConst then "Const" else "") + Pointers(t.depth) }

  function Code(t: Type): string { t.base + Suffix(t) }

  method GetCaptureParamTypeName(paramType: string) returns (name: string)
    ensures name == Code(Describe(paramType))
  {
    hide Words, Strip, Drop, Spaced, WithoutConst;
    var pointerCount := Count(paramType, STAR);
    var isConst := CONST in Words(paramType);
    name := Spaced(WithoutConst(Words(Strip(Drop(paramType, STAR)))));
    ghost var base := name;
    if isConst { name := name + "Const"; }
    ghost var start := name;
    assert name + Pointers(0) == name;
    for x := 0 to pointerCount
      invariant name == start + Pointers(x)
    {
      PointersNext(start, x);
      name := name + "Pointer";
    }
    SuffixParts(base, isConst, pointerCount);
  }

  lemma PointersNext(start: string, n: nat)
    ensures start + Pointers(n) + "Pointer" == start + Pointers(n + 1)
  {}

  lemma SuffixParts(base: string, isConst: bool, depth: nat)
    ensures Code(Type(base, isConst, depth)) == (if isConst then base + "Const" else base) + Pointers(depth)
  {
    hide Pointers;
    var p := Pointers(depth);
    assert base + ("" + p) == base + p && base + ("Const" + p) == base + "Const" + p;
  }

  const CPP := "ConstPointerPointer"
  const CP := "ConstPointer"
  const PP := "PointerPointer"
  const P := "Pointer"

  function GetGlPointerType(code: string): string {
    if Has(code, CPP) then "const " + Remove(code, CPP) + " * const *"
    else if Has(code, CP) then "const " + Remove(code, CP) + " *"
    else if Has(code, PP) then Remove(code, PP) + " **"
    else if Has(code, P) then Remove(code, P) + " *"
    else code
  }

  // ---- Finding the suffix again ----

  ghost predicate Free(base: string) { !Contains(base, "Const") && !Contains(base, "Pointer") }

  predicate IsCapital(c: char) { 'A' <= c <= 'Z' }

  // The four patterns start with Const or with Pointer.
  ghost predicate Pattern(pat: string) { "Const" <= pat || "Pointer" <= pat }

  // A capital is at the start of the tail and nowhere inside Const or Pointer: an occurrence can neither straddle the
  // end of the base nor, the base being free of both, begin in it.
  lemma NotInBase(base: string, tail: string, pat: string, i: int)
    requires Free(base) && Pattern(pat) && (tail == "" || IsCapital(tail[0]))
    requires 0 <= i < |base|
    ensures !OccursAt(base + tail, pat, i)
  {
    NotStart(base, tail, if "Const" <= pat then "Const" else "Pointer", i);
    StartOccurs(base + tail, pat, if "Const" <= pat then "Const" else "Pointer", i);
  }

  // Const or Pointer itself does not occur there.
  lemma NotStart(base: string, tail: string, h: string, i: int)
    requires Free(base) && h in {"Const", "Pointer"} && (tail == "" || IsCapital(tail[0]))
    requires 0 <= i < |base|
    ensures !OccursAt(base + tail, h, i)
  {
    var s := base + tail;
    if i + |h| <= |base| {
      assert base[i..i + |h|] == s[i..i + |h|];
      assert !OccursAt(base, h, i);
    } else if i + |h| <= |s| {
      var k := |base| - i;
      assert s[|base|] == tail[0];
      assert s[i..i + |h|][k] == s[i + k];
      LowerInside(h, k);
    }
  }

  lemma StartOccurs(s: string, pat: string, h: string, i: int)
    requires h <= pat
    ensures OccursAt(s, pat, i) ==> OccursAt(s, h, i)
  {
    if 0 <= i && i + |pat| <= |s| { assert s[i..i + |h|] == s[i..i + |pat|][..|h|]; }
  }

  lemma LowerInside(h: string, k: nat)
    requires (h == "Const" || h == "Pointer") && 0 < k < |h|
    ensures !IsCapital(h[k])
  {}

  lemma FoundInTail(base: string, tail: string, pat: string)
    requires Free(base) && Pattern(pat) && (tail == "" || IsCapital(tail[0]))
    ensures Contains(base + tail, pat) <==> Contains(tail, pat)
    ensures Remove(base + tail, pat) == base + Remove(tail, pat)
  {
    forall i | 0 <= i < |base| ensures !OccursAt(base + tail, pat, i) { NotInBase(base, tail, pat, i); }
    ContainsAfter(base, tail, pat);
    RemoveAfter(base, tail, pat);
  }

  lemma TooLong(s: string, pat: string)
    requires |s| < |pat|
    ensures !Contains(s, pat)
  {}

  lemma Whole(s: string)
    requires s != ""
    ensures Contains(s, s) && Remove(s, s) == ""
  {
    assert OccursAt(s, s, 0);
    assert s[|s|..] == "";
  }

  lemma NoConstInPointers()
    ensures !Contains("PointerPointer", "ConstPointer")
  {
    var s := "PointerPointer";
    forall i ensures !OccursAt(s, "ConstPointer", i) {
      if 0 <= i && i + 12 <= |s| { assert s[i..i + 12][0] == s[i] != 'C'; }
    }
  }

  // ---- The canonical spelling ----

  const BEFORE_CONST := "const "
  const ONE := " *"
  const TWO := " **"
  const TWO_CONST := " * const *"

  function ConstPart(t: Type): string { if t.isConst then BEFORE_CONST else "" }

  function StarPart(t: Type): string {
    if t.depth == 0 then "" else if t.depth == 1 then ONE else if t.isConst then TWO_CONST else TWO
  }

  function Canonical(t: Type): string { ConstPart(t) + t.base + StarPart(t) }

  ghost predicate Encodable(t: Type) { t.depth <= 2 && (t.isConst ==> t.depth >= 1) }

  // The codes that can be decoded, as they are written.
  lemma CodeIs(t: Type)
    requires Encodable(t)
    ensures Code(t) ==
      if t.isConst && t.depth == 2 then t.base + "ConstPointerPointer"
      else if t.isConst then t.base + "ConstPointer"
      else if t.depth == 2 then t.base + "PointerPointer"
      else if t.depth == 1 then t.base + "Pointer"
      else t.base
  {
    SuffixIs(t);
    hide Suffix;
    assert t.base + "" == t.base;
  }

  lemma SuffixIs(t: Type)
    requires Encodable(t)
    ensures Suffix(t) ==
      if t.isConst then (if t.depth == 2 then CPP else CP)
      else if t.depth == 2 then PP
      else if t.depth == 1 then P
      else ""
  {
    FewPointers();
    ConstFirst();
    hide Pointers, CPP, CP, PP, P;
    assert "" + PP == PP && "" + P == P;
  }

  lemma FewPointers()
    ensures Pointers(0) == "" && Pointers(1) == P && Pointers(2) == PP
  {
    assert "" + "Pointer" == "Pointer";
    assert "Pointer" + "Pointer" == "PointerPointer";
    assert Pointers(1) == Pointers(0) + "Pointer";
  }

  lemma ConstFirst()
    ensures "Const" + P == CP && "Const" + PP == CPP
  {}

  lemma PatternsAre()
    ensures Pattern(CPP) && Pattern(CP) && Pattern(PP) && Pattern(P)
    ensures CPP[0] == 'C' && CP[0] == 'C' && PP[0] == 'P' && P[0] == 'P'
    ensures |CPP| == 19 && |CP| == 12 && |PP| == 14 && |P| == 7
    ensures !Contains(PP, CP)
  {
    NoConstInPointers();
  }

  // Which patterns the suffix of a type contains.
  lemma SuffixFacts(t: Type)
    requires Encodable(t)
    ensures Suffix(t) == "" || IsCapital(Suffix(t)[0])
    ensures Contains(Suffix(t), CPP) <==> t.isConst && t.depth == 2
    ensures !(t.isConst && t.depth == 2) ==> (Contains(Suffix(t), CP) <==> t.isConst)
    ensures !t.isConst ==> (Contains(Suffix(t), PP) <==> t.depth == 2)
    ensures !t.isConst && t.depth < 2 ==> (Contains(Suffix(t), P) <==> t.depth == 1)
    ensures t.isConst ==> Remove(Suffix(t), if t.depth == 2 then CPP else CP) == ""
    ensures !t.isConst && t.depth > 0 ==> Remove(Suffix(t), if t.depth == 2 then PP else P) == ""
  {
    SuffixIs(t);
    PatternsAre();
    hide Contains, Remove, Suffix, CPP, CP, PP, P;
    var tail := Suffix(t);
    if tail != "" { Whole(tail); }
    if |tail| < 19 { TooLong(tail, CPP); }
    if |tail| < 12 { TooLong(tail, CP); }
    if |tail| < 14 { TooLong(tail, PP); }
    if |tail| < 7 { TooLong(tail, P); }
  }

  // Decoding gives the canonical spelling back.
  lemma DecodeCode(t: Type)
    requires Encodable(t) && Free(t.base)
    ensures GetGlPointerType(Code(t)) == Canonical(t)
  {
    SuffixFacts(t);
    PatternsAre();
    CanonicalParts(t);
    hide Contains, Remove, Suffix, CPP, CP, PP, P, Free, Pattern, IsCapital, Code, Canonical, GetGlPointerType;
    FoundInCode(t, CPP);
    FoundInCode(t, CP);
    FoundInCode(t, PP);
    FoundInCode(t, P);
    if !t.isConst && t.depth == 0 { NothingAdded(t); }
    Decoded(Code(t), t.base, t.isConst, t.depth);
  }

  lemma FoundInCode(t: Type, pat: string)
    requires Encodable(t) && Free(t.base) && Pattern(pat) && pat != ""
    ensures Contains(Code(t), pat) <==> Contains(Suffix(t), pat)
    ensures Remove(Suffix(t), pat) == "" ==> Remove(Code(t), pat) == t.base
  {
    SuffixFacts(t);
    hide Contains, Remove, Suffix, Free, Pattern, IsCapital;
    FoundInTail(t.base, Suffix(t), pat);
    assert t.base + "" == t.base;
  }

  lemma NothingAdded(t: Type)
    requires !t.isConst && t.depth == 0
    ensures Code(t) == t.base
  {
    assert "" + "" == "" && t.base + "" == t.base;
  }

  lemma Decoded(code: string, b: string, isConst: bool, depth: nat)
    requires depth <= 2 && (isConst ==> depth >= 1)
    requires Contains(code, CPP) <==> isConst && depth == 2
    requires !(isConst && depth == 2) ==> (Contains(code, CP) <==> isConst)
    requires !isConst ==> (Contains(code, PP) <==> depth == 2)
    requires !isConst && depth < 2 ==> (Contains(code, P) <==> depth == 1)
    requires isConst ==> Remove(code, if depth == 2 then CPP else CP) == b
    requires !isConst && depth > 0 ==> Remove(code, if depth == 2 then PP else P) == b
    ensures isConst ==> GetGlPointerType(code) == "const " + b + if depth == 2 then " * const *" else " *"
    ensures !isConst ==>
      GetGlPointerType(code) == if depth == 2 then b + " **" else if depth == 1 then b + " *" else code
  {
    hide Contains, Remove, CPP, CP, PP, P;
  }

  lemma CanonicalParts(t: Type)
    ensures t.isConst && t.depth == 2 ==> Canonical(t) == "const " + t.base + " * const *"
    ensures t.isConst && t.depth == 1 ==> Canonical(t) == "const " + t.base + " *"
    ensures !t.isConst && t.depth == 2 ==> Canonical(t) == t.base + " **"
    ensures !t.isConst && t.depth == 1 ==> Canonical(t) == t.base + " *"
    ensures !t.isConst && t.depth == 0 ==> Canonical(t) == t.base
  {
    assert "" + t.base == t.base && t.base + "" == t.base;
  }

  // ---- Describing a spelling ----

  // A type name as it is left after taking the stars and const away.
  ghost predicate Name(base: string) {
    && STAR !in base
    && Spaced(Words(base)) == base
    && CONST !in Words(base)
  }

  lemma {:induction false} WithoutConstMembers(ws: seq<string>)
    ensures forall w :: w in WithoutConst(ws) <==> w in ws && w != CONST
    ensures CONST !in ws ==> WithoutConst(ws) == ws
  {
    if ws != [] {
      WithoutConstMembers(ws[1..]);
      assert forall w :: w in ws <==> w == ws[0] || w in ws[1..];
    }
  }

  lemma {:induction false} WithoutConstConcat(a: seq<string>, b: seq<string>)
    ensures WithoutConst(a + b) == WithoutConst(a) + WithoutConst(b)
  {
    if a == [] {
      assert a + b == b;
    } else {
      assert (a + b)[1..] == a[1..] + b;
      WithoutConstConcat(a[1..], b);
    }
  }

  lemma {:induction false} SpacedChars(ws: seq<string>, c: char)
    requires c != ' ' && forall w :: w in ws ==> c !in w
    ensures c !in Spaced(ws)
  {
    if |ws| > 1 { SpacedChars(ws[1..], c); }
  }

  lemma {:induction false} WordChars(s: string, c: char)
    requires c !in s
    ensures forall w :: w in Words(s) ==> c !in w
    decreases |s|
  {
    if s != "" {
      if IsSpace(s[0]) { WordChars(s[1..], c); } else { WordChars(s[Run(s)..], c); }
    }
  }

  // What describes a type is a name.
  lemma DescribedName(s: string)
    ensures Name(Describe(s).base)
  {
    var t := Strip(Drop(s, STAR));
    WordsOfStrip(Drop(s, STAR));
    WordsAreWords(t);
    WordChars(Drop(s, STAR), STAR);
    WithoutConstMembers(Words(t));
    WordsOfSpaced(WithoutConst(Words(t)));
    SpacedChars(WithoutConst(Words(t)), STAR);
  }

  // The part before a name, and the part after it: how they change the words, const and the stars.
  ghost predicate IsBefore(before: string, isConst: bool) {
    && Drop(before, STAR) == before && Count(before, STAR) == 0
    && forall base :: Words(before + base) == (if isConst then [CONST] else []) + Words(base)
  }

  ghost predicate IsAfter(after: string, hasConst: bool, depth: nat) {
    && (after == "" || IsSpace(after[0])) && (Drop(after, STAR) == "" || IsSpace(Drop(after, STAR)[0]))
    && Count(after, STAR) == depth
    && (CONST in Words(after) <==> hasConst)
    && WithoutConst(Words(Drop(after, STAR))) == []
  }

  lemma DescribeParts(before: string, base: string, after: string, isConst: bool, hasConst: bool, depth: nat)
    requires Name(base) && IsBefore(before, isConst) && IsAfter(after, hasConst, depth)
    ensures Describe(before + base + after) == Type(base, isConst || hasConst, depth)
  {
    CountParts(before, base, after, STAR);
    DropParts(before, base, after, STAR);
    CountNone(base, STAR);
    var d := Drop(after, STAR);
    hide Words, Drop, Count, Strip, IsSpace, Spaced;
    WordsConcat(before + base, after);
    WordsConcat(before + base, d);
    WordsOfStrip(before + base + d);
    ConstWords(if isConst then [CONST] else [], Words(base), Words(after), Words(d));
    assert CONST in (if isConst then [CONST] else []) <==> isConst;
    assert WithoutConst(if isConst then [CONST] else []) == [];
  }

  lemma CountParts(a: string, b: string, e: string, c: char)
    ensures Count(a + b + e, c) == Count(a, c) + Count(b, c) + Count(e, c)
  {
    CountConcat(a + b, e, c);
    CountConcat(a, b, c);
  }

  lemma DropParts(a: string, b: string, e: string, c: char)
    ensures Drop(a + b + e, c) == Drop(a, c) + Drop(b, c) + Drop(e, c)
  {
    DropConcat(a + b, e, c);
    DropConcat(a, b, c);
  }

  lemma ConstWords(x: seq<string>, y: seq<string>, after: seq<string>, dropped: seq<string>)
    requires CONST !in y && WithoutConst(dropped) == [] && WithoutConst(x) == []
    ensures WithoutConst(x + y + dropped) == y
    ensures CONST in x + y + after <==> CONST in x || CONST in after
  {
    WithoutConstConcat(x + y, dropped);
    WithoutConstConcat(x, y);
    WithoutConstMembers(y);
    hide WithoutConst, CONST;
    assert [] + y == y && y + [] == y;
  }

  lemma BeforeParts()
    ensures IsBefore("", false) && IsBefore(BEFORE_CONST, true)
  {
    CountNone(BEFORE_CONST, STAR);
    forall base ensures Words("" + base) == [] + Words(base) { assert "" + base == base; }
    forall base ensures Words(BEFORE_CONST + base) == [CONST] + Words(base) { ConstBefore(base); }
  }

  lemma ConstBefore(base: string)
    ensures Words(BEFORE_CONST + base) == [CONST] + Words(base)
  {
    assert BEFORE_CONST == CONST + " ";
    assert CONST + " " + base == CONST + (" " + base);
    ConstIsWord();
    SpaceFirst(base);
    hide Words, CONST;
    WordsConcat(CONST, " " + base);
  }

  lemma ConstIsWord()
    ensures Words(CONST) == [CONST]
  {
    WordsOfWord(CONST);
  }

  lemma SpaceFirst(s: string)
    ensures Words(" " + s) == Words(s) && IsSpace((" " + s)[0])
  {
    assert (" " + s)[1..] == s;
  }

  lemma AfterOne()
    ensures IsAfter(ONE, false, 1) && Drop(ONE, STAR) == " " && Words(ONE) == ["*"] && Words(" ") == []
  {
    SpaceFirst("*");
    SpaceFirst("");
    assert ONE == " " + "*" && " " + "" == " ";
    WordsOfWord("*");
    assert CONST !in ["*"];
  }

  lemma AfterTwo()
    ensures IsAfter(TWO, false, 2)
  {
    SpaceFirst("**");
    SpaceFirst("");
    assert TWO == " " + "**" && " " + "" == " ";
    WordsOfWord("**");
    assert CONST !in ["**"];
    TwoStars();
  }

  lemma TwoStars()
    ensures Drop(TWO, STAR) == " " && Count(TWO, STAR) == 2
  {
    assert TWO == ONE + "*";
    DropConcat(ONE, "*", STAR);
    CountConcat(ONE, "*", STAR);
    AfterOne();
  }

  lemma AfterTwoConst()
    ensures IsAfter(TWO_CONST, true, 2)
  {
    DropTwoConst();
    WordsOfTwoConst();
    assert TWO_CONST[0] == ' ' && (" " + (" " + CONST) + " ")[0] == ' ';
    hide Drop, Count, Words, TWO_CONST, CONST;
    assert WithoutConst([CONST]) == [];
  }

  lemma DropTwoConst()
    ensures Drop(TWO_CONST, STAR) == " " + (" " + CONST) + " " && Count(TWO_CONST, STAR) == 2
  {
    TwoConstParts();
    AfterOne();
    ConstHasNoStar();
    hide Drop, Count, TWO_CONST, CONST, ONE, IsAfter, Words;
    DropParts(ONE, " " + CONST, ONE, STAR);
    CountParts(ONE, " " + CONST, ONE, STAR);
  }

  lemma TwoConstParts()
    ensures TWO_CONST == ONE + (" " + CONST) + ONE && Count(ONE, STAR) == 1
  {
    assert ONE == " " + "*";
    CountConcat(" ", "*", STAR);
  }

  lemma ConstHasNoStar()
    ensures Drop(" " + CONST, STAR) == " " + CONST && Count(" " + CONST, STAR) == 0
  {
    var c := " const";
    assert c == " " + CONST;
    assert STAR !in c;
    CountNone(c, STAR);
  }

  lemma WordsOfTwoConst()
    ensures Words(TWO_CONST) == ["*"] + [CONST] + ["*"] && Words(" " + (" " + CONST) + " ") == [CONST]
  {
    var c := " " + CONST;
    assert TWO_CONST == ONE + c + ONE;
    AfterOne();
    ConstIsWord();
    SpaceFirst(CONST);
    assert ONE[0] == ' ';
    hide Words, TWO_CONST, CONST, ONE, IsAfter;
    WordsConcat(ONE + c, ONE);
    WordsConcat(ONE, c);
    WordsConcat(" " + c, " ");
    SpaceFirst(c);
    assert Words(TWO_CONST) == ["*"] + [CONST] + ["*"];
  }

  // The canonical spelling of a type describes it.
  lemma DescribeCanonical(t: Type)
    requires Encodable(t) && Name(t.base)
    ensures Describe(Canonical(t)) == t
  {
    BeforeParts();
    AfterNone();
    AfterOne();
    AfterTwo();
    AfterTwoConst();
    hide Describe, Name, IsBefore, IsAfter, ONE, TWO, TWO_CONST, BEFORE_CONST, Words, Drop;
    DescribeParts(ConstPart(t), t.base, StarPart(t), t.isConst, t.isConst && t.depth == 2, t.depth);
  }

  lemma AfterNone()
    ensures IsAfter("", false, 0)
  {}

  // ---- Both ways ----

  // Decoding a code gives a spelling of the same type, which has the same code again.
  lemma RoundTrip(s: string)
    requires Encodable(Describe(s)) && Free(Describe(s).base)
    ensures Describe(GetGlPointerType(Code(Describe(s)))) == Describe(s)
    ensures Code(Describe(GetGlPointerType(Code(Describe(s))))) == Code(Describe(s))
  {
    hide Describe, Code, GetGlPointerType;
    DescribedName(s);
    DecodeCode(Describe(s));
    DescribeCanonical(Describe(s));
  }

  // A code tells base, constness and depth apart, whatever they are: no name free of Const and Pointer runs on into a
  // suffix.
  lemma CodeInjective(t: Type, u: Type)
    requires Free(t.base) && Free(u.base)
    ensures Code(t) == Code(u) <==> t == u
  {
    if Code(t) == Code(u) {
      hide Free, Suffix;
      if |t.base| < |u.base| { NotLonger(t, u); }
      if |u.base| < |t.base| { NotLonger(u, t); }
      assert t.base == Code(t)[..|t.base|] && u.base == Code(u)[..|u.base|];
      assert Suffix(t) == Code(t)[|t.base|..] && Suffix(u) == Code(u)[|u.base|..];
      if |t.base| == |u.base| { SuffixInjective(t, u); }
    }
  }

  lemma SuffixStarts(t: Type)
    ensures Suffix(t) != "" ==> Suffix(t)[0] == (if t.isConst then 'C' else 'P')
    ensures Suffix(t) != "" ==> Head(t) <= Suffix(t)
    ensures |Suffix(t)| == (if t.isConst then 5 else 0) + 7 * t.depth
  {
    PointersStart(t.depth);
  }

  lemma {:induction false} PointersStart(n: nat)
    ensures |Pointers(n)| == 7 * n && (n > 0 ==> "Pointer" <= Pointers(n))
  {
    if n > 0 { PointersStart(n - 1); }
  }

  lemma SuffixInjective(t: Type, u: Type)
    requires Suffix(t) == Suffix(u)
    ensures t.isConst == u.isConst && t.depth == u.depth
  {
    SuffixStarts(t);
    SuffixStarts(u);
  }

  lemma NotLonger(t: Type, u: Type)
    requires Free(t.base) && Free(u.base) && |t.base| < |u.base|
    ensures Code(t) != Code(u)
  {
    var n, m := |t.base|, |u.base|;
    SuffixStarts(t);
    SuffixStarts(u);
    hide Suffix;
    if Suffix(t) == "" {
      assert |Code(t)| == n && |Code(u)| >= m;
    } else if n + |Head(t)| <= m {
      assert u.base[n..n + |Head(t)|] == Code(u)[n..n + |Head(t)|];
      assert !OccursAt(u.base, Head(t), n);
      assert Code(t)[n..n + |Head(t)|] == Head(t);
    } else {
      assert Code(t)[m] == Suffix(t)[m - n] == Head(t)[m - n];
      LowerInside(Head(t), m - n);
      if Suffix(u) != "" { assert Code(u)[m] == Suffix(u)[0]; }
    }
  }

  // What a suffix starts with.
  function Head(t: Type): string { if t.isConst then "Const" else "Pointer" }

  // So two spellings have the same code exactly if the same is read of them.
  lemma CodesDiffer(s: string, t: string)
    requires Free(Describe(s).base) && Free(Describe(t).base)
    ensures Code(Describe(s)) == Code(Describe(t)) <==> Describe(s) == Describe(t)
  {
    CodeInjective(Describe(s), Describe(t));
  }

  // ---- Where decoding fails ----

  lemma {:induction false} PointersHaveNoStar(n: nat)
    ensures STAR !in Pointers(n)
  {
    if n > 0 { PointersHaveNoStar(n - 1); }
  }

  // A spelling that is decoded has no more than two stars.
  lemma FewStars(code: string)
    requires STAR !in code
    ensures Count(GetGlPointerType(code), STAR) <= 2
  {
    RemoveChars(code, CPP, STAR);
    RemoveChars(code, CP, STAR);
    RemoveChars(code, PP, STAR);
    RemoveChars(code, P, STAR);
    StarsOf(Remove(code, CPP));
    StarsOf(Remove(code, CP));
    StarsOf(Remove(code, PP));
    StarsOf(Remove(code, P));
    CountNone(code, STAR);
    hide Remove, Count, CPP, CP, PP, P;
  }

  lemma StarsOf(b: string)
    requires STAR !in b
    ensures Count("const " + b + " * const *", STAR) == 2 && Count("const " + b + " *", STAR) == 1
    ensures Count(b + " **", STAR) == 2 && Count(b + " *", STAR) == 1
  {
    TwoStars();
    TwoConstParts();
    DropTwoConst();
    BeforeParts();
    CountNone(b, STAR);
    hide Count, BEFORE_CONST, ONE, TWO, TWO_CONST, Drop, Words, IsBefore;
    NoStarBefore();
    CountParts(BEFORE_CONST, b, TWO_CONST, STAR);
    CountParts(BEFORE_CONST, b, ONE, STAR);
    CountConcat(b, TWO, STAR);
    CountConcat(b, ONE, STAR);
    Literals();
  }

  lemma NoStarBefore()
    ensures Count(BEFORE_CONST, STAR) == 0
  {
    CountNone(BEFORE_CONST, STAR);
  }

  lemma Literals()
    ensures BEFORE_CONST == "const " && ONE == " *" && TWO == " **" && TWO_CONST == " * const *"
  {}

  lemma {:induction false} WithoutConstCount(ws: seq<string>, c: char)
    requires c !in CONST
    ensures CountAll(WithoutConst(ws), c) == CountAll(ws, c)
  {
    if ws != [] {
      WithoutConstCount(ws[1..], c);
      CountNone(CONST, c);
      var rest := WithoutConst(ws[1..]);
      if ws[0] == CONST {
        assert WithoutConst(ws) == rest;
      } else {
        assert ([ws[0]] + rest)[1..] == rest;
      }
    }
  }

  // Describing a type keeps its capitals.
  lemma DescribedCapitals(s: string)
    ensures Count(Describe(s).base, 'C') == Count(s, 'C')
  {
    var d := Drop(s, STAR);
    CountDrop(s, 'C', STAR);
    WordsOfStrip(d);
    CountWords(d, 'C');
    WithoutConstCount(Words(d), 'C');
    CountSpaced(WithoutConst(Words(d)), 'C');
  }

  // A const on a plain type stays in its name.
  lemma PlainConst(t: Type)
    requires Free(t.base) && t.isConst && t.depth == 0
    ensures GetGlPointerType(Code(t)) == Code(t) && Count(Code(t), 'C') == Count(t.base, 'C') + 1
  {
    var tail := "Const";
    assert Suffix(t) == tail;
    FoundInTail(t.base, tail, CPP);
    FoundInTail(t.base, tail, CP);
    FoundInTail(t.base, tail, PP);
    FoundInTail(t.base, tail, P);
    TooLong(tail, CPP);
    TooLong(tail, CP);
    TooLong(tail, PP);
    TooLong(tail, P);
    CountConcat(t.base, tail, 'C');
    CountConcat("C", "onst", 'C');
    assert tail == "C" + "onst";
    CountNone("onst", 'C');
    hide Contains, Remove;
  }

  // Of the types with a name free of Const and Pointer, decoding recovers exactly those with at most two pointers and
  // no const on a plain value.
  lemma RecoveredIff(s: string)
    requires Free(Describe(s).base)
    ensures Describe(GetGlPointerType(Code(Describe(s)))) == Describe(s) <==> Encodable(Describe(s))
  {
    var t := Describe(s);
    DescribedName(s);
    PointersHaveNoStar(t.depth);
    FewStarsInCode(t);
    hide Describe, Code, GetGlPointerType, Free, Name;
    if Encodable(t) {
      RoundTrip(s);
    } else if t.depth > 2 {
      DepthIsStars(GetGlPointerType(Code(t)));
    } else {
      PlainConst(t);
      DescribedCapitals(Code(t));
    }
  }

  lemma FewStarsInCode(t: Type)
    requires Name(t.base)
    ensures Count(GetGlPointerType(Code(t)), STAR) <= 2
  {
    PointersHaveNoStar(t.depth);
    hide Pointers, GetGlPointerType;
    FewStars(Code(t));
  }

  lemma DepthIsStars(s: string)
    ensures Describe(s).depth == Count(s, STAR)
  {}

  const TOUCHING := " const*"

  // A const that touches a star is not seen: the const of the target is lost.
  lemma TouchingConstIsLost(base: string)
    requires Name(base)
    ensures Describe(base + TOUCHING) == Type(base, false, 1)
  {
    BeforeParts();
    AfterTouching();
    hide Describe, Name, IsBefore, IsAfter, TOUCHING;
    DescribeParts("", base, TOUCHING, false, false, 1);
    assert "" + base + TOUCHING == base + TOUCHING;
  }

  lemma AfterTouching()
    ensures IsAfter(TOUCHING, false, 1)
  {
    TouchingDrop();
    TouchingWords();
    SpaceFirst(CONST);
    ConstIsWord();
    hide Drop, Count, Words, CONST;
    assert WithoutConst([CONST]) == [];
  }

  lemma TouchingWords()
    ensures CONST !in Words(TOUCHING) && IsSpace(TOUCHING[0])
  {
    var w := "const*";
    assert TOUCHING == " " + w && |w| == 6 && |CONST| == 5;
    assert IsWord(w);
    hide Words, TOUCHING, CONST, IsWord;
    SpaceFirst(w);
    WordsOfWord(w);
  }

  lemma TouchingDrop()
    ensures Drop(TOUCHING, STAR) == " " + CONST && Count(TOUCHING, STAR) == 1
  {
    assert TOUCHING == " " + CONST + "*";
    ConstHasNoStar();
    hide CONST, TOUCHING;
    DropConcat(" " + CONST, "*", STAR);
    CountConcat(" " + CONST, "*", STAR);
  }
}
