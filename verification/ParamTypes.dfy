/** The C types behind the names of generate_entry_points.py: what the spelling of a parameter type means in C, and when
    encoding and decoding keep that meaning. */
module ParamTypes {
  import opened EntryPointTypes
  import opened Text
  import opened TextWords

  // ---- C types and their spelling ----

  // The words of the base type, and what is const: first the base type itself, then each pointer in turn.
  datatype CType = CType(base: seq<string>, consts: seq<bool>)
  {
    function Depth(): int { |consts| - 1 }

    // All targets are const or none is, and the parameter itself is not.
    ghost predicate Regular() {
      && |consts| > 0
      && forall k :: 0 <= k < |consts| ==> consts[k] == (k < Depth() && consts[0])
    }
  }

  const STAR_TOKEN := "*"

  // How many characters come before a star.
  function Stem(c: string): (k: nat)
    ensures k <= |c|
    ensures forall i :: 0 <= i < k ==> c[i] != STAR
    ensures k < |c| ==> c[k] == STAR
  {
    if c == "" || c[0] == STAR then 0 else 1 + Stem(c[1..])
  }

  // A piece without spaces, cut into stars and the words between them.
  function Chop(c: string): seq<string>
    decreases |c|
  {
    if c == "" then []
    else if c[0] == STAR then [STAR_TOKEN] + Chop(c[1..])
    else
      assert Stem(c) > 0;
      [c[..Stem(c)]] + Chop(c[Stem(c)..])
  }

  function ChopAll(ws: seq<string>): seq<string> {
    if ws == [] then [] else Chop(ws[0]) + ChopAll(ws[1..])
  }

  // The tokens of a type, as C sees them: spaces only matter between words.
  function Lex(s: string): seq<string> { ChopAll(Words(s)) }

  // A const belongs to the base type before the first star, and to the pointer of the star it follows.
  function TypeOf(tokens: seq<string>): (t: CType)
    ensures |t.consts| > 0
  {
    if tokens == [] then CType([], [false])
    else
      var t, w := TypeOf(tokens[..|tokens| - 1]), tokens[|tokens| - 1];
      if w == STAR_TOKEN then CType(t.base, t.consts + [false])
      else if w == CONST then CType(t.base, t.consts[|t.consts| - 1 := true])
      else CType(t.base + [w], t.consts)
  }

  function Meaning(s: string): CType { TypeOf(Lex(s)) }

  // After a star there is no word but const.
  ghost predicate Proper(tokens: seq<string>) {
    forall i, j :: 0 <= i < j < |tokens| && tokens[i] == STAR_TOKEN && tokens[j] != STAR_TOKEN ==> tokens[j] == CONST
  }

  // ---- What spacing does ----

  function NonStars(tokens: seq<string>): seq<string> {
    if tokens == [] then [] else (if tokens[0] == STAR_TOKEN then [] else [tokens[0]]) + NonStars(tokens[1..])
  }

  function Stars(tokens: seq<string>): nat {
    if tokens == [] then 0 else (if tokens[0] == STAR_TOKEN then 1 else 0) + Stars(tokens[1..])
  }

  // Two words with stars between them and no space: taking the stars out makes them one.
  ghost predicate Glued(s: string) { exists c :: c in Words(s) && |NonStars(Chop(c))| >= 2 }

  ghost predicate WordAt(s: string, w: string, i: int) {
    && OccursAt(s, w, i)
    && (i > 0 ==> IsSpace(s[i - 1]))
    && (i + |w| < |s| ==> IsSpace(s[i + |w|]))
  }

  // Some const has a space, or an end of the spelling, on either side.
  ghost predicate StandsAlone(s: string) { exists i :: WordAt(s, CONST, i) }

  // ---- Words by position ----

  lemma WordAtShift(s: string, w: string, k: nat, i: int)
    requires 0 < k < i && k <= |s|
    ensures WordAt(s, w, i) <==> WordAt(s[k..], w, i - k)
  {
    if i + |w| <= |s| { assert s[i..i + |w|] == s[k..][i - k..i - k + |w|]; }
  }

  // A word starts neither inside a run of characters nor at a space.
  lemma WordAtRun(s: string, w: string, i: int)
    requires IsWord(w) && s != "" && !IsSpace(s[0])
    ensures WordAt(s, w, 0) <==> w == s[..Run(s)]
    ensures 0 < i <= Run(s) ==> !WordAt(s, w, i)
  {
    var k := Run(s);
    if 0 < i <= k && i < |s| && i + |w| <= |s| { assert s[i..i + |w|][0] == s[i]; }
    if |w| <= |s| {
      assert s[0..|w|] == s[..|w|];
      if |w| > k { assert s[..|w|][k] == s[k]; }
    }
  }

  lemma {:induction false} WordByPosition(s: string, w: string)
    requires IsWord(w)
    ensures w in Words(s) <==> exists i :: WordAt(s, w, i)
    decreases |s|
  {
    if s != "" {
      WordsStep(s);
      if IsSpace(s[0]) {
        WordByPosition(s[1..], w);
        SpaceThenWord(s, w);
      } else {
        var k := Run(s);
        WordByPosition(s[k..], w);
        RunThenWord(s, w);
      }
    }
  }

  lemma SpaceThenWord(s: string, w: string)
    requires IsWord(w) && s != "" && IsSpace(s[0])
    ensures (exists i :: WordAt(s, w, i)) <==> exists i :: WordAt(s[1..], w, i)
  {
    hide Run, IsSpace;
    if i :| WordAt(s, w, i) {
      assert s[i] == s[i..i + |w|][0] == w[0];
      assert s[1..][i - 1..i - 1 + |w|] == s[i..i + |w|];
      assert WordAt(s[1..], w, i - 1);
    }
    if i :| WordAt(s[1..], w, i) {
      assert s[i + 1..i + 1 + |w|] == s[1..][i..i + |w|];
      assert WordAt(s, w, i + 1);
    }
  }

  lemma RunThenWord(s: string, w: string)
    requires IsWord(w) && s != "" && !IsSpace(s[0])
    ensures (exists i :: WordAt(s, w, i)) <==> w == s[..Run(s)] || exists i :: WordAt(s[Run(s)..], w, i)
  {
    var k := Run(s);
    hide Run;
    if i :| WordAt(s, w, i) {
      WordAtRun(s, w, i);
      if i > k { WordAtShift(s, w, k, i); }
    }
    WordAtRun(s, w, 0);
    if i :| WordAt(s[k..], w, i) {
      assert s[k..][i..i + |w|][0] == s[k..][i] == s[k + i];
      WordAtShift(s, w, k, i + k);
    }
  }

  lemma ConstStands(s: string)
    ensures StandsAlone(s) <==> CONST in Words(s)
  {
    WordByPosition(s, CONST);
  }

  // ---- Tokens ----

  lemma {:induction false} NonStarsConcat(a: seq<string>, b: seq<string>)
    ensures NonStars(a + b) == NonStars(a) + NonStars(b) && Stars(a + b) == Stars(a) + Stars(b)
  {
    if a == [] {
      assert a + b == b;
    } else {
      assert (a + b)[1..] == a[1..] + b;
      NonStarsConcat(a[1..], b);
    }
  }

  lemma {:induction false} TypeParts(tokens: seq<string>)
    ensures TypeOf(tokens).base == WithoutConst(NonStars(tokens)) && TypeOf(tokens).Depth() == Stars(tokens)
    ensures (exists k :: 0 <= k < |TypeOf(tokens).consts| && TypeOf(tokens).consts[k]) <==> CONST in tokens
  {
    if tokens != [] {
      var init, w := tokens[..|tokens| - 1], tokens[|tokens| - 1];
      TypeParts(init);
      assert tokens == init + [w];
      NonStarsConcat(init, [w]);
      WithoutConstConcat(NonStars(init), NonStars([w]));
      TypeSnoc(init, w);
      hide TypeOf;
      var t, u := TypeOf(init), TypeOf(tokens);
      if k :| 0 <= k < |t.consts| && t.consts[k] { assert u.consts[k]; }
      if w == CONST { assert u.consts[|t.consts| - 1]; }
      if k :| 0 <= k < |u.consts| && u.consts[k] {
        if w != CONST { assert t.consts[k]; }
      }
      assert NonStars([w]) == if w == STAR_TOKEN then [] else [w];
      assert WithoutConst([w]) == if w == CONST then [] else [w];
    }
  }

  lemma TypeSnoc(tokens: seq<string>, w: string)
    ensures var t := TypeOf(tokens);
            TypeOf(tokens + [w]) ==
              if w == STAR_TOKEN then CType(t.base, t.consts + [false])
              else if w == CONST then CType(t.base, t.consts[|t.consts| - 1 := true])
              else CType(t.base + [w], t.consts)
  {
    assert (tokens + [w])[..|tokens|] == tokens;
  }

  function Joined(ws: seq<string>): string { if ws == [] then "" else ws[0] + Joined(ws[1..]) }

  lemma DropStem(c: string)
    ensures var k := Stem(c); Drop(c, STAR) == c[..k] + Drop(c[k..], STAR) && Count(c, STAR) == Count(c[k..], STAR)
  {
    var k := Stem(c);
    assert c == c[..k] + c[k..];
    DropConcat(c[..k], c[k..], STAR);
    CountConcat(c[..k], c[k..], STAR);
    CountNone(c[..k], STAR);
  }

  lemma ChopStep(c: string)
    requires c != ""
    ensures c[0] == STAR ==>
      && Chop(c) == [STAR_TOKEN] + Chop(c[1..])
      && NonStars(Chop(c)) == NonStars(Chop(c[1..])) && Stars(Chop(c)) == 1 + Stars(Chop(c[1..]))
    ensures var k := Stem(c);
      c[0] != STAR ==>
      && k > 0 && STAR !in c[..k] && c[..k] != STAR_TOKEN
      && Chop(c) == [c[..k]] + Chop(c[k..])
      && NonStars(Chop(c)) == [c[..k]] + NonStars(Chop(c[k..])) && Stars(Chop(c)) == Stars(Chop(c[k..]))
  {
    if c[0] == STAR {
      OneToken(STAR_TOKEN, Chop(c[1..]));
    } else {
      assert c[..Stem(c)][0] == c[0];
      OneToken(c[..Stem(c)], Chop(c[Stem(c)..]));
    }
  }

  lemma OneToken(t: string, rest: seq<string>)
    ensures NonStars([t] + rest) == (if t == STAR_TOKEN then [] else [t]) + NonStars(rest)
    ensures Stars([t] + rest) == (if t == STAR_TOKEN then 1 else 0) + Stars(rest)
  {
    assert ([t] + rest)[1..] == rest;
  }

  // Cutting loses nothing: the words without the stars, and the stars.
  lemma {:induction false} ChopFacts(c: string)
    ensures Joined(NonStars(Chop(c))) == Drop(c, STAR) && Stars(Chop(c)) == Count(c, STAR)
    decreases |c|
  {
    if c != "" {
      ChopStep(c);
      if c[0] == STAR {
        ChopFacts(c[1..]);
      } else {
        DropStem(c);
        ChopFacts(c[Stem(c)..]);
        hide Chop, NonStars, Stars, Drop, Count, Stem;
        JoinedFirst(c[..Stem(c)], NonStars(Chop(c[Stem(c)..])));
      }
    }
  }

  lemma JoinedFirst(w: string, ws: seq<string>)
    ensures Joined([w] + ws) == w + Joined(ws)
  {
    assert ([w] + ws)[1..] == ws;
  }

  lemma {:induction false} ChopWords(c: string)
    ensures forall t :: t in NonStars(Chop(c)) ==> t != "" && STAR !in t
    decreases |c|
  {
    if c != "" {
      ChopStep(c);
      hide Chop, NonStars;
      ChopWords(if c[0] == STAR then c[1..] else c[Stem(c)..]);
    }
  }

  // What is left of the pieces without their stars.
  function DropAll(ws: seq<string>): seq<string> {
    if ws == [] then [] else (if Drop(ws[0], STAR) == "" then [] else [Drop(ws[0], STAR)]) + DropAll(ws[1..])
  }

  lemma {:induction false} DropKeepsWord(w: string)
    requires forall i :: 0 <= i < |w| ==> !IsSpace(w[i])
    ensures forall i :: 0 <= i < |Drop(w, STAR)| ==> !IsSpace(Drop(w, STAR)[i])
  {
    if w != "" { DropKeepsWord(w[1..]); }
  }

  lemma {:induction false} WordsOfDrop(s: string)
    ensures Words(Drop(s, STAR)) == DropAll(Words(s))
    decreases |s|
  {
    if s != "" {
      WordsStep(s);
      if IsSpace(s[0]) {
        WordsOfDrop(s[1..]);
        WordsStep([s[0]] + Drop(s[1..], STAR));
        assert ([s[0]] + Drop(s[1..], STAR))[1..] == Drop(s[1..], STAR);
      } else {
        var k := Run(s);
        WordsOfDrop(s[k..]);
        DropKeepsWord(s[..k]);
        DropRun(s);
        var d := Drop(s[..k], STAR);
        hide Words, Drop, Run, IsSpace;
        if d == "" { NoWords(); } else { WordsOfWord(d); }
        WordsConcat(d, Drop(s[k..], STAR));
        assert ([s[..k]] + Words(s[k..]))[1..] == Words(s[k..]);
      }
    }
  }

  lemma DropRun(s: string)
    requires s != "" && !IsSpace(s[0])
    ensures var k := Run(s);
            && Drop(s, STAR) == Drop(s[..k], STAR) + Drop(s[k..], STAR)
            && (Drop(s[k..], STAR) == "" || IsSpace(Drop(s[k..], STAR)[0]))
  {
    var k := Run(s);
    assert s == s[..k] + s[k..];
    DropConcat(s[..k], s[k..], STAR);
  }

  // ---- Glued words ----

  function Size(ws: seq<string>): nat { if ws == [] then 0 else |ws[0]| + Size(ws[1..]) }

  function Consts(ws: seq<string>): nat { if ws == [] then 0 else (if ws[0] == CONST then 1 else 0) + Consts(ws[1..]) }

  lemma {:induction false} SizeConcat(a: seq<string>, b: seq<string>)
    ensures Size(a + b) == Size(a) + Size(b) && Consts(a + b) == Consts(a) + Consts(b)
  {
    if a == [] {
      assert a + b == b;
    } else {
      assert (a + b)[1..] == a[1..] + b;
      SizeConcat(a[1..], b);
    }
  }

  lemma {:induction false} SizeWithoutConst(ws: seq<string>)
    ensures Size(WithoutConst(ws)) + 5 * Consts(ws) == Size(ws)
  {
    if ws != [] {
      SizeWithoutConst(ws[1..]);
      var rest := WithoutConst(ws[1..]);
      if ws[0] == CONST {
        assert WithoutConst(ws) == rest;
      } else {
        assert ([ws[0]] + rest)[1..] == rest;
      }
    }
  }

  lemma {:induction false} SizeJoined(ws: seq<string>)
    ensures |Joined(ws)| == Size(ws)
  {
    if ws != [] { SizeJoined(ws[1..]); }
  }

  lemma {:induction false} AllConst(tokens: seq<string>)
    requires forall t :: t in tokens && t != STAR_TOKEN ==> t == CONST
    ensures forall w :: w in NonStars(tokens) ==> w == CONST
  {
    if tokens != [] {
      assert forall t :: t in tokens[1..] ==> t in tokens;
      AllConst(tokens[1..]);
      assert tokens[0] in tokens;
    }
  }

  // In a piece of a proper spelling every word but the first is a const.
  lemma LaterAreConst(c: string)
    requires Proper(Chop(c))
    ensures forall k :: 1 <= k < |NonStars(Chop(c))| ==> NonStars(Chop(c))[k] == CONST
    ensures c != "" && c[0] == STAR ==> forall w :: w in NonStars(Chop(c)) ==> w == CONST
  {
    if c != "" {
      ChopStep(c);
      StarChopped(c);
      if c[0] == STAR {
        EachConst(NonStars(Chop(c)));
      } else {
        var rest := c[Stem(c)..];
        ProperParts([c[..Stem(c)]], Chop(rest));
        StarChopped(rest);
        hide Chop, NonStars, Proper;
        EachConst(NonStars(Chop(rest)));
      }
    }
  }

  lemma EachConst(ns: seq<string>)
    requires forall w :: w in ns ==> w == CONST
    ensures forall k :: 0 <= k < |ns| ==> ns[k] == CONST
  {
    forall k | 0 <= k < |ns| ensures ns[k] == CONST { assert ns[k] in ns; }
  }

  // What starts with a star, or is empty, has no word but const.
  lemma StarChopped(c: string)
    requires Proper(Chop(c))
    ensures c == "" || c[0] == STAR ==> forall w :: w in NonStars(Chop(c)) ==> w == CONST
  {
    if c == "" {
      assert NonStars(Chop(c)) == [];
    } else {
      ChopStep(c);
      if c[0] == STAR { StarFirst(Chop(c)); }
    }
  }

  lemma StarFirst(tokens: seq<string>)
    requires tokens != [] && tokens[0] == STAR_TOKEN && Proper(tokens)
    ensures forall w :: w in NonStars(tokens) ==> w == CONST
  {
    forall t | t in tokens && t != STAR_TOKEN ensures t == CONST {
      var j :| 0 <= j < |tokens| && tokens[j] == t;
      assert tokens[0] == STAR_TOKEN;
    }
    AllConst(tokens);
  }

  // A piece on its own: without stars it has the same words, unless two are glued; then a const is lost.
  lemma PieceConsts(c: string)
    requires Proper(Chop(c))
    ensures var ns, d := NonStars(Chop(c)), DropAll([c]);
            && Size(d) == Size(ns)
            && (|ns| <= 1 ==> d == ns)
            && (|ns| >= 2 ==> Consts(d) < Consts(ns))
  {
    var ns := NonStars(Chop(c));
    ChopFacts(c);
    ChopWords(c);
    LaterAreConst(c);
    hide Chop, NonStars, Drop;
    PieceDropped(c);
    JoinedWords(ns);
  }

  lemma PieceDropped(c: string)
    ensures DropAll([c]) == if Drop(c, STAR) == "" then [] else [Drop(c, STAR)]
  {}

  // Joining a word and at least one const makes a longer word.
  lemma JoinedWords(ns: seq<string>)
    requires forall w :: w in ns ==> w != ""
    requires forall k :: 1 <= k < |ns| ==> ns[k] == CONST
    ensures var j := Joined(ns);
            var d := if j == "" then [] else [j];
            && Size(d) == Size(ns)
            && (|ns| <= 1 ==> d == ns)
            && (|ns| >= 2 ==> Consts(d) < Consts(ns))
  {
    SizeJoined(ns);
    if |ns| == 1 {
      assert ns[0] in ns && ns[0] + "" == ns[0] && ns == [ns[0]];
    } else if |ns| >= 2 {
      assert ns[0] in ns && ns[1] == CONST && ns[1..][0] == ns[1];
      assert Size(ns) == |ns[0]| + Size(ns[1..]) && Size(ns[1..]) == 5 + Size(ns[1..][1..]);
      assert Consts(ns) >= Consts(ns[1..]) >= 1;
    }
  }

  lemma ProperParts(a: seq<string>, b: seq<string>)
    requires Proper(a + b)
    ensures Proper(a) && Proper(b)
  {
    var t := a + b;
    assert forall i :: 0 <= i < |a| ==> a[i] == t[i];
    assert forall i :: 0 <= i < |b| ==> b[i] == t[|a| + i];
  }

  ghost predicate AnyGlued(ws: seq<string>) { exists c :: c in ws && |NonStars(Chop(c))| >= 2 }

  lemma {:induction false} PiecesConsts(ws: seq<string>)
    requires Proper(ChopAll(ws))
    ensures var ns, d := NonStars(ChopAll(ws)), DropAll(ws);
            && Size(d) == Size(ns)
            && (!AnyGlued(ws) ==> d == ns)
            && Consts(d) <= Consts(ns) && (AnyGlued(ws) ==> Consts(d) < Consts(ns))
  {
    if ws != [] {
      var c, rest := ws[0], ws[1..];
      ProperParts(Chop(c), ChopAll(rest));
      PiecesConsts(rest);
      PieceConsts(c);
      NonStarsConcat(Chop(c), ChopAll(rest));
      FirstPiece(ws);
      hide Chop, NonStars, DropAll, Size, Consts, Drop, Proper;
      SizeConcat(DropAll([c]), DropAll(rest));
      SizeConcat(NonStars(Chop(c)), NonStars(ChopAll(rest)));
    }
  }

  lemma FirstPiece(ws: seq<string>)
    requires ws != []
    ensures DropAll(ws) == DropAll([ws[0]]) + DropAll(ws[1..])
    ensures AnyGlued(ws) <==> |NonStars(Chop(ws[0]))| >= 2 || AnyGlued(ws[1..])
  {
    hide Chop, NonStars, Drop;
    assert DropAll([ws[0]]) == (if Drop(ws[0], STAR) == "" then [] else [Drop(ws[0], STAR)]);
    assert forall c :: c in ws <==> c == ws[0] || c in ws[1..];
  }

  // ---- What the encoder reads ----

  lemma {:induction false} StarsOfPieces(ws: seq<string>)
    ensures Stars(ChopAll(ws)) == CountAll(ws, STAR)
  {
    if ws != [] {
      StarsOfPieces(ws[1..]);
      ChopFacts(ws[0]);
      NonStarsConcat(Chop(ws[0]), ChopAll(ws[1..]));
    }
  }

  lemma {:induction false} TokensAreWords(ws: seq<string>)
    requires forall c :: c in ws ==> IsWord(c)
    ensures forall t :: t in NonStars(ChopAll(ws)) ==> IsWord(t)
  {
    if ws != [] {
      var c := ws[0];
      assert c in ws;
      TokensAreWords(ws[1..]);
      NonStarsConcat(Chop(c), ChopAll(ws[1..]));
      TokensOfWord(c);
    }
  }

  lemma {:induction false} TokensOfWord(c: string)
    requires forall i :: 0 <= i < |c| ==> !IsSpace(c[i])
    ensures forall t :: t in NonStars(Chop(c)) ==> IsWord(t)
    decreases |c|
  {
    if c != "" {
      ChopStep(c);
      hide Chop, NonStars, IsSpace;
      TokensOfWord(if c[0] == STAR then c[1..] else c[Stem(c)..]);
      if c[0] != STAR { assert IsWord(c[..Stem(c)]); }
    }
  }

  // The words of the base type, each a word; and of what the encoder reads.
  lemma BaseWords(s: string)
    ensures Meaning(s).base == WithoutConst(NonStars(Lex(s)))
    ensures forall w :: w in Meaning(s).base ==> IsWord(w)
    ensures Describe(s).base == Spaced(WithoutConst(DropAll(Words(s))))
    ensures forall w :: w in WithoutConst(DropAll(Words(s))) ==> IsWord(w)
  {
    TypeParts(Lex(s));
    WordsAreWords(s);
    TokensAreWords(Words(s));
    WithoutConstMembers(NonStars(Lex(s)));
    WordsOfStrip(Drop(s, STAR));
    WordsOfDrop(s);
    WordsAreWords(Drop(s, STAR));
    WithoutConstMembers(DropAll(Words(s)));
  }

  // Of every proper spelling the encoder reads the depth right; the base exactly when no two words are glued; and it
  // reads a const exactly when some const stands alone, wherever that is.
  lemma ReadingIff(s: string)
    requires Proper(Lex(s))
    ensures Describe(s).depth == Meaning(s).Depth()
    ensures Describe(s).base == Spaced(Meaning(s).base) <==> !Glued(s)
    ensures Describe(s).isConst <==> StandsAlone(s)
  {
    DepthRead(s);
    ConstStands(s);
    BaseWords(s);
    PiecesConsts(Words(s));
    var d, ns := DropAll(Words(s)), NonStars(Lex(s));
    SizeWithoutConst(d);
    SizeWithoutConst(ns);
    assert AnyGlued(Words(s)) <==> Glued(s);
    hide Meaning, Describe, Lex, Words, DropAll, NonStars, Glued, AnyGlued, StandsAlone, Proper;
    if WithoutConst(d) != WithoutConst(ns) { SpacedDiffers(WithoutConst(d), WithoutConst(ns)); }
  }

  lemma SpacedDiffers(a: seq<string>, b: seq<string>)
    requires (forall w :: w in a ==> IsWord(w)) && (forall w :: w in b ==> IsWord(w))
    ensures a != b ==> Spaced(a) != Spaced(b)
  {
    WordsOfSpaced(a);
    WordsOfSpaced(b);
  }

  lemma DepthRead(s: string)
    ensures Describe(s).depth == Meaning(s).Depth()
  {
    TypeParts(Lex(s));
    StarsOfPieces(Words(s));
    CountWords(s, STAR);
  }

  // A const that stands alone is the const of something.
  lemma StandingIsConst(s: string)
    requires StandsAlone(s)
    ensures exists k :: 0 <= k < |Meaning(s).consts| && Meaning(s).consts[k]
  {
    ConstStands(s);
    TypeParts(Lex(s));
    ChopConst();
    hide CONST, Chop, Words, StandsAlone, TypeOf;
    PieceInAll(Words(s), CONST);
    assert CONST in Chop(CONST);
    assert CONST in Lex(s);
    var k :| 0 <= k < |TypeOf(Lex(s)).consts| && TypeOf(Lex(s)).consts[k];
    assert Meaning(s).consts[k];
  }

  lemma ChopConst()
    ensures Chop(CONST) == [CONST]
  {
    StemAll(CONST);
    ChopStep(CONST);
    assert CONST[..5] == CONST && CONST[5..] == "";
    assert Chop("") == [];
  }

  lemma {:induction false} StemAll(c: string)
    requires STAR !in c
    ensures Stem(c) == |c|
  {
    if c != "" {
      assert c[0] in c;
      StemAll(c[1..]);
    }
  }

  lemma {:induction false} PieceInAll(ws: seq<string>, c: string)
    requires c in ws
    ensures forall t :: t in Chop(c) ==> t in ChopAll(ws)
  {
    hide Chop;
    if c != ws[0] { PieceInAll(ws[1..], c); }
  }

  function BeforeStar(tokens: seq<string>): seq<string> {
    if tokens == [] || tokens[0] == STAR_TOKEN then [] else [tokens[0]] + BeforeStar(tokens[1..])
  }

  lemma {:induction false} BeforeStarSnoc(tokens: seq<string>, w: string)
    ensures BeforeStar(tokens + [w]) ==
      if STAR_TOKEN in tokens || w == STAR_TOKEN then BeforeStar(tokens) else BeforeStar(tokens) + [w]
  {
    if tokens != [] && tokens[0] != STAR_TOKEN {
      assert (tokens + [w])[1..] == tokens[1..] + [w];
      BeforeStarSnoc(tokens[1..], w);
    }
  }

  // The base type is const if a const comes before the first star, and a pointer starts with the star.
  lemma {:induction false} TargetConst(tokens: seq<string>)
    ensures TypeOf(tokens).consts[0] <==> CONST in BeforeStar(tokens)
    ensures TypeOf(tokens).Depth() > 0 <==> STAR_TOKEN in tokens
  {
    hide CONST, STAR_TOKEN;
    ConstIsNoStar();
    if tokens != [] {
      var init, w := tokens[..|tokens| - 1], tokens[|tokens| - 1];
      assert tokens == init + [w];
      TargetConst(init);
      BeforeStarSnoc(init, w);
    }
  }

  lemma ConstIsNoStar()
    ensures CONST != STAR_TOKEN
  {}

  // So whether the target is const is read right exactly if some const stands alone, wherever it is, just when a const
  // comes before the first star.
  lemma TargetReadIff(s: string)
    requires Proper(Lex(s))
    ensures Describe(s).isConst == Meaning(s).consts[0] <==> (StandsAlone(s) <==> CONST in BeforeStar(Lex(s)))
    ensures Meaning(s).Depth() == 0 ==> Describe(s).isConst == Meaning(s).consts[0]
  {
    ReadingIff(s);
    PlainConstRead(s);
    TargetConst(Lex(s));
  }

  // Without a star every const stands alone.
  lemma PlainConstRead(s: string)
    ensures Meaning(s).Depth() == 0 ==> (StandsAlone(s) <==> Meaning(s).consts[0])
  {
    TypeParts(Lex(s));
    StarsOfPieces(Words(s));
    ConstStands(s);
    WordsAreWords(s);
    hide StandsAlone, Words, TypeOf;
    var t := TypeOf(Lex(s));
    if t.Depth() == 0 {
      ChopStarless(Words(s));
      if k :| 0 <= k < |t.consts| && t.consts[k] { assert k == 0; }
    }
  }

  lemma {:induction false} StarFree(c: string)
    requires Count(c, STAR) == 0
    ensures STAR !in c
  {
    if c != "" { StarFree(c[1..]); }
  }

  lemma ChopWhole(c: string)
    requires c != "" && STAR !in c
    ensures Chop(c) == [c]
  {
    StemAll(c);
    ChopStep(c);
    assert c[0] in c && c[..|c|] == c && c[|c|..] == "";
    assert Chop("") == [];
  }

  lemma {:induction false} ChopStarless(ws: seq<string>)
    requires (forall c :: c in ws ==> c != "") && CountAll(ws, STAR) == 0
    ensures ChopAll(ws) == ws
  {
    if ws != [] {
      assert ws[0] in ws;
      StarFree(ws[0]);
      ChopWhole(ws[0]);
      assert forall c :: c in ws[1..] ==> c in ws;
      ChopStarless(ws[1..]);
      assert ws == [ws[0]] + ws[1..];
    }
  }

  // ---- Names free of Const and Pointer ----

  ghost predicate FreeWords(ws: seq<string>) { forall w :: w in ws ==> Free(w) }

  predicate Pattern2(h: string) { h == "Const" || h == "Pointer" }

  // Neither Const nor Pointer runs over into what starts with a space or a small c.
  lemma NoRunOver(u: string, v: string, h: string)
    requires Pattern2(h) && v != "" && (v[0] == ' ' || v[0] == 'c')
    requires !Contains(u, h) && !Contains(v, h)
    ensures !Contains(u + v, h)
  {
    var s := u + v;
    forall i ensures !OccursAt(s, h, i) {
      if 0 <= i && i + |h| <= |u| {
        assert u[i..i + |h|] == s[i..i + |h|];
        assert !OccursAt(u, h, i);
      } else if |u| <= i && i + |h| <= |s| {
        assert v[i - |u|..i - |u| + |h|] == s[i..i + |h|];
        assert !OccursAt(v, h, i - |u|);
      } else if 0 <= i < |u| && i + |h| <= |s| {
        var k := |u| - i;
        assert s[i..i + |h|][k] == s[|u|] == v[0];
        InsidePattern(h, k);
      }
    }
  }

  lemma InsidePattern(h: string, k: nat)
    requires Pattern2(h) && 0 < k < |h|
    ensures h[k] != ' ' && h[k] != 'c'
  {}

  lemma FreeRunOn(u: string, v: string)
    requires v != "" && (v[0] == ' ' || v[0] == 'c') && Free(u) && Free(v)
    ensures Free(u + v)
  {
    hide Contains;
    NoRunOver(u, v, "Const");
    NoRunOver(u, v, "Pointer");
  }

  lemma FreeEmpty()
    ensures Free("") && Free(CONST)
  {
    var c := CONST;
    assert 'C' !in c && 'P' !in c;
    forall i ensures !OccursAt(c, "Const", i) {
      if 0 <= i && i + 5 <= |c| { assert c[i..i + 5][0] == c[i] && c[i] in c; }
    }
    TooLong(c, "Pointer");
  }

  lemma {:induction false} FreeJoined(ws: seq<string>)
    requires ws != [] ==> Free(ws[0])
    requires forall k :: 1 <= k < |ws| ==> ws[k] == CONST
    ensures Free(Joined(ws))
  {
    FreeEmpty();
    hide Free, CONST;
    if |ws| == 1 {
      assert ws[0] + "" == ws[0];
    } else if |ws| > 1 {
      FreeJoined(ws[1..]);
      StartsSmall(ws[1..]);
      FreeRunOn(ws[0], Joined(ws[1..]));
    }
  }

  lemma StartsSmall(ws: seq<string>)
    requires ws != [] && ws[0] == CONST
    ensures Joined(ws) != "" && Joined(ws)[0] == 'c'
  {}

  lemma {:induction false} FreeSpaced(ws: seq<string>)
    requires FreeWords(ws)
    ensures Free(Spaced(ws))
  {
    FreeEmpty();
    if |ws| == 1 {
      assert ws[0] in ws;
    } else if |ws| > 1 {
      FreeSpaced(ws[1..]);
      assert ws[0] in ws;
      FreeAfterSpace(Spaced(ws[1..]));
      FreeRunOn(ws[0], " " + Spaced(ws[1..]));
      assert ws[0] + " " + Spaced(ws[1..]) == ws[0] + (" " + Spaced(ws[1..]));
    }
  }

  lemma FreeAfterSpace(v: string)
    requires Free(v)
    ensures Free(" " + v)
  {
    NoneAfterSpace(v, "Const");
    NoneAfterSpace(v, "Pointer");
  }

  lemma NoneAfterSpace(v: string, h: string)
    requires Pattern2(h) && !Contains(v, h)
    ensures !Contains(" " + v, h)
  {
    var s := " " + v;
    forall i ensures !OccursAt(s, h, i) {
      if i == 0 && |h| <= |s| {
        assert s[0..|h|][0] == ' ';
      } else if 0 < i && i + |h| <= |s| {
        assert v[i - 1..i - 1 + |h|] == s[i..i + |h|];
        assert !OccursAt(v, h, i - 1);
      }
    }
  }

  // Gluing consts on makes no Const or Pointer either: what is read of a free name is free.
  lemma {:induction false} FreePieces(ws: seq<string>)
    requires Proper(ChopAll(ws)) && FreeWords(WithoutConst(NonStars(ChopAll(ws))))
    ensures FreeWords(DropAll(ws))
  {
    if ws != [] {
      var c, rest := ws[0], ws[1..];
      ProperParts(Chop(c), ChopAll(rest));
      NonStarsConcat(Chop(c), ChopAll(rest));
      WithoutConstConcat(NonStars(Chop(c)), NonStars(ChopAll(rest)));
      ChopFacts(c);
      LaterAreConst(c);
      hide Chop, NonStars, Drop, Proper, Free;
      FreePieces(rest);
      var ns := NonStars(Chop(c));
      if ns != [] { FirstFree(ns); }
      FreeJoined(ns);
    }
  }

  lemma FirstFree(ns: seq<string>)
    requires ns != [] && FreeWords(WithoutConst(ns))
    ensures Free(ns[0])
  {
    FreeEmpty();
    hide Free;
    WithoutConstMembers(ns);
    assert ns[0] in ns;
  }

  lemma ReadIsFree(s: string)
    requires Proper(Lex(s)) && FreeWords(Meaning(s).base)
    ensures Free(Describe(s).base)
  {
    BaseWords(s);
    FreePieces(Words(s));
    WithoutConstMembers(DropAll(Words(s)));
    hide Free, Meaning, Describe, Lex, Proper, DropAll;
    FreeSpaced(WithoutConst(DropAll(Words(s))));
  }

  // ---- There and back ----

  function DecodedConsts(isConst: bool, depth: nat): seq<bool> { seq(depth + 1, k => isConst && k < depth) }

  lemma RegularIs(t: CType, isConst: bool, depth: nat)
    requires |t.consts| == depth + 1
    ensures t.consts == DecodedConsts(isConst, depth) <==> t.Regular() && (depth > 0 ==> t.consts[0] == isConst)
  {
    var d := DecodedConsts(isConst, depth);
    if t.Regular() && (depth > 0 ==> t.consts[0] == isConst) {
      assert forall k :: 0 <= k <= depth ==> t.consts[k] == d[k];
    }
  }

  lemma {:induction false} ChopAllConcat(a: seq<string>, b: seq<string>)
    ensures ChopAll(a + b) == ChopAll(a) + ChopAll(b)
  {
    if a == [] {
      assert a + b == b;
    } else {
      assert (a + b)[1..] == a[1..] + b;
      ChopAllConcat(a[1..], b);
    }
  }

  // The tokens of the canonical spelling.
  lemma LexCanonical(t: Type)
    requires Encodable(t) && Name(t.base)
    ensures Lex(Canonical(t)) == (if t.isConst then [CONST] else []) + Words(t.base) + AfterTokens(t)
  {
    BeforeParts();
    AfterTokensAre(t);
    BaseStarless(t.base);
    hide Name, IsAfter, ONE, TWO, TWO_CONST, BEFORE_CONST, Words, CONST, ChopAll, Chop;
    var before := if t.isConst then [CONST] else [];
    WordsConcat(ConstPart(t) + t.base, StarPart(t));
    ChopAllConcat(before + Words(t.base), Words(StarPart(t)));
    ChopAllConcat(before, Words(t.base));
    ChopBefore(t.isConst);
  }

  lemma ChopBefore(isConst: bool)
    ensures ChopAll(if isConst then [CONST] else []) == if isConst then [CONST] else []
  {
    ChopConst();
    assert [CONST][1..] == [] && [CONST] + [] == [CONST];
  }

  lemma BaseStarless(base: string)
    requires Name(base)
    ensures ChopAll(Words(base)) == Words(base)
  {
    CountNone(base, STAR);
    CountWords(base, STAR);
    WordsAreWords(base);
    ChopStarless(Words(base));
  }

  function AfterTokens(t: Type): seq<string> {
    if t.depth == 0 then []
    else if t.depth == 1 then [STAR_TOKEN]
    else if t.isConst then [STAR_TOKEN, CONST, STAR_TOKEN]
    else [STAR_TOKEN, STAR_TOKEN]
  }

  lemma ChopStars()
    ensures Chop("*") == [STAR_TOKEN] && Chop("**") == [STAR_TOKEN, STAR_TOKEN]
  {
    assert "*"[1..] == "" && "**"[1..] == "*";
    ChopStep("*");
    ChopStep("**");
    assert Chop("") == [];
  }

  lemma AfterTokensAre(t: Type)
    requires Encodable(t)
    ensures ChopAll(Words(StarPart(t))) == AfterTokens(t) && (StarPart(t) == "" || IsSpace(StarPart(t)[0]))
  {
    ChopStars();
    if t.depth == 0 {
      NoWords();
      assert ChopAll([]) == [];
    } else if t.depth == 1 {
      AfterOne();
      ChopOne("*");
    } else if t.isConst {
      AfterTwoConst();
      WordsOfTwoConst();
      ChopTwoConst();
    } else {
      AfterTwo();
      WordsOfTwo();
      ChopOne("**");
    }
  }

  lemma ChopOne(c: string)
    ensures ChopAll([c]) == Chop(c)
  {
    assert [c][1..] == [] && ChopAll([]) == [];
    assert Chop(c) + [] == Chop(c);
  }

  lemma WordsOfTwo()
    ensures Words(TWO) == ["**"]
  {
    SpaceFirst("**");
    assert TWO == " " + "**";
    WordsOfWord("**");
  }

  lemma ChopTwoConst()
    ensures ChopAll(Words(TWO_CONST)) == [STAR_TOKEN, CONST, STAR_TOKEN]
  {
    WordsOfTwoConst();
    ChopStars();
    ChopConst();
    hide Chop, Words, CONST, TWO_CONST;
    ChopAllConcat(["*"] + [CONST], ["*"]);
    ChopAllConcat(["*"], [CONST]);
    ChopOne("*");
    ChopOne(CONST);
  }

  // What the canonical spelling means.
  lemma MeaningOfCanonical(t: Type)
    requires Encodable(t) && Name(t.base)
    ensures Meaning(Canonical(t)) == CType(Words(t.base), DecodedConsts(t.isConst, t.depth))
  {
    LexCanonical(t);
    var before := if t.isConst then [CONST] else [];
    hide Canonical, Lex, Name;
    BaseTokens(before, t);
    TokensAfter(before + Words(t.base), t);
  }

  lemma BaseTokens(before: seq<string>, t: Type)
    requires Name(t.base) && before == if t.isConst then [CONST] else []
    ensures TypeOf(before + Words(t.base)) == CType(Words(t.base), [t.isConst])
  {
    WordsAreNames(t.base);
    BaseOnly(before, Words(t.base), t.isConst);
  }

  lemma WordsAreNames(base: string)
    requires Name(base)
    ensures forall w :: w in Words(base) ==> w != STAR_TOKEN && w != CONST
  {
    WordChars(base, STAR);
  }

  lemma {:induction false} BaseOnly(before: seq<string>, ws: seq<string>, isConst: bool)
    requires before == if isConst then [CONST] else []
    requires forall w :: w in ws ==> w != STAR_TOKEN && w != CONST
    ensures TypeOf(before + ws) == CType(ws, [isConst])
  {
    hide TypeOf, STAR_TOKEN, CONST;
    if ws == [] {
      NoBase(isConst);
      assert before + [] == before;
    } else {
      var init, w := ws[..|ws| - 1], ws[|ws| - 1];
      assert w in ws && forall x :: x in init ==> x in ws;
      BaseOnly(before, init, isConst);
      assert before + ws == (before + init) + [w] && ws == init + [w];
      TypeSnoc(before + init, w);
    }
  }

  lemma NoBase(isConst: bool)
    ensures TypeOf(if isConst then [CONST] else []) == CType([], [isConst])
  {
    assert [CONST] == [] + [CONST];
    TypeSnoc([], CONST);
  }

  lemma TokensAfter(tokens: seq<string>, t: Type)
    requires Encodable(t) && TypeOf(tokens).consts == [t.isConst]
    ensures TypeOf(tokens + AfterTokens(t)) == CType(TypeOf(tokens).base, DecodedConsts(t.isConst, t.depth))
  {
    hide TypeOf, DecodedConsts, CONST, STAR_TOKEN;
    FewConsts(t.isConst);
    var u := TypeOf(tokens);
    if t.depth == 0 {
      assert tokens + [] == tokens;
      assert !t.isConst;
    } else if t.depth == 1 {
      OneStar(tokens);
    } else if !t.isConst {
      OneStar(tokens);
      OneStar(tokens + [STAR_TOKEN]);
      assert tokens + [STAR_TOKEN] + [STAR_TOKEN] == tokens + [STAR_TOKEN, STAR_TOKEN];
    } else {
      OneStar(tokens);
      OneConst(tokens + [STAR_TOKEN]);
      OneStar(tokens + [STAR_TOKEN] + [CONST]);
      assert tokens + [STAR_TOKEN] + [CONST] + [STAR_TOKEN] == tokens + [STAR_TOKEN, CONST, STAR_TOKEN];
    }
  }

  lemma FewConsts(c: bool)
    ensures DecodedConsts(c, 0) == [false] && DecodedConsts(c, 1) == [c, false] && DecodedConsts(c, 2) == [c, c, false]
  {}

  lemma OneStar(tokens: seq<string>)
    ensures var t := TypeOf(tokens); TypeOf(tokens + [STAR_TOKEN]) == CType(t.base, t.consts + [false])
  {
    TypeSnoc(tokens, STAR_TOKEN);
  }

  lemma OneConst(tokens: seq<string>)
    ensures var t := TypeOf(tokens); TypeOf(tokens + [CONST]) == CType(t.base, t.consts[|t.consts| - 1 := true])
  {
    TypeSnoc(tokens, CONST);
  }

  // A spelling whose type is encoded and decoded to the same type.
  ghost predicate Recovered(s: string) { Meaning(GetGlPointerType(Code(Describe(s)))) == Meaning(s) }

  // Decoding gives the same C type exactly for a spelling with no glued words and at most two pointers, all of whose
  // targets are const or none, which is itself not const, and in which, if the targets are const, some const stands
  // alone.
  lemma RecoveredIff(s: string)
    requires Proper(Lex(s)) && FreeWords(Meaning(s).base)
    ensures Recovered(s) <==>
      && !Glued(s) && Meaning(s).Depth() <= 2 && Meaning(s).Regular()
      && (Meaning(s).consts[0] ==> StandsAlone(s))
  {
    var t := Describe(s);
    ReadingIff(s);
    DescribedName(s);
    ReadIsFree(s);
    hide Meaning, Describe, GetGlPointerType, Code, StandsAlone, Glued, Lex, Proper, Free, Name, CType.Regular;
    if Encodable(t) {
      EncodableRecovered(s, t);
    } else if t.depth > 2 {
      DeepNotRecovered(s);
    } else {
      PlainConstNotRecovered(s);
    }
  }

  lemma EncodableRecovered(s: string, t: Type)
    requires t == Describe(s) && Encodable(t) && Free(t.base) && Name(t.base)
    requires t.base == Spaced(Meaning(s).base) <==> !Glued(s)
    requires t.depth == Meaning(s).Depth() && (t.isConst <==> StandsAlone(s))
    ensures Recovered(s) <==>
      !Glued(s) && Meaning(s).Regular() && (Meaning(s).consts[0] ==> StandsAlone(s))
  {
    DecodeCode(t);
    MeaningOfCanonical(t);
    BaseWords(s);
    WordsOfSpaced(Meaning(s).base);
    NameIsSpaced(t.base);
    RegularIs(Meaning(s), t.isConst, t.depth);
    hide Describe, GetGlPointerType, Code, Glued, Lex, Free, Name, Canonical, Spaced, DecodedConsts, Words, StandsAlone;
    if StandsAlone(s) { StandingIsConst(s); }
  }

  lemma NameIsSpaced(base: string)
    requires Name(base)
    ensures Spaced(Words(base)) == base
  {}

  lemma DeepNotRecovered(s: string)
    requires Describe(s).depth > 2
    ensures !Recovered(s)
  {
    DescribedName(s);
    FewStarsInCode(Describe(s));
    DepthRead(s);
    DepthRead(GetGlPointerType(Code(Describe(s))));
  }

  // A const on a plain value goes into its name.
  lemma PlainConstNotRecovered(s: string)
    requires Proper(Lex(s)) && Free(Describe(s).base) && Describe(s).isConst && Describe(s).depth == 0
    ensures !Recovered(s) && !Meaning(s).Regular()
  {
    var t := Describe(s);
    var u := Code(t);
    PlainConst(t);
    DescribedCapitals(u);
    TargetReadIff(s);
    DepthRead(s);
    DescribedName(s);
    CodeHasNoStar(t);
    PlainSpelling(u);
    PlainSpelling(s);
    ReadingIff(u);
    ReadingIff(s);
    hide Describe, Code, GetGlPointerType, Lex, Proper, Free, Name, Glued, StandsAlone;
  }

  lemma CodeHasNoStar(t: Type)
    requires Name(t.base)
    ensures Count(Code(t), STAR) == 0
  {
    PointersHaveNoStar(t.depth);
    assert STAR !in Code(t);
    CountNone(Code(t), STAR);
  }

  // A spelling without stars is proper, and glues nothing.
  lemma PlainSpelling(s: string)
    requires Count(s, STAR) == 0
    ensures Proper(Lex(s)) && !Glued(s)
  {
    CountWords(s, STAR);
    WordsAreWords(s);
    NonemptyWords(Words(s));
    ChopStarless(Words(s));
    var ws := Words(s);
    hide Words, Chop, NonStars, Count, CountAll, IsWord, STAR_TOKEN, ChopAll;
    forall c | c in ws ensures c != STAR_TOKEN && |NonStars(Chop(c))| <= 1 { PlainPiece(ws, c); }
    NoneIsStar(ws);
  }

  lemma NonemptyWords(ws: seq<string>)
    requires forall w :: w in ws ==> IsWord(w)
    ensures forall w :: w in ws ==> w != ""
  {}

  lemma NoneIsStar(tokens: seq<string>)
    requires forall t :: t in tokens ==> t != STAR_TOKEN
    ensures Proper(tokens)
  {
    forall i | 0 <= i < |tokens| ensures tokens[i] != STAR_TOKEN { assert tokens[i] in tokens; }
  }

  lemma PlainPiece(ws: seq<string>, c: string)
    requires c in ws && IsWord(c) && CountAll(ws, STAR) == 0
    ensures c != STAR_TOKEN && |NonStars(Chop(c))| <= 1
  {
    CountOne(ws, c);
    StarFree(c);
    ChopWhole(c);
    OneToken(c, []);
    assert [c] + [] == [c];
  }

  lemma {:induction false} CountOne(ws: seq<string>, c: string)
    requires c in ws && CountAll(ws, STAR) == 0
    ensures Count(c, STAR) == 0
  {
    if c != ws[0] { CountOne(ws[1..], c); }
  }

  // ---- Shared codes ----

  // Two spellings share a code exactly if the same base, depth and presence of a const that stands alone are read of
  // them; where no words are glued, exactly if their types agree in base and depth and in both or neither some const
  // stands alone. What the const belongs to makes no difference.
  lemma SharedCodeIff(s: string, t: string)
    requires Proper(Lex(s)) && FreeWords(Meaning(s).base) && Proper(Lex(t)) && FreeWords(Meaning(t).base)
    ensures Code(Describe(s)) == Code(Describe(t)) <==>
      && Describe(s).base == Describe(t).base && Meaning(s).Depth() == Meaning(t).Depth()
      && (StandsAlone(s) <==> StandsAlone(t))
    ensures !Glued(s) && !Glued(t) ==>
      (Code(Describe(s)) == Code(Describe(t)) <==>
        && Meaning(s).base == Meaning(t).base && Meaning(s).Depth() == Meaning(t).Depth()
        && (StandsAlone(s) <==> StandsAlone(t)))
  {
    ReadingIff(s);
    ReadingIff(t);
    ReadIsFree(s);
    ReadIsFree(t);
    BaseWords(s);
    BaseWords(t);
    SpacedDiffers(Meaning(s).base, Meaning(t).base);
    hide Meaning, Describe, Code, StandsAlone, Glued, Lex, Proper, Free;
    CodesDiffer(s, t);
  }

  const POINTER_CONST := " * const"

  // A const pointer to a plain target comes back as a plain pointer to a const target, whose code it shares.
  lemma ConstPointerMisread(base: string)
    requires Name(base) && Free(base)
    ensures var s, t := base + POINTER_CONST, BEFORE_CONST + base + ONE;
            && Meaning(s) == CType(Words(base), [false, true]) && Meaning(t) == CType(Words(base), [true, false])
            && Code(Describe(s)) == Code(Describe(t)) && GetGlPointerType(Code(Describe(s))) == t
  {
    var t := Type(base, true, 1);
    DescribeCanonical(t);
    MeaningOfCanonical(t);
    DecodeCode(t);
    FewConsts(true);
    MeaningOfConstPointer(base);
    DescribeConstPointer(base);
  }

  lemma PointerConstIs()
    ensures POINTER_CONST == ONE + (" " + CONST) && ONE[0] == POINTER_CONST[0] == ' '
  {}

  lemma PointerConstParts()
    ensures Words(POINTER_CONST) == ["*"] + [CONST] && IsSpace(POINTER_CONST[0])
  {
    PointerConstIs();
    AfterOne();
    SpaceFirst(CONST);
    ConstIsWord();
    assert IsSpace(' ');
    hide Words, CONST, POINTER_CONST, ONE, IsAfter, IsSpace;
    assert (" " + CONST)[0] == ' ';
    WordsConcat(ONE, " " + CONST);
  }

  lemma LexConstPointer(base: string)
    requires Name(base)
    ensures Lex(base + POINTER_CONST) == Words(base) + [STAR_TOKEN] + [CONST]
  {
    PointerConstParts();
    BaseStarless(base);
    LexStarConst();
    hide Words, Chop, ChopAll, CONST, POINTER_CONST, STAR_TOKEN, Name, IsSpace;
    WordsConcat(base, POINTER_CONST);
    ChopAllConcat(Words(base), ["*"] + [CONST]);
    assert Words(base) + [STAR_TOKEN] + [CONST] == Words(base) + ([STAR_TOKEN] + [CONST]);
  }

  lemma LexStarConst()
    ensures ChopAll(["*"] + [CONST]) == [STAR_TOKEN] + [CONST]
  {
    ChopStars();
    ChopConst();
    hide Chop, ChopAll, CONST;
    ChopAllConcat(["*"], [CONST]);
    ChopOne("*");
    ChopOne(CONST);
  }

  lemma MeaningOfConstPointer(base: string)
    requires Name(base)
    ensures Meaning(base + POINTER_CONST) == CType(Words(base), [false, true])
  {
    LexConstPointer(base);
    WordsAreNames(base);
    hide Words, CONST, POINTER_CONST, STAR_TOKEN, TypeOf, Name, Lex;
    BaseOnly([], Words(base), false);
    assert [] + Words(base) == Words(base);
    OneStar(Words(base));
    OneConst(Words(base) + [STAR_TOKEN]);
    assert ([false] + [false])[1 := true] == [false, true];
  }

  lemma DescribeConstPointer(base: string)
    requires Name(base)
    ensures Describe(base + POINTER_CONST) == Type(base, true, 1)
  {
    BeforeParts();
    PointerConstIsAfter();
    hide Describe, Name, IsBefore, IsAfter, POINTER_CONST;
    DescribeParts("", base, POINTER_CONST, false, true, 1);
    assert "" + base + POINTER_CONST == base + POINTER_CONST;
  }

  lemma PointerConstIsAfter()
    ensures IsAfter(POINTER_CONST, true, 1)
  {
    PointerConstParts();
    PointerConstDrop();
    SpacesAndConst();
    hide Drop, Count, Words, CONST, POINTER_CONST, IsSpace;
    assert WithoutConst([CONST]) == [];
    assert CONST in ["*"] + [CONST];
  }

  lemma SpacesAndConst()
    ensures Words(" " + (" " + CONST)) == [CONST] && IsSpace((" " + (" " + CONST))[0])
  {
    SpaceFirst(" " + CONST);
    SpaceFirst(CONST);
    ConstIsWord();
  }

  lemma PointerConstDrop()
    ensures Drop(POINTER_CONST, STAR) == " " + (" " + CONST) && Count(POINTER_CONST, STAR) == 1
  {
    PointerConstIs();
    ConstHasNoStar();
    OnePointer();
    hide Drop, Count, CONST, POINTER_CONST, ONE;
    DropConcat(ONE, " " + CONST, STAR);
    CountConcat(ONE, " " + CONST, STAR);
  }

  lemma OnePointer()
    ensures Drop(ONE, STAR) == " " && Count(ONE, STAR) == 1
  {
    AfterOne();
    TwoConstParts();
  }
}
