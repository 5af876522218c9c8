/** Python's split() on whitespace, str.replace with an empty string, and str.count. */
module TextWords {
  import opened Text

  // The leading characters that are not spaces.
  function Run(s: string): (k: nat)
    ensures k <= |s|
    ensures forall i :: 0 <= i < k ==> !IsSpace(s[i])
    ensures k < |s| ==> IsSpace(s[k])
  {
    if s == "" || IsSpace(s[0]) then 0 else 1 + Run(s[1..])
  }

  function Words(s: string): seq<string>
    decreases |s|
  {
    if s == "" then []
    else if IsSpace(s[0]) then Words(s[1..])
    else
      assert Run(s) > 0;
      [s[..Run(s)]] + Words(s[Run(s)..])
  }

  predicate IsWord(w: string) { w != "" && forall i :: 0 <= i < |w| ==> !IsSpace(w[i]) }

  lemma {:induction false} WordsAreWords(s: string)
    ensures forall w :: w in Words(s) ==> IsWord(w)
    decreases |s|
  {
    if s != "" {
      if IsSpace(s[0]) { WordsAreWords(s[1..]); } else { WordsAreWords(s[Run(s)..]); }
    }
  }

  // " ".join(ws)
  function Spaced(ws: seq<string>): string {
    if ws == [] then "" else if |ws| == 1 then ws[0] else ws[0] + " " + Spaced(ws[1..])
  }

  lemma {:induction false} RunConcat(a: string, b: string)
    requires b == "" || IsSpace(b[0])
    ensures Run(a + b) == Run(a)
  {
    if a == "" {
      assert a + b == b;
    } else if !IsSpace(a[0]) {
      assert (a + b)[1..] == a[1..] + b;
      RunConcat(a[1..], b);
    }
  }

  // A space between two strings keeps their words apart.
  lemma {:induction false} WordsConcat(a: string, b: string)
    requires b == "" || IsSpace(b[0])
    ensures Words(a + b) == Words(a) + Words(b)
    decreases |a|
  {
    hide Words, Run, IsSpace, IsWord;
    if a == "" {
      NoWords();
      assert a + b == b;
    } else {
      WordsStep(a);
      WordsStep(a + b);
      if IsSpace(a[0]) {
        assert (a + b)[1..] == a[1..] + b;
        WordsConcat(a[1..], b);
      } else {
        RunConcat(a, b);
        var k := Run(a);
        assert (a + b)[..k] == a[..k] && (a + b)[k..] == a[k..] + b;
        WordsConcat(a[k..], b);
        Regroup([a[..k]], Words(a[k..]), Words(b));
      }
    }
  }

  lemma Regroup(x: seq<string>, y: seq<string>, z: seq<string>)
    ensures x + (y + z) == x + y + z
  {}

  lemma NoWords()
    ensures Words("") == []
  {}

  lemma WordsStep(s: string)
    requires s != ""
    ensures !IsSpace(s[0]) ==> Run(s) > 0
    ensures Words(s) == if IsSpace(s[0]) then Words(s[1..]) else [s[..Run(s)]] + Words(s[Run(s)..])
  {}

  lemma {:induction false} RunOfWord(w: string)
    requires forall i :: 0 <= i < |w| ==> !IsSpace(w[i])
    ensures Run(w) == |w|
  {
    if w != "" { RunOfWord(w[1..]); }
  }

  lemma WordsOfWord(w: string)
    requires IsWord(w)
    ensures Words(w) == [w]
  {
    RunOfWord(w);
    assert w[..|w|] == w && w[|w|..] == "";
  }

  lemma {:induction false} WordsOfSpaced(ws: seq<string>)
    requires forall w :: w in ws ==> IsWord(w)
    ensures Words(Spaced(ws)) == ws
  {
    if |ws| == 1 {
      WordsOfWord(ws[0]);
    } else if |ws| > 1 {
      var rest := Spaced(ws[1..]);
      WordsOfSpaced(ws[1..]);
      WordsOfWord(ws[0]);
      assert ws[0] + " " + rest == ws[0] + (" " + rest);
      assert (" " + rest)[1..] == rest;
      WordsConcat(ws[0], " " + rest);
    }
  }

  lemma {:induction false} WordsAfterSpace(s: string)
    requires s != "" && IsSpace(s[|s| - 1])
    ensures Words(s) == Words(s[..|s| - 1])
  {
    var a, b := s[..|s| - 1], [s[|s| - 1]];
    assert s == a + b;
    WordsConcat(a, b);
    assert b[1..] == "";
  }

  lemma {:induction false} WordsOfStrip(s: string)
    ensures Words(Strip(s)) == Words(s)
    decreases |s|
  {
    if s != "" {
      if IsSpace(s[0]) {
        WordsOfStrip(s[1..]);
      } else if IsSpace(s[|s| - 1]) {
        WordsAfterSpace(s);
        WordsOfStrip(s[..|s| - 1]);
      }
    }
  }

  // ---- One character ----

  // s.replace(c, "")
  function Drop(s: string, c: char): (r: string)
    ensures c !in r
    ensures c !in s ==> r == s
  {
    if s == "" then "" else (if s[0] == c then "" else [s[0]]) + Drop(s[1..], c)
  }

  // s.count(c)
  function Count(s: string, c: char): nat {
    if s == "" then 0 else (if s[0] == c then 1 else 0) + Count(s[1..], c)
  }

  lemma {:induction false} DropConcat(a: string, b: string, c: char)
    ensures Drop(a + b, c) == Drop(a, c) + Drop(b, c)
  {
    if a == "" {
      assert a + b == b;
    } else {
      assert (a + b)[1..] == a[1..] + b;
      DropConcat(a[1..], b, c);
      var first := if a[0] == c then "" else [a[0]];
      assert first + (Drop(a[1..], c) + Drop(b, c)) == first + Drop(a[1..], c) + Drop(b, c);
    }
  }

  lemma {:induction false} CountConcat(a: string, b: string, c: char)
    ensures Count(a + b, c) == Count(a, c) + Count(b, c)
  {
    if a == "" {
      assert a + b == b;
    } else {
      assert (a + b)[1..] == a[1..] + b;
      CountConcat(a[1..], b, c);
    }
  }

  lemma {:induction false} CountNone(s: string, c: char)
    requires c !in s
    ensures Count(s, c) == 0
  {
    if s != "" {
      assert s[0] in s;
      CountNone(s[1..], c);
    }
  }

  lemma {:induction false} CountDrop(s: string, c: char, d: char)
    requires c != d
    ensures Count(Drop(s, d), c) == Count(s, c)
  {
    if s != "" {
      CountDrop(s[1..], c, d);
      CountConcat(if s[0] == d then "" else [s[0]], Drop(s[1..], d), c);
    }
  }

  function CountAll(ws: seq<string>, c: char): nat {
    if ws == [] then 0 else Count(ws[0], c) + CountAll(ws[1..], c)
  }

  lemma {:induction false} CountWords(s: string, c: char)
    requires !IsSpace(c)
    ensures CountAll(Words(s), c) == Count(s, c)
    decreases |s|
  {
    if s != "" {
      if IsSpace(s[0]) {
        CountWords(s[1..], c);
      } else {
        var k := Run(s);
        CountWords(s[k..], c);
        assert s == s[..k] + s[k..];
        CountConcat(s[..k], s[k..], c);
      }
    }
  }

  lemma {:induction false} CountSpaced(ws: seq<string>, c: char)
    requires c != ' '
    ensures Count(Spaced(ws), c) == CountAll(ws, c)
  {
    if |ws| > 1 {
      CountSpaced(ws[1..], c);
      CountConcat(ws[0] + " ", Spaced(ws[1..]), c);
      CountConcat(ws[0], " ", c);
    }
  }

  // ---- Removing a substring: s.replace(pat, "") ----

  function Remove(s: string, pat: string): string
    requires pat != ""
    decreases |s|
  {
    if s == "" then "" else if pat <= s then Remove(s[|pat|..], pat) else [s[0]] + Remove(s[1..], pat)
  }

  lemma PrefixOccurs(s: string, pat: string)
    ensures OccursAt(s, pat, 0) <==> pat <= s
  {}

  // What comes before the first occurrence stays.
  lemma {:induction false} RemoveAfter(b: string, tail: string, pat: string)
    requires pat != "" && forall i :: 0 <= i < |b| ==> !OccursAt(b + tail, pat, i)
    ensures Remove(b + tail, pat) == b + Remove(tail, pat)
  {
    if b == "" {
      assert b + tail == tail;
    } else {
      var s := b + tail;
      assert s[1..] == b[1..] + tail;
      PrefixOccurs(s, pat);
      forall i | 0 <= i < |b[1..]| ensures !OccursAt(b[1..] + tail, pat, i) {
        assert !OccursAt(s, pat, i + 1);
        if i + |pat| <= |s[1..]| { assert s[1..][i..i + |pat|] == s[i + 1..i + 1 + |pat|]; }
      }
      RemoveAfter(b[1..], tail, pat);
    }
  }

  lemma ContainsAfter(b: string, tail: string, pat: string)
    requires forall i :: 0 <= i < |b| ==> !OccursAt(b + tail, pat, i)
    ensures Contains(b + tail, pat) <==> Contains(tail, pat)
  {
    forall i | i >= 0 ensures OccursAt(b + tail, pat, |b| + i) <==> OccursAt(tail, pat, i) {
      if i + |pat| <= |tail| { assert (b + tail)[|b| + i..|b| + i + |pat|] == tail[i..i + |pat|]; }
    }
    if i :| OccursAt(b + tail, pat, i) { assert OccursAt(tail, pat, i - |b|); }
    if i :| OccursAt(tail, pat, i) { assert OccursAt(b + tail, pat, |b| + i); }
  }

  lemma {:induction false} RemoveChars(s: string, pat: string, c: char)
    requires pat != "" && c !in s
    ensures c !in Remove(s, pat)
    decreases |s|
  {
    if s != "" {
      if pat <= s { RemoveChars(s[|pat|..], pat, c); } else { RemoveChars(s[1..], pat, c); }
    }
  }
}
