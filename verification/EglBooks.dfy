/** What an EGL library handed out and got back: the contract that util/EGLWindow.cpp has to keep to. */
module EglBooks {
  datatype Handle = Display(d: nat) | Surface(s: nat) | Context(c: nat)

  // The handles handed out; those given back, in order; and whether a handle was used that was not live.
  datatype Books = Books(created: multiset<Handle>, released: seq<Handle>, misused: bool)
  {
    predicate Live(h: Handle) { created[h] > multiset(released)[h] }

    function Obtain(h: Handle): Books { this.(created := created + multiset{h}) }

    function Use(h: Handle): Books { this.(misused := misused || !Live(h)) }

    function UseUnlessNone(h: Handle, name: nat): Books { if name == 0 then this else Use(h) }

    // A handle that is not live cannot be given back.
    function Release(h: Handle): Books {
      if Live(h) then this.(released := released + [h]) else this.(misused := true)
    }

    // Nor can a surface or context of a display that is not live.
    function ReleaseOf(d: nat, h: Handle): Books {
      if Live(Display(d)) then Release(h) else this.(misused := true)
    }

    // A display that is handed out while live is the same one again.
    function ObtainDisplay(d: nat): Books {
      if d == 0 || Live(Display(d)) then this else Obtain(Display(d))
    }

    function ObtainUnlessNone(h: Handle, name: nat): Books { if name == 0 then this else Obtain(h) }
  }

  // The handles of a window, in the order in which they are given back.
  function Holding(d: nat, s: nat, c: nat): seq<Handle> {
    UnlessNone(c, Context(c)) + UnlessNone(s, Surface(s)) + UnlessNone(d, Display(d))
  }

  function UnlessNone(name: nat, h: Handle): seq<Handle> { if name == 0 then [] else [h] }

  // No surface or context without a display; and what was handed out is what came back and what is held.
  ghost predicate Balanced(b: Books, d: nat, s: nat, c: nat) {
    && (s != 0 || c != 0 ==> d != 0)
    && b.created == multiset(b.released) + multiset(Holding(d, s, c))
    && !b.misused
  }

  ghost function Optional(present: bool, h: Handle): multiset<Handle> { if present then multiset{h} else multiset{} }

  lemma HoldingMultiset(d: nat, s: nat, c: nat)
    ensures multiset(Holding(d, s, c)) ==
      Optional(c != 0, Context(c)) + Optional(s != 0, Surface(s)) + Optional(d != 0, Display(d))
  {
    var a, b, e := UnlessNone(c, Context(c)), UnlessNone(s, Surface(s)), UnlessNone(d, Display(d));
    assert multiset(a + b + e) == multiset(a + b) + multiset(e) == multiset(a) + multiset(b) + multiset(e);
  }

  // What is held is live, and using it changes nothing.
  lemma UseHeld(b: Books, d: nat, s: nat, c: nat)
    requires Balanced(b, d, s, c)
    ensures d != 0 ==> b.Use(Display(d)) == b
    ensures b.UseUnlessNone(Surface(s), s) == b && b.UseUnlessNone(Context(c), c) == b
  {
    HoldingMultiset(d, s, c);
  }

  // ---- A handle replaced while it is held ----

  // More is out than the n handles that are held.
  ghost predicate Leaky(b: Books, n: nat) {
    multiset(b.released) <= b.created && |b.created| > |b.released| + n
  }

  ghost predicate Accounted(b: Books, d: nat, s: nat, c: nat, replaced: bool) {
    if replaced then Leaky(b, Count(d, s, c)) else Balanced(b, d, s, c)
  }

  function Count(d: nat, s: nat, c: nat): nat {
    (if d == 0 then 0 else 1) + (if s == 0 then 0 else 1) + (if c == 0 then 0 else 1)
  }

  // Of a balanced window as many are out as it holds.
  lemma OutIsHeld(b: Books, d: nat, s: nat, c: nat)
    requires Balanced(b, d, s, c)
    ensures multiset(b.released) <= b.created && |b.created| == |b.released| + Count(d, s, c)
  {
    assert |multiset(b.released)| == |b.released| && |multiset(Holding(d, s, c))| == Count(d, s, c);
  }

  lemma LeakGrows(b: Books, h: Handle, name: nat, n: nat)
    requires Leaky(b, n)
    ensures Leaky(b.ObtainUnlessNone(h, name), n + if name == 0 then 0 else 1)
  {
    assert |b.created + multiset{h}| == |b.created| + 1;
  }

  // Where more handles are out than the n that will be left.
  lemma LeakStarts(b: Books, d: nat, s: nat, c: nat, replaced: bool, n: nat)
    requires Accounted(b, d, s, c, replaced) && n <= Count(d, s, c) && (replaced || n < Count(d, s, c))
    ensures Leaky(b, n)
  {
    if !replaced { OutIsHeld(b, d, s, c); }
  }

  // A leak does not go away, whatever is given back or not.
  lemma LeakStays(b: Books, d: nat, h: Handle, n: nat)
    requires Leaky(b, n + 1)
    ensures Leaky(b.Release(h), n) && Leaky(b.ReleaseOf(d, h), n)
  {
    if b.Live(h) {
      assert multiset(b.released + [h]) == multiset(b.released) + multiset{h};
      assert |b.released + [h]| == |b.released| + 1;
    }
  }

  // The display is replaced by what was handed out: nothing, the same one, or one that was not live.
  lemma NextDisplay(b: Books, d: nat, s: nat, c: nat, replaced: bool, d': nat)
    requires Accounted(b, d, s, c, replaced) && (d' != 0 && d' != d ==> !b.Live(Display(d')))
    ensures Accounted(b.ObtainDisplay(d'), d', s, c, replaced || (d != 0 && d' != d))
  {
    if replaced || (d != 0 && d' != d) {
      hide Leaky, Balanced, Books.Obtain;
      LeakStarts(b, d, s, c, replaced, Count(if d' == d then d else 0, s, c));
      LeakGrows(b, Display(d'), d', Count(0, s, c));
    } else if d == 0 {
      FirstDisplay(b, d');
    } else {
      UseHeld(b, d, s, c);
    }
  }

  lemma FirstDisplay(b: Books, d: nat)
    requires Balanced(b, 0, 0, 0)
    ensures Balanced(b.ObtainUnlessNone(Display(d), d), d, 0, 0)
  {
    HoldingMultiset(0, 0, 0);
    HoldingMultiset(d, 0, 0);
  }

  lemma NextSurface(b: Books, d: nat, s: nat, c: nat, replaced: bool, s': nat)
    requires Accounted(b, d, s, c, replaced) && d != 0
    ensures Accounted(b.ObtainUnlessNone(Surface(s'), s'), d, s', c, replaced || s != 0)
  {
    if replaced || s != 0 {
      hide Leaky, Balanced;
      LeakStarts(b, d, s, c, replaced, Count(d, 0, c));
      LeakGrows(b, Surface(s'), s', Count(d, 0, c));
    } else {
      HoldingMultiset(d, 0, c);
      HoldingMultiset(d, s', c);
    }
  }

  lemma NextContext(b: Books, d: nat, s: nat, c: nat, replaced: bool, c': nat)
    requires Accounted(b, d, s, c, replaced) && d != 0
    ensures Accounted(b.ObtainUnlessNone(Context(c'), c'), d, s, c', replaced || c != 0)
  {
    if replaced || c != 0 {
      hide Leaky, Balanced;
      LeakStarts(b, d, s, c, replaced, Count(d, s, 0));
      LeakGrows(b, Context(c'), c', Count(d, s, 0));
    } else {
      HoldingMultiset(d, s, 0);
      HoldingMultiset(d, s, c');
    }
  }

  // ---- Giving back ----

  // Using a display that is not live is a misuse, but changes no account that already leaks.
  lemma UseAny(b: Books, d: nat, s: nat, c: nat, replaced: bool)
    requires Accounted(b, d, s, c, replaced)
    ensures var b' := b.Use(Display(d));
      && b'.created == b.created && b'.released == b.released
      && (!replaced && d != 0 ==> b' == b)
      && (replaced || d != 0 ==> Accounted(b', d, s, c, replaced))
  {
    if !replaced { UseHeld(b, d, s, c); }
  }

  lemma UseAll(b: Books, d: nat, s: nat, c: nat, replaced: bool)
    requires Accounted(b, d, s, c, replaced) && d != 0
    ensures Accounted(b.Use(Display(d)).UseUnlessNone(Surface(s), s).UseUnlessNone(Context(c), c), d, s, c, replaced)
  {
    if !replaced { UseHeld(b, d, s, c); }
  }

  lemma GiveContext(b: Books, d: nat, s: nat, c: nat, replaced: bool)
    requires Accounted(b, d, s, c, replaced) && c != 0
    ensures var b' := b.Use(Display(d)).Use(Display(d)).ReleaseOf(d, Context(c));
      Accounted(b', d, s, 0, replaced) && (!replaced ==> b'.released == b.released + [Context(c)])
  {
    if replaced {
      LeakStays(b.Use(Display(d)).Use(Display(d)), d, Context(c), Count(d, s, 0));
    } else {
      UseHeld(b, d, s, c);
      HoldingMultiset(d, s, 0);
      HoldingMultiset(d, s, c);
    }
  }

  lemma GiveSurface(b: Books, d: nat, s: nat, c: nat, replaced: bool)
    requires Accounted(b, d, s, c, replaced) && s != 0
    ensures var b' := b.Use(Display(d)).Use(Display(d)).ReleaseOf(d, Surface(s));
      Accounted(b', d, 0, c, replaced) && (!replaced ==> b'.released == b.released + [Surface(s)])
  {
    if replaced {
      LeakStays(b.Use(Display(d)).Use(Display(d)), d, Surface(s), Count(d, 0, c));
    } else {
      UseHeld(b, d, s, c);
      HoldingMultiset(d, 0, c);
      HoldingMultiset(d, s, c);
    }
  }

  lemma GiveDisplay(b: Books, d: nat, replaced: bool)
    requires Accounted(b, d, 0, 0, replaced) && d != 0
    ensures var b' := b.Use(Display(d)).Release(Display(d));
      Accounted(b', 0, 0, 0, replaced) && (!replaced ==> b'.released == b.released + [Display(d)])
  {
    if replaced {
      LeakStays(b.Use(Display(d)), d, Display(d), 0);
    } else {
      UseHeld(b, d, 0, 0);
      HoldingMultiset(d, 0, 0);
      HoldingMultiset(0, 0, 0);
    }
  }

  lemma ReleasedInOrder(r: seq<Handle>, d: nat, s: nat, c: nat)
    ensures r + UnlessNone(c, Context(c)) + UnlessNone(s, Surface(s)) + UnlessNone(d, Display(d)) ==
      r + Holding(d, s, c)
  {
    hide UnlessNone;
  }

  lemma WhatAccountedMeans(b: Books, d: nat, s: nat, c: nat, replaced: bool)
    requires Accounted(b, d, s, c, replaced)
    ensures !replaced ==> (s != 0 || c != 0 ==> d != 0) && !b.misused
    ensures d == 0 && s == 0 && c == 0 ==> (b.created == multiset(b.released) <==> !replaced)
  {
    HoldingMultiset(0, 0, 0);
    assert |multiset(b.released)| == |b.released|;
  }

  lemma WhatMakesAccounted(b: Books)
    requires b.created == multiset(b.released) && !b.misused
    ensures Accounted(b, 0, 0, 0, false)
  {
    HoldingMultiset(0, 0, 0);
  }
}
