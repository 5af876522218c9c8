/** The display, surface and context of an EGLWindow, util/EGLWindow.cpp, over every outcome of the EGL calls. */
module EglWindow {
  import opened EglBooks
  import opened EglConfig
  import opened EglContextRequest
  import opened Text

  // What the library was last asked to create.
  datatype Asked =
    | Nothing
    | ForSurface(d: nat, config: int)
    | ForContext(d: nat, config: int, share: nat, attributes: seq<Attribute>)

  datatype Call = DisplayCall | InitializeCall | SurfaceCall | BindCall | ContextCall | CurrentCall

  datatype Answer = Answer(call: Call, ok: bool)

  // The calls of a script were made in order, up to the first that failed.
  ghost predicate Followed(script: seq<Call>, given: seq<Answer>) {
    && |given| <= |script|
    && (forall i :: 0 <= i < |given| ==> given[i].call == script[i])
    && (forall i :: 0 <= i < |given| - 1 ==> given[i].ok)
    && (|given| < |script| ==> given != [] && !given[|given| - 1].ok)
  }

  ghost predicate Granted(script: seq<Call>, given: seq<Answer>) {
    |given| == |script| && forall i :: 0 <= i < |given| ==> given[i].ok
  }

  lemma FollowedFurther(s: seq<Call>, t: seq<Call>, a: seq<Answer>, b: seq<Answer>)
    requires Followed(s, a) && Granted(s, a) && Followed(t, b)
    ensures Followed(s + t, a + b) && (Granted(s + t, a + b) <==> Granted(t, b))
  {
    var u := a + b;
    forall i | 0 <= i < |u| - 1 ensures u[i].ok { assert u[i] == if i < |a| then a[i] else b[i - |a|]; }
    if Granted(s + t, u) {
      forall i | 0 <= i < |b| ensures b[i].ok { assert u[|a| + i] == b[i]; }
    }
  }

  lemma StoppedBefore(s: seq<Call>, t: seq<Call>, a: seq<Answer>)
    requires Followed(s, a) && !Granted(s, a)
    ensures Followed(s + t, a) && !Granted(s + t, a)
  {
    if |a| == |s| {
      var i :| 0 <= i < |a| && !a[i].ok;
      assert i == |a| - 1;
    }
  }

  lemma NothingAsked()
    ensures Followed([], []) && Granted([], [])
  {}

  lemma Asked1(script: seq<Call>, c: Call, ok: bool)
    requires script != [] && script[0] == c
    ensures !ok || |script| == 1 ==> Followed(script, [Answer(c, ok)])
    ensures Granted(script, [Answer(c, ok)]) <==> ok && |script| == 1
  {}

  lemma Asked2(script: seq<Call>, c: Call, d: Call, ok: bool)
    requires |script| >= 2 && script[0] == c && script[1] == d
    ensures !ok || |script| == 2 ==> Followed(script, [Answer(c, true), Answer(d, ok)])
    ensures Granted(script, [Answer(c, true), Answer(d, ok)]) <==> ok && |script| == 2
  {}

  lemma AskedOnce(script: seq<Call>, c: Call, a: seq<Answer>, ok: bool)
    requires Followed(script, a)
    ensures !Granted(script, a) ==> Followed(script + [c], a) && !Granted(script + [c], a)
    ensures Granted(script, a) ==> Followed(script + [c], a + [Answer(c, ok)])
    ensures Granted(script, a) ==> (Granted(script + [c], a + [Answer(c, ok)]) <==> ok)
  {
    Asked1([c], c, ok);
    if Granted(script, a) { FollowedFurther(script, [c], a, [Answer(c, ok)]); } else { StoppedBefore(script, [c], a); }
  }

  lemma GrantedLength(script: seq<Call>, a: seq<Answer>)
    requires Followed(script, a)
    ensures |a| <= |script| && (Granted(script, a) ==> |a| == |script|)
  {}

  /** The EGL library. Creation returns a new handle or else 0 and an error, as in section 3.7.1 of EGL 1.5; the other
      calls may fail too. The answers to the calls are kept, in order. */
  class Egl {
    const clientExtensions: string
    const displayExtensions: string
    const attribs: Attribs
    const configs: seq<int>
    var books: Books
    ghost var current: Option<(nat, nat)>
    ghost var asked: Asked
    ghost var answers: seq<Answer>
    // The displays eglMakeCurrent was given without surface and context, each with the number of handles back before.
    ghost var detached: seq<(nat, nat)>
    // What the last eglInitialize wrote.
    ghost var version: (int, int)

    constructor (clientExtensions: string, displayExtensions: string, attribs: Attribs, configs: seq<int>)
      ensures books == Books(multiset{}, [], false)
    {
      this.clientExtensions, this.displayExtensions := clientExtensions, displayExtensions;
      this.attribs, this.configs := attribs, configs;
      books, current, asked, answers, version := Books(multiset{}, [], false), None, Nothing, [], (0, 0);
      detached := [];
    }

    // The display that is held may be handed out again, but no other that is live.
    method GetPlatformDisplay(held: nat) returns (d: nat)
      modifies this`books, this`answers
      ensures d != 0 && d != held ==> !old(books).Live(Display(d))
      ensures books == old(books).ObtainDisplay(d)
      ensures answers == old(answers) + [Answer(DisplayCall, d != 0)]
    {
      d :| d >= 0;
      if d != held && books.Live(Display(d)) { d := 0; }
      books, answers := books.ObtainDisplay(d), answers + [Answer(DisplayCall, d != 0)];
    }

    method Initialize(d: nat) returns (ok: bool, major: int, minor: int)
      modifies this`books, this`answers, this`version
      ensures books == old(books).Use(Display(d))
      ensures answers == old(answers) + [Answer(InitializeCall, ok)] && version == (major, minor)
    {
      ok, major, minor := *, *, *;
      books, answers, version := books.Use(Display(d)), answers + [Answer(InitializeCall, ok)], (major, minor);
    }

    method CreateWindowSurface(d: nat, config: int) returns (s: nat, error: bool)
      modifies this`books, this`asked, this`answers
      ensures asked == ForSurface(d, config) && answers == old(answers) + [Answer(SurfaceCall, s != 0)]
      ensures error <==> s == 0
      ensures books == old(books).Use(Display(d)).ObtainUnlessNone(Surface(s), s)
    {
      books, asked := books.Use(Display(d)), ForSurface(d, config);
      s :| s >= 0;
      error := s == 0;
      books, answers := books.ObtainUnlessNone(Surface(s), s), answers + [Answer(SurfaceCall, s != 0)];
    }

    method BindAPI() returns (ok: bool)
      modifies this`answers
      ensures answers == old(answers) + [Answer(BindCall, ok)]
    {
      ok := *;
      answers := answers + [Answer(BindCall, ok)];
    }

    method CreateContext(d: nat, config: int, share: nat, request: seq<Attribute>) returns (c: nat, error: bool)
      modifies this`books, this`asked, this`answers
      ensures asked == ForContext(d, config, share, request)
      ensures answers == old(answers) + [Answer(ContextCall, c != 0)]
      ensures error <==> c == 0
      ensures books == old(books).Use(Display(d)).ObtainUnlessNone(Context(c), c)
    {
      books, asked := books.Use(Display(d)), ForContext(d, config, share, request);
      c :| c >= 0;
      error := c == 0;
      books, answers := books.ObtainUnlessNone(Context(c), c), answers + [Answer(ContextCall, c != 0)];
    }

    // eglMakeCurrent without surface and context, whose answer nobody looks at.
    method ReleaseCurrent(d: nat)
      modifies this`books, this`current, this`detached
      ensures books == old(books).Use(Display(d)) && (current == None || current == old(current))
      ensures detached == old(detached) + [(d, |books.released|)]
    {
      books, detached := books.Use(Display(d)), detached + [(d, |books.released|)];
      if * { current := None; }
    }

    method MakeCurrent(d: nat, s: nat, c: nat) returns (ok: bool)
      modifies this`books, this`current, this`answers
      ensures answers == old(answers) + [Answer(CurrentCall, ok)]
      ensures books == old(books).Use(Display(d)).UseUnlessNone(Surface(s), s).UseUnlessNone(Context(c), c)
      ensures current == if ok then (if c == 0 then None else Some((s, c))) else old(current)
    {
      books := books.Use(Display(d)).UseUnlessNone(Surface(s), s).UseUnlessNone(Context(c), c);
      ok := *;
      answers := answers + [Answer(CurrentCall, ok)];
      if ok { current := if c == 0 then None else Some((s, c)); }
    }

    method DestroySurface(d: nat, s: nat)
      modifies this`books
      ensures books == old(books).Use(Display(d)).ReleaseOf(d, Surface(s))
    {
      books := books.Use(Display(d)).ReleaseOf(d, Surface(s));
    }

    method DestroyContext(d: nat, c: nat)
      modifies this`books
      ensures books == old(books).Use(Display(d)).ReleaseOf(d, Context(c))
    {
      books := books.Use(Display(d)).ReleaseOf(d, Context(c));
    }

    method Terminate(d: nat)
      modifies this`books
      ensures books == old(books).Release(Display(d))
    {
      books := books.Release(Display(d));
    }
  }

  datatype WindowParams = WindowParams(config: ConfigParams, context: Params)

  datatype PlatformParams = PlatformParams(presentPath: int)

  const PRESENT_PATH_EXTENSION := "EGL_ANGLE_experimental_present_path"
  const FLOAT_EXTENSION := "EGL_EXT_pixel_format_float"

  datatype Op =
    | InitDisplay(platform: PlatformParams)
    | InitSurface(params: WindowParams)
    | InitContext
    | Init(platform: PlatformParams, params: WindowParams)
    | Destroy | DestroySurface | DestroyContext | Current

  class EGLWindow {
    const egl: Egl
    const clientMajor: int
    const clientMinor: int
    var mDisplay: nat
    var mSurface: nat
    var mContext: nat
    var mConfig: int
    var eglMajor: int
    var eglMinor: int
    var mConfigParams: WindowParams
    // Whether a held handle was ever replaced by another, or by none, without being given back.
    ghost var replaced: bool

    ghost predicate Valid()
      reads this, egl
    {
      Accounted(egl.books, mDisplay, mSurface, mContext, replaced)
    }

    ghost predicate Empty()
      reads this
    {
      mDisplay == 0 && mSurface == 0 && mContext == 0
    }

    twostate predicate SameHandles()
      reads this
    {
      mDisplay == old(mDisplay) && mSurface == old(mSurface) && mContext == old(mContext)
    }

    constructor (egl: Egl, clientMajor: int, clientMinor: int, params: WindowParams)
      requires egl.books.created == multiset(egl.books.released) && !egl.books.misused
      ensures Valid() && Empty() && this.egl == egl && !replaced
    {
      this.egl, this.clientMajor, this.clientMinor, mConfigParams := egl, clientMajor, clientMinor, params;
      mDisplay, mSurface, mContext, mConfig, eglMajor, eglMinor, replaced := 0, 0, 0, 0, 0, 0, false;
      WhatMakesAccounted(egl.books);
    }

    predicate IsGLInitialized()
      reads this
    {
      mSurface != 0 && mContext != 0 && mDisplay != 0
    }

    method DestroySurface()
      requires Valid()
      modifies this`mSurface, egl`books, egl`current, egl`detached
      ensures egl.detached == old(egl.detached) +
        if old(mSurface) == 0 then [] else [(mDisplay, |old(egl.books.released)|)]
      ensures Valid() && mSurface == 0
      ensures !replaced ==>
        egl.books.released == old(egl.books.released) + UnlessNone(old(mSurface), Surface(old(mSurface)))
    {
      hide Accounted;
      if mSurface != 0 {
        WhatAccountedMeans(egl.books, mDisplay, mSurface, mContext, replaced);
        GiveSurface(egl.books, mDisplay, mSurface, mContext, replaced);
        egl.ReleaseCurrent(mDisplay);
        assert !replaced ==> mDisplay != 0;
        egl.DestroySurface(mDisplay, mSurface);
        mSurface := 0;
      }
    }

    method DestroyContext()
      requires Valid()
      modifies this`mContext, egl`books, egl`current, egl`detached
      ensures egl.detached == old(egl.detached) +
        if old(mContext) == 0 then [] else [(mDisplay, |old(egl.books.released)|)]
      ensures Valid() && mContext == 0
      ensures !replaced ==>
        egl.books.released == old(egl.books.released) + UnlessNone(old(mContext), Context(old(mContext)))
    {
      hide Accounted;
      if mContext != 0 {
        WhatAccountedMeans(egl.books, mDisplay, mSurface, mContext, replaced);
        GiveContext(egl.books, mDisplay, mSurface, mContext, replaced);
        egl.ReleaseCurrent(mDisplay);
        assert !replaced ==> mDisplay != 0;
        egl.DestroyContext(mDisplay, mContext);
        mContext := 0;
      }
    }

    // Everything held is given back, once, and the display last; and nothing is out afterwards, exactly if no held
    // handle was ever replaced.
    method DestroyGL()
      requires Valid()
      modifies this`mDisplay, this`mSurface, this`mContext, egl`books, egl`current, egl`detached
      ensures Valid() && Empty()
      ensures |egl.detached| == |old(egl.detached)| + old(Count(mDisplay, mSurface, mContext))
      ensures !replaced ==>
        egl.books.released == old(egl.books.released) + old(Holding(mDisplay, mSurface, mContext))
      ensures egl.books.created == multiset(egl.books.released) <==> !replaced
    {
      hide Accounted, Holding, UnlessNone;
      ReleasedInOrder(egl.books.released, mDisplay, mSurface, mContext);
      DestroyContext();
      DestroySurface();
      DestroyDisplay();
    }

    // The last part of that.
    method DestroyDisplay()
      requires Valid() && mSurface == 0 && mContext == 0
      modifies this`mDisplay, egl`books, egl`current, egl`detached
      ensures Valid() && mDisplay == 0
      ensures egl.detached == old(egl.detached) +
        if old(mDisplay) == 0 then [] else [(old(mDisplay), |old(egl.books.released)|)]
      ensures !replaced ==>
        egl.books.released == old(egl.books.released) + UnlessNone(old(mDisplay), Display(old(mDisplay)))
      ensures egl.books.created == multiset(egl.books.released) <==> !replaced
    {
      hide Accounted, Books.Live, Books.Release;
      if mDisplay != 0 {
        GiveDisplay(egl.books, mDisplay, replaced);
        egl.ReleaseCurrent(mDisplay);
        egl.Terminate(mDisplay);
        mDisplay := 0;
      }
      WhatAccountedMeans(egl.books, mDisplay, mSurface, mContext, replaced);
    }

    predicate AsksForDisplay(params: PlatformParams, loaded: bool) {
      loaded && (params.presentPath == DONT_CARE || Has(egl.clientExtensions, PRESENT_PATH_EXTENSION))
    }

    // The display becomes what EGL hands out, whatever it was before.
    method TakeDisplay()
      requires Valid()
      modifies this`mDisplay, this`replaced, egl`books, egl`answers
      ensures Valid()
      ensures replaced == (old(replaced) || (old(mDisplay) != 0 && mDisplay != old(mDisplay)))
      ensures egl.answers == old(egl.answers) + [Answer(DisplayCall, mDisplay != 0)]
    {
      hide Accounted, Books.ObtainDisplay, Books.Live;
      ghost var before, held := egl.books, mDisplay;
      mDisplay := egl.GetPlatformDisplay(mDisplay);
      NextDisplay(before, held, mSurface, mContext, replaced, mDisplay);
      replaced := replaced || (held != 0 && mDisplay != held);
    }

    ghost function DisplayScript(params: PlatformParams, loaded: bool): seq<Call> {
      if AsksForDisplay(params, loaded) then [DisplayCall, InitializeCall] else []
    }

    // Succeeds exactly if EGL is asked for a display and grants it. A display that is held is replaced exactly if EGL
    // is asked for one and hands out none or another.
    method InitializeDisplay(params: PlatformParams, loaded: bool)
        returns (ok: bool, ghost handed: Option<nat>, ghost given: seq<Answer>)
      requires Valid()
      modifies this`mDisplay, this`mSurface, this`mContext, this`eglMajor, this`eglMinor, this`replaced
      modifies egl`books, egl`current, egl`answers, egl`version, egl`detached
      ensures Valid()
      ensures egl.answers == old(egl.answers) + given && Followed(DisplayScript(params, loaded), given)
      ensures ok <==> AsksForDisplay(params, loaded) && Granted(DisplayScript(params, loaded), given)
      ensures ok ==> loaded && mDisplay != 0 && handed == Some(mDisplay) && (eglMajor, eglMinor) == egl.version
      ensures ok ==> mSurface == old(mSurface) && mContext == old(mContext)
      ensures !ok ==> if loaded then Empty() else SameHandles()
      ensures handed.Some? <==> AsksForDisplay(params, loaded)
      ensures replaced == (old(replaced) || (old(mDisplay) != 0 && handed.Some? && handed.value != old(mDisplay)))
    {
      hide Accounted, PRESENT_PATH_EXTENSION, Contains, Books.Use, Books.Live, Followed, Granted, Holding;
      handed, given := None, [];
      NothingAsked();
      if !loaded { return false, handed, given; }
      if params.presentPath != DONT_CARE {
        if !Has(egl.clientExtensions, PRESENT_PATH_EXTENSION) {
          DestroyGL();
          return false, handed, given;
        }
      }
      TakeDisplay();
      handed, given := Some(mDisplay), [Answer(DisplayCall, mDisplay != 0)];
      Asked1([DisplayCall, InitializeCall], DisplayCall, mDisplay != 0);
      if mDisplay == 0 {
        DestroyGL();
        return false, handed, given;
      }
      UseAny(egl.books, mDisplay, mSurface, mContext, replaced);
      var initialized, major, minor := egl.Initialize(mDisplay);
      given := [Answer(DisplayCall, true), Answer(InitializeCall, initialized)];
      Asked2([DisplayCall, InitializeCall], DisplayCall, InitializeCall, initialized);
      eglMajor, eglMinor := major, minor;
      if !initialized {
        DestroyGL();
        return false, handed, given;
      }
      return true, handed, given;
    }

    // A surface is asked for as soon as a config is found.
    ghost predicate AsksForSurface(params: WindowParams) {
      var hasFloat := Has(egl.displayExtensions, FLOAT_EXTENSION);
      var list := Flatten(Requested(params.config, hasFloat));
      && (hasFloat || params.config.componentType == COLOR_COMPONENT_TYPE_FIXED)
      && Terminated(list, 0)
      && exists c :: c in egl.configs && Matches(egl.attribs, c, list, 0)
    }

    // The chosen config is the first that matches what was asked, and the parameters become what it has.
    ghost predicate Chosen(params: WindowParams)
      reads this`mConfig, this`mConfigParams
    {
      var list := Flatten(Requested(params.config, Has(egl.displayExtensions, FLOAT_EXTENSION)));
      && Terminated(list, 0)
      && FirstMatch(egl.attribs, egl.configs, list, mConfig)
      && mConfigParams == WindowParams(Actual(egl.attribs, mConfig, params.config), params.context)
      && Honours(params.config, mConfigParams.config)
    }

    // The surface becomes what EGL creates, whatever it was before.
    method TakeSurface() returns (error: bool)
      requires Valid() && mDisplay != 0
      modifies this`mSurface, this`replaced, egl`books, egl`asked, egl`answers
      ensures Valid()
      ensures egl.answers == old(egl.answers) + [Answer(SurfaceCall, !error)]
      ensures egl.asked == ForSurface(mDisplay, mConfig)
      ensures replaced == (old(replaced) || old(mSurface) != 0)
      ensures error <==> mSurface == 0
    {
      hide Accounted, Books.Use, Books.ObtainUnlessNone, Books.Live;
      UseAny(egl.books, mDisplay, mSurface, mContext, replaced);
      ghost var before, held := egl.books.Use(Display(mDisplay)), mSurface;
      mSurface, error := egl.CreateWindowSurface(mDisplay, mConfig);
      NextSurface(before, mDisplay, held, mContext, replaced, mSurface);
      replaced := replaced || held != 0;
    }

    ghost function SurfaceScript(params: WindowParams): seq<Call> {
      if AsksForSurface(params) then [SurfaceCall] else []
    }

    // Succeeds exactly if EGL is asked for a surface and grants it.
    method InitializeSurface(params: WindowParams) returns (ok: bool, ghost given: seq<Answer>)
      requires Valid() && mDisplay != 0
      modifies this`mDisplay, this`mSurface, this`mContext, this`mConfig, this`mConfigParams, this`replaced
      modifies egl`books, egl`current, egl`asked, egl`answers, egl`detached
      ensures Valid()
      ensures egl.answers == old(egl.answers) + given && Followed(SurfaceScript(params), given)
      ensures ok <==> AsksForSurface(params) && Granted(SurfaceScript(params), given)
      ensures if ok then mDisplay == old(mDisplay) && mContext == old(mContext) && mSurface != 0 else Empty()
      ensures AsksForSurface(params) ==> Chosen(params) && egl.asked == ForSurface(old(mDisplay), mConfig)
      ensures replaced == (old(replaced) || (old(mSurface) != 0 && AsksForSurface(params)))
    {
      hide Accounted, Flatten, Honours, Actual, FirstMatch, Requested, FLOAT_EXTENSION, Matches, Contains, Terminated;
      hide Followed, Granted, Holding;
      NothingAsked();
      mConfigParams, given := params, [];
      var hasPixelFormatFloat := Has(egl.displayExtensions, FLOAT_EXTENSION);
      if !hasPixelFormatFloat && params.config.componentType != COLOR_COMPONENT_TYPE_FIXED {
        DestroyGL();
        return false, given;
      }
      var list := Flatten(Requested(params.config, hasPixelFormatFloat));
      MatchHonours(egl.attribs, mConfig, params.config, hasPixelFormatFloat);
      var found, config := FindEGLConfig(egl.attribs, egl.configs, list, mConfig);
      mConfig := config;
      if !found {
        DestroyGL();
        return false, given;
      }
      FoundHonours(egl.attribs, egl.configs, params.config, hasPixelFormatFloat, config);
      mConfigParams := WindowParams(Actual(egl.attribs, mConfig, params.config), params.context);
      var error := TakeSurface();
      given := [Answer(SurfaceCall, !error)];
      Asked1([SurfaceCall], SurfaceCall, !error);
      if error || mSurface == 0 {
        DestroyGL();
        return false, given;
      }
      return true, given;
    }

    function TheRequest(): Option<seq<Attribute>>
      reads this`mConfigParams, this`eglMajor, this`eglMinor
    {
      Request(egl.displayExtensions, mConfigParams.context, clientMajor, clientMinor, eglMajor, eglMinor)
    }

    ghost function ContextScript(): seq<Call>
      reads this`mConfigParams, this`eglMajor, this`eglMinor
    {
      if TheRequest().Some? then [BindCall, ContextCall] else []
    }

    // Returns a new context or 0: a context exactly if the request is made, and EGL grants it; share is not passed on.
    method CreateContext(share: nat) returns (context: nat, ghost given: seq<Answer>)
      requires Valid() && mDisplay != 0
      modifies egl`books, egl`asked, egl`answers
      ensures egl.answers == old(egl.answers) + given && Followed(ContextScript(), given)
      ensures context != 0 <==> TheRequest().Some? && Granted(ContextScript(), given)
      ensures |given| == 2 ==> egl.asked == ForContext(mDisplay, mConfig, 0, TheRequest().value)
      ensures Accounted(egl.books, mDisplay, mSurface, context, replaced || mContext != 0)
      ensures !replaced ==> egl.books == old(egl.books).ObtainUnlessNone(Context(context), context)
    {
      hide Accounted, Request, Books.Use, Books.Live, Followed, Granted;
      given := [];
      NothingAsked();
      NoneObtained(egl.books);
      NextContext(egl.books, mDisplay, mSurface, mContext, replaced, 0);
      UseAny(egl.books, mDisplay, mSurface, mContext, replaced);
      var request := TheRequest();
      if request.None? { return 0, given; }
      var bound := egl.BindAPI();
      given := [Answer(BindCall, bound)];
      Asked1([BindCall, ContextCall], BindCall, bound);
      if !bound { return 0, given; }
      ghost var before := egl.books.Use(Display(mDisplay));
      var c, error := egl.CreateContext(mDisplay, mConfig, 0, request.value);
      given := [Answer(BindCall, true), Answer(ContextCall, c != 0)];
      Asked2([BindCall, ContextCall], BindCall, ContextCall, c != 0);
      NextContext(before, mDisplay, mSurface, mContext, replaced, c);
      if error { return 0, given; }
      return c, given;
    }

    method MakeCurrent() returns (ok: bool)
      requires Valid() && mDisplay != 0
      modifies egl`books, egl`current, egl`answers
      ensures Valid() && egl.answers == old(egl.answers) + [Answer(CurrentCall, ok)]
      ensures egl.current == if ok then (if mContext == 0 then None else Some((mSurface, mContext)))
        else old(egl.current)
    {
      hide Accounted;
      UseAll(egl.books, mDisplay, mSurface, mContext, replaced);
      ok := egl.MakeCurrent(mDisplay, mSurface, mContext);
    }

    ghost function CurrentScript(): seq<Call>
      reads this`mConfigParams, this`eglMajor, this`eglMinor
    {
      if TheRequest().Some? then ContextScript() + [CurrentCall] else []
    }

    // Succeeds exactly if the request is made, and EGL grants the context and makes it current. A context that is held
    // is replaced whether another one is created or not.
    method InitializeContext() returns (ok: bool, ghost given: seq<Answer>)
      requires Valid() && mDisplay != 0
      modifies this`mDisplay, this`mSurface, this`mContext, this`replaced
      modifies egl`books, egl`current, egl`asked, egl`answers, egl`detached
      ensures Valid()
      ensures egl.answers == old(egl.answers) + given && Followed(CurrentScript(), given)
      ensures ok <==> TheRequest().Some? && Granted(CurrentScript(), given)
      ensures if ok then mDisplay == old(mDisplay) && mSurface == old(mSurface) && mContext != 0 &&
                         egl.current == Some((mSurface, mContext))
              else Empty()
      ensures |given| >= 2 ==> egl.asked == ForContext(old(mDisplay), mConfig, 0, TheRequest().value)
      ensures replaced == (old(replaced) || old(mContext) != 0)
    {
      hide Accounted, Request, Followed, Granted, Holding;
      NothingAsked();
      var context;
      context, given := CreateContext(0);
      replaced := replaced || mContext != 0;
      mContext := context;
      GrantedLength(ContextScript(), given);
      AskedOnce(ContextScript(), CurrentCall, given, false);
      AskedOnce(ContextScript(), CurrentCall, given, true);
      if mContext == 0 {
        DestroyGL();
        return false, given;
      }
      var current := MakeCurrent();
      given := given + [Answer(CurrentCall, current)];
      if !current {
        DestroyGL();
        return false, given;
      }
      return true, given;
    }

    ghost function AfterDisplayScript(params: WindowParams): seq<Call>
      reads this`mConfigParams, this`eglMajor, this`eglMinor
    {
      if AsksForSurface(params) then SurfaceScript(params) + CurrentScript() else []
    }

    ghost function WholeScript(platform: PlatformParams, params: WindowParams, loaded: bool): seq<Call>
      reads this`mConfigParams, this`eglMajor, this`eglMinor
    {
      if !AsksForDisplay(platform, loaded) then []
      else DisplayScript(platform, loaded) + AfterDisplayScript(params)
    }

    // The last two stages.
    method InitializeOnDisplay(params: WindowParams) returns (ok: bool, ghost stages: nat, ghost given: seq<Answer>)
      requires Valid() && mDisplay != 0
      modifies this`mDisplay, this`mSurface, this`mContext, this`mConfig, this`mConfigParams, this`replaced
      modifies egl`books, egl`current, egl`asked, egl`answers, egl`detached
      ensures Valid()
      ensures egl.answers == old(egl.answers) + given && Followed(AfterDisplayScript(params), given)
      ensures ok <==> AsksForSurface(params) && TheRequest().Some? && Granted(AfterDisplayScript(params), given)
      ensures 1 <= stages <= 3 && (ok <==> stages == 3)
      ensures if ok then mDisplay == old(mDisplay) && IsGLInitialized() && egl.current == Some((mSurface, mContext))
              else Empty()
      ensures AsksForSurface(params) ==> Chosen(params)
      ensures replaced == (
        || old(replaced)
        || (old(mSurface) != 0 && AsksForSurface(params))
        || (old(mContext) != 0 && stages >= 2))
    {
      hide Chosen, Accounted, Request, AsksForSurface, Followed, Granted, Holding, TheRequest;
      ghost var last;
      stages := 1;
      ok, given := InitializeSurface(params);
      if !ok {
        if AsksForSurface(params) { StoppedBefore(SurfaceScript(params), CurrentScript(), given); }
        return;
      }
      stages := 2;
      ok, last := InitializeContext();
      FollowedFurther(SurfaceScript(params), CurrentScript(), given, last);
      given := given + last;
      if ok { stages := 3; }
    }

    // Succeeds exactly if a display and a surface are asked for and a context requested, and EGL grants every call on
    // the way. Of the three stages so many succeed, and a held handle is replaced exactly if one of those that were
    // started does so.
    method InitializeGL(platform: PlatformParams, params: WindowParams, loaded: bool)
        returns (ok: bool, ghost handed: Option<nat>, ghost stages: nat, ghost given: seq<Answer>)
      requires Valid()
      modifies this, egl
      ensures Valid()
      ensures egl.answers == old(egl.answers) + given && Followed(WholeScript(platform, params, loaded), given)
      ensures ok <==>
        && AsksForDisplay(platform, loaded) && AsksForSurface(params) && TheRequest().Some?
        && Granted(WholeScript(platform, params, loaded), given)
      ensures ok <==> stages == 3
      ensures ok ==> IsGLInitialized() && Chosen(params) && egl.current == Some((mSurface, mContext))
      ensures !ok ==> if loaded then Empty() else SameHandles()
      ensures handed.Some? <==> AsksForDisplay(platform, loaded)
      ensures ok ==> handed == Some(mDisplay)
      ensures replaced == (
        || old(replaced)
        || (old(mDisplay) != 0 && handed.Some? && handed.value != old(mDisplay))
        || (old(mSurface) != 0 && stages >= 1 && AsksForSurface(params))
        || (old(mContext) != 0 && stages >= 2))
    {
      hide Chosen, Accounted, Request, AsksForSurface, AsksForDisplay, Followed, Granted, Holding, TheRequest;
      stages := 0;
      ghost var more;
      NothingAsked();
      ok, handed, given := InitializeDisplay(platform, loaded);
      if !ok {
        if AsksForDisplay(platform, loaded) {
          StoppedBefore(DisplayScript(platform, loaded), AfterDisplayScript(params), given);
        }
        return;
      }
      ok, stages, more := InitializeOnDisplay(params);
      FollowedFurther(DisplayScript(platform, loaded), AfterDisplayScript(params), given, more);
      given := given + more;
    }

    // Whether a stage is started although its handle is held.
    ghost predicate StartsHeld(op: Op)
      reads this
    {
      match op
      case InitDisplay(_) => mDisplay != 0
      case InitSurface(_) => mSurface != 0
      case InitContext => mContext != 0
      case Init(_, _) => !Empty()
      case _ => false
    }

    // One step of a run; a surface or context is asked for, or made current, only with a display.
    method Step(op: Op)
      requires Valid()
      modifies this, egl
      ensures Valid()
      ensures replaced ==> old(replaced) || old(StartsHeld(op))
    {
      hide Accounted, Chosen, AsksForSurface, AsksForDisplay;
      var ok: bool;
      ghost var handed, stages, given;
      match op
      case InitDisplay(platform) =>
        var loaded: bool := *;
        ok, handed, given := InitializeDisplay(platform, loaded);
      case InitSurface(params) => if mDisplay != 0 { ok, given := InitializeSurface(params); }
      case InitContext => if mDisplay != 0 { ok, given := InitializeContext(); }
      case Init(platform, params) =>
        var loaded: bool := *;
        ok, handed, stages, given := InitializeGL(platform, params, loaded);
      case Destroy => DestroyGL();
      case DestroySurface => DestroySurface();
      case DestroyContext => DestroyContext();
      case Current => if mDisplay != 0 { ok := MakeCurrent(); }
    }

    // Any run and then the destructor: every handle ever obtained has been given back exactly once, and none misused,
    // exactly if no held handle was replaced; and none is if every stage starts with its handle empty.
    method RunAndDelete(ops: seq<Op>) returns (ghost startedHeld: bool)
      requires Valid()
      modifies this, egl
      ensures Valid() && Empty()
      ensures multiset(egl.books.released) == egl.books.created <==> !replaced
      ensures !replaced ==> !egl.books.misused
      ensures replaced ==> old(replaced) || startedHeld
    {
      hide Accounted;
      startedHeld := false;
      for i := 0 to |ops|
        invariant Valid()
        invariant replaced ==> old(replaced) || startedHeld
      {
        startedHeld := startedHeld || StartsHeld(ops[i]);
        Step(ops[i]);
      }
      DestroyGL();
      WhatAccountedMeans(egl.books, mDisplay, mSurface, mContext, replaced);
    }
  }

  lemma NoneObtained(b: Books)
    ensures b.ObtainUnlessNone(Context(0), 0) == b
  {}

  lemma FoundHonours(attribs: Attribs, configs: seq<int>, p: ConfigParams, hasFloat: bool, config: int)
    requires Terminated(Flatten(Requested(p, hasFloat)), 0)
    requires FirstMatch(attribs, configs, Flatten(Requested(p, hasFloat)), config)
    ensures Honours(p, Actual(attribs, config, p))
  {
    MatchHonours(attribs, config, p, hasFloat);
  }
}
