/** What EGLWindow::createContext of util/EGLWindow.cpp asks of the display, and when it asks nothing. */
module EglContextRequest {
  import opened EglExtensions
  import opened Text

  // The parameters of a context; those that may be left unset are options.
  datatype Params = Params(webGLCompatibility: Option<bool>, robustResourceInit: Option<bool>, debug: bool,
                           noError: bool, extensionsEnabled: Option<bool>, bindGeneratesResource: bool,
                           clientArraysEnabled: bool, robustAccess: bool, contextProgramCacheEnabled: Option<bool>,
                           resetStrategy: int)

  const NO_RESET_NOTIFICATION := 0x31BE

  datatype Key =
    | MajorVersion | MinorVersion | Debug | NoError | WebGLCompatibility | ExtensionsEnabled | RobustAccess
    | ResetNotificationStrategy | BindGeneratesResource | ClientArraysEnabled | ProgramBinaryCacheEnabled
    | BackwardsCompatible | RobustResourceInitialization

  const KHR_CREATE_CONTEXT := "EGL_KHR_create_context"
  // In parts, since the verifier settles that a character is not in a literal for short ones only.
  const PROGRAM_CACHE_CONTROL := "EGL_ANGLE_program_c" + "ache_control"

  // The extension that defines an attribute.
  function Defining(k: Key): string {
    match k
    case MajorVersion => KHR_CREATE_CONTEXT
    case MinorVersion => KHR_CREATE_CONTEXT
    case Debug => KHR_CREATE_CONTEXT
    case NoError => "EGL_KHR_create_context_no_error"
    case WebGLCompatibility => "EGL_ANGLE_create_context_webgl_compatibility"
    case ExtensionsEnabled => "EGL_ANGLE_create_context_extensions_enabled"
    case RobustAccess => "EGL_EXT_create_context_robustness"
    case ResetNotificationStrategy => "EGL_EXT_create_context_robustness"
    case BindGeneratesResource => "EGL_CHROMIUM_create_context_bind_generates_resource"
    case ClientArraysEnabled => "EGL_ANGLE_create_context_client_arrays"
    case ProgramBinaryCacheEnabled => PROGRAM_CACHE_CONTROL
    case BackwardsCompatible => "EGL_ANGLE_create_context_backwards_compatible"
    case RobustResourceInitialization => "EGL_ANGLE_robust_resource_initialization"
  }

  datatype Attribute = Attribute(key: Key, value: int)

  function Flag(b: bool): int { if b then 1 else 0 }

  function Set(k: Key, o: Option<bool>): seq<Attribute> {
    if o.Some? then [Attribute(k, Flag(o.value))] else []
  }

  // The attribute list without its EGL_NONE, or nothing if createContext gives up before eglCreateContext.
  function Request(exts: string, p: Params, major: int, minor: int, eglMajor: int,
                   eglMinor: int): Option<seq<Attribute>> {
    var hasKHRCreateContext := Has(exts, Defining(MajorVersion));
    if major > 2 && !(eglMajor > 1 || eglMinor >= 5) && !hasKHRCreateContext then None
    else if p.webGLCompatibility.Some? && !Has(exts, Defining(WebGLCompatibility)) then None
    else if p.extensionsEnabled.Some? && !Has(exts, Defining(ExtensionsEnabled)) then None
    else if (p.robustAccess || p.resetStrategy != NO_RESET_NOTIFICATION) && !Has(exts, Defining(RobustAccess)) then None
    else if !p.bindGeneratesResource && !Has(exts, Defining(BindGeneratesResource)) then None
    else if !p.clientArraysEnabled && !Has(exts, Defining(ClientArraysEnabled)) then None
    else if p.contextProgramCacheEnabled.Some? && !Has(exts, PROGRAM_CACHE_CONTROL + " ") then None
    else if !Has(exts, PROGRAM_CACHE_CONTROL + " ") then None
    else if !hasKHRCreateContext then Some([])
    else Some(FullRequest(exts, p, major, minor))
  }

  function Versions(p: Params, major: int, minor: int): seq<Attribute> {
    [Attribute(MajorVersion, major), Attribute(MinorVersion, minor), Attribute(Debug, Flag(p.debug)),
     Attribute(NoError, Flag(p.noError))]
  }

  function Robustness(exts: string, p: Params): seq<Attribute> {
    if !Has(exts, Defining(RobustAccess)) then []
    else [Attribute(RobustAccess, Flag(p.robustAccess)), Attribute(ResetNotificationStrategy, p.resetStrategy)]
  }

  function Resources(exts: string, p: Params): seq<Attribute> {
    (if Has(exts, Defining(BindGeneratesResource))
     then [Attribute(BindGeneratesResource, Flag(p.bindGeneratesResource))]
     else []) +
    (if Has(exts, Defining(ClientArraysEnabled)) then [Attribute(ClientArraysEnabled, Flag(p.clientArraysEnabled))]
     else [])
  }

  function Rest(exts: string, p: Params): seq<Attribute> {
    (if Has(exts, Defining(BackwardsCompatible)) then [Attribute(BackwardsCompatible, 0)] else []) +
    (if Has(exts, Defining(RobustResourceInitialization)) then Set(RobustResourceInitialization, p.robustResourceInit)
     else [])
  }

  function FullRequest(exts: string, p: Params, major: int, minor: int): seq<Attribute> {
    Versions(p, major, minor) + Set(WebGLCompatibility, p.webGLCompatibility)
      + Set(ExtensionsEnabled, p.extensionsEnabled)
    + Robustness(exts, p) + Resources(exts, p) + Set(ProgramBinaryCacheEnabled, p.contextProgramCacheEnabled)
    + Rest(exts, p)
  }

  // What the caller wants that is not the default of EGL.
  ghost predicate Wants(p: Params, k: Key, v: int) {
    match k
    case WebGLCompatibility => p.webGLCompatibility.Some? && v == Flag(p.webGLCompatibility.value)
    case ExtensionsEnabled => p.extensionsEnabled.Some? && v == Flag(p.extensionsEnabled.value)
    case RobustAccess => p.robustAccess && v == 1
    case ResetNotificationStrategy => p.resetStrategy != NO_RESET_NOTIFICATION && v == p.resetStrategy
    case BindGeneratesResource => !p.bindGeneratesResource && v == 0
    case ClientArraysEnabled => !p.clientArraysEnabled && v == 0
    case ProgramBinaryCacheEnabled =>
      p.contextProgramCacheEnabled.Some? && v == Flag(p.contextProgramCacheEnabled.value)
    case MajorVersion => false  // see Wishes
    case MinorVersion => false  // see Wishes
    case Debug => p.debug && v == 1
    case NoError => p.noError && v == 1
    case BackwardsCompatible => false  // see Wishes
    case RobustResourceInitialization => p.robustResourceInit.Some? && v == Flag(p.robustResourceInit.value)
  }

  // All that is wished for: that, and always the version, and exactly this one.
  ghost predicate Wishes(p: Params, major: int, minor: int, k: Key, v: int) {
    if k == MajorVersion then v == major
    else if k == MinorVersion then v == minor
    else if k == BackwardsCompatible then v == 0
    else Wants(p, k, v)
  }

  ghost predicate AllSent(p: Params, major: int, minor: int, r: seq<Attribute>) {
    forall k, v :: Wishes(p, major, minor, k, v) ==> Attribute(k, v) in r
  }

  predicate Checked(k: Key) {
    k in {WebGLCompatibility, ExtensionsEnabled, RobustAccess, ResetNotificationStrategy, BindGeneratesResource,
          ClientArraysEnabled, ProgramBinaryCacheEnabled}
  }

  // Sent if their extension is found, and otherwise left out, without a test that would refuse the request.
  predicate Droppable(k: Key) { k == BackwardsCompatible || k == RobustResourceInitialization }

  ghost predicate Unmet(exts: string, p: Params) {
    exists k, v :: Checked(k) && Wants(p, k, v) && !Contains(exts, Defining(k))
  }

  lemma ProgramCacheTest(exts: string)
    ensures Contains(exts, PROGRAM_CACHE_CONTROL + " ") <==> EndsEarlier(Split(exts, SPACE), PROGRAM_CACHE_CONTROL)
    ensures Contains(exts, PROGRAM_CACHE_CONTROL + " ") ==> Contains(exts, PROGRAM_CACHE_CONTROL)
  {
    var a, b := "EGL_ANGLE_program_c", "ache_control";
    assert ' ' !in a;
    assert ' ' !in b;
    var pat := PROGRAM_CACHE_CONTROL;
    assert pat == a + b;
    SpacedFindsEarlier(exts, pat);
    if i :| OccursAt(exts, pat + " ", i) {
      assert exts[i..i + |pat|] == exts[i..i + |pat + " "|][..|pat|];
      assert OccursAt(exts, pat, i);
    }
  }

  // Nothing is asked for when a wish has no extension or the version is out of reach; but also whenever
  // EGL_ANGLE_program_cache_control is missing or comes last in the list, whatever the wishes.
  lemma RefusedIff(exts: string, p: Params, major: int, minor: int, eglMajor: int, eglMinor: int)
    ensures Request(exts, p, major, minor, eglMajor, eglMinor).None? <==>
            || (major > 2 && eglMajor <= 1 && eglMinor < 5 && !Contains(exts, Defining(MajorVersion)))
            || Unmet(exts, p)
            || !EndsEarlier(Split(exts, SPACE), PROGRAM_CACHE_CONTROL)
  {
    ProgramCacheTest(exts);
    CacheDefining();
    hide Contains, EndsEarlier, PROGRAM_CACHE_CONTROL, Set, Defining, FullRequest;
    if p.webGLCompatibility.Some? { assert Wants(p, WebGLCompatibility, Flag(p.webGLCompatibility.value)); }
    if p.extensionsEnabled.Some? { assert Wants(p, ExtensionsEnabled, Flag(p.extensionsEnabled.value)); }
    if p.robustAccess { assert Wants(p, RobustAccess, 1); }
    SameDefining();
    if p.resetStrategy != NO_RESET_NOTIFICATION { assert Wants(p, ResetNotificationStrategy, p.resetStrategy); }
    if !p.bindGeneratesResource { assert Wants(p, BindGeneratesResource, 0); }
    if !p.clientArraysEnabled { assert Wants(p, ClientArraysEnabled, 0); }
  }

  function Rank(k: Key): nat {
    match k
    case MajorVersion => 0
    case MinorVersion => 1
    case Debug => 2
    case NoError => 3
    case WebGLCompatibility => 4
    case ExtensionsEnabled => 5
    case RobustAccess => 6
    case ResetNotificationStrategy => 7
    case BindGeneratesResource => 8
    case ClientArraysEnabled => 9
    case ProgramBinaryCacheEnabled => 10
    case BackwardsCompatible => 11
    case RobustResourceInitialization => 12
  }

  // Attributes in order, from lo on and below hi, each with its extension there.
  ghost predicate Ordered(exts: string, r: seq<Attribute>, lo: nat, hi: nat) {
    && (forall i, j :: 0 <= i < j < |r| ==> Rank(r[i].key) < Rank(r[j].key))
    && (forall a :: a in r ==> lo <= Rank(a.key) < hi && (a.key != NoError ==> Contains(exts, Defining(a.key))))
  }

  lemma OrderedConcat(exts: string, r: seq<Attribute>, s: seq<Attribute>, lo: nat, mid: nat, hi: nat)
    requires Ordered(exts, r, lo, mid) && Ordered(exts, s, mid, hi) && lo <= mid <= hi
    ensures Ordered(exts, r + s, lo, hi)
  {
    var t := r + s;
    forall i, j | 0 <= i < j < |t| ensures Rank(t[i].key) < Rank(t[j].key) {
      assert t[i] in r || t[i] in s;
      assert t[j] in r || t[j] in s;
      if i < |r| <= j {
        assert t[i] in r && t[j] in s;
      }
    }
  }

  lemma SetOrdered(exts: string, k: Key, o: Option<bool>)
    requires o.Some? ==> Contains(exts, Defining(k))
    ensures Ordered(exts, Set(k, o), Rank(k), Rank(k) + 1)
  {}

  // An attribute is sent at most once, and only where its extension is found; except EGL_CONTEXT_OPENGL_NO_ERROR_KHR.
  lemma SentOnlyIfFound(exts: string, p: Params, major: int, minor: int, eglMajor: int, eglMinor: int)
    requires Request(exts, p, major, minor, eglMajor, eglMinor).Some?
    ensures var r := Request(exts, p, major, minor, eglMajor, eglMinor).value;
            && (forall i, j :: 0 <= i < j < |r| ==> r[i].key != r[j].key)
            && (forall a :: a in r && a.key != NoError ==> Contains(exts, Defining(a.key)))
  {
    ProgramCacheTest(exts);
    CacheDefining();
    RefusedIff(exts, p, major, minor, eglMajor, eglMinor);
    hide Contains, PROGRAM_CACHE_CONTROL, Set, Defining, FullRequest, Unmet, EndsEarlier;
    if Has(exts, Defining(MajorVersion)) {
      RequestOrdered(exts, p, major, minor);
      WhatOrderedMeans(exts, FullRequest(exts, p, major, minor));
    }
  }

  lemma WhatOrderedMeans(exts: string, r: seq<Attribute>)
    requires Ordered(exts, r, 0, 13)
    ensures forall i, j :: 0 <= i < j < |r| ==> r[i].key != r[j].key
    ensures forall a :: a in r && a.key != NoError ==> Contains(exts, Defining(a.key))
  {}

  lemma RequestOrdered(exts: string, p: Params, major: int, minor: int)
    requires Contains(exts, Defining(MajorVersion)) && !Unmet(exts, p)
    ensures Ordered(exts, FullRequest(exts, p, major, minor), 0, 13)
  {
    hide Contains, Defining, Ordered, Set, Versions, Robustness, Resources, Rest;
    if p.webGLCompatibility.Some? { assert Wants(p, WebGLCompatibility, Flag(p.webGLCompatibility.value)); }
    if p.extensionsEnabled.Some? { assert Wants(p, ExtensionsEnabled, Flag(p.extensionsEnabled.value)); }
    if p.contextProgramCacheEnabled.Some? {
      assert Wants(p, ProgramBinaryCacheEnabled, Flag(p.contextProgramCacheEnabled.value));
    }
    SetOrdered(exts, WebGLCompatibility, p.webGLCompatibility);
    SetOrdered(exts, ExtensionsEnabled, p.extensionsEnabled);
    SetOrdered(exts, ProgramBinaryCacheEnabled, p.contextProgramCacheEnabled);
    var r0 := Versions(p, major, minor);
    VersionsOrdered(exts, p, major, minor);
    var r1 := r0 + Set(WebGLCompatibility, p.webGLCompatibility);
    OrderedConcat(exts, r0, Set(WebGLCompatibility, p.webGLCompatibility), 0, 4, 5);
    var r2 := r1 + Set(ExtensionsEnabled, p.extensionsEnabled);
    OrderedConcat(exts, r1, Set(ExtensionsEnabled, p.extensionsEnabled), 0, 5, 6);
    RobustnessOrdered(exts, p);
    OrderedConcat(exts, r2, Robustness(exts, p), 0, 6, 8);
    var r3 := r2 + Robustness(exts, p);
    ResourcesOrdered(exts, p);
    OrderedConcat(exts, r3, Resources(exts, p), 0, 8, 10);
    var r4 := r3 + Resources(exts, p);
    OrderedConcat(exts, r4, Set(ProgramBinaryCacheEnabled, p.contextProgramCacheEnabled), 0, 10, 11);
    var r5 := r4 + Set(ProgramBinaryCacheEnabled, p.contextProgramCacheEnabled);
    RestOrdered(exts, p);
    OrderedConcat(exts, r5, Rest(exts, p), 0, 11, 13);
  }

  lemma CacheDefining()
    ensures Defining(ProgramBinaryCacheEnabled) == PROGRAM_CACHE_CONTROL
  {}

  lemma SameDefining()
    ensures Defining(MinorVersion) == Defining(MajorVersion) == Defining(Debug)
    ensures Defining(ResetNotificationStrategy) == Defining(RobustAccess)
  {}

  lemma VersionsOrdered(exts: string, p: Params, major: int, minor: int)
    requires Contains(exts, Defining(MajorVersion))
    ensures Ordered(exts, Versions(p, major, minor), 0, 4)
  {
    SameDefining();
    hide Contains, Defining;
  }

  lemma RobustnessOrdered(exts: string, p: Params)
    ensures Ordered(exts, Robustness(exts, p), 6, 8)
  {
    hide Contains, Defining;
    SameDefining();
  }

  lemma ResourcesOrdered(exts: string, p: Params)
    ensures Ordered(exts, Resources(exts, p), 8, 10)
  {
    hide Contains, Defining;
  }

  lemma RestOrdered(exts: string, p: Params)
    ensures Ordered(exts, Rest(exts, p), 11, 13)
  {
    hide Contains, Defining;
  }

  // A request that is made holds every wish exactly when EGL_KHR_create_context is found, the extension for an exact
  // version too, and, if robust resource initialization was asked for or against, its extension: no test refuses a
  // request for want of these two. A wish is missing exactly if the first is not found or it is one of the two and its
  // own is not.
  lemma WishesSentIff(exts: string, p: Params, major: int, minor: int, eglMajor: int, eglMinor: int)
    requires Request(exts, p, major, minor, eglMajor, eglMinor).Some?
    ensures var r := Request(exts, p, major, minor, eglMajor, eglMinor).value;
            && (AllSent(p, major, minor, r) <==>
              && Contains(exts, Defining(MajorVersion)) && Contains(exts, Defining(BackwardsCompatible))
              && (p.robustResourceInit.None? || Contains(exts, Defining(RobustResourceInitialization))))
            && (!Contains(exts, Defining(MajorVersion)) ==> r == [])
            && (forall k, v :: Wishes(p, major, minor, k, v) ==>
              (Attribute(k, v) !in r <==>
                || !Contains(exts, Defining(MajorVersion))
                || (Droppable(k) && !Contains(exts, Defining(k)))))
  {
    RefusedIff(exts, p, major, minor, eglMajor, eglMinor);
    hide Contains, Defining, PROGRAM_CACHE_CONTROL, FullRequest, Unmet, EndsEarlier, Wants;
    var r := Request(exts, p, major, minor, eglMajor, eglMinor).value;
    assert Wishes(p, major, minor, MajorVersion, major);
    if Contains(exts, Defining(MajorVersion)) {
      FullRequestHolds(exts, p, major, minor);
      assert Wishes(p, major, minor, BackwardsCompatible, 0);
      RobustInitIsWished(p);
      if p.robustResourceInit.Some? {
        assert Wishes(p, major, minor, RobustResourceInitialization, Flag(p.robustResourceInit.value));
      }
    }
  }

  // The value the parameters give an attribute, if they do.
  ghost predicate Says(p: Params, major: int, minor: int, k: Key, v: int) {
    match k
    case MajorVersion => v == major
    case MinorVersion => v == minor
    case Debug => v == Flag(p.debug)
    case NoError => v == Flag(p.noError)
    case WebGLCompatibility => p.webGLCompatibility == Some(v != 0) && v <= 1 && v >= 0
    case ExtensionsEnabled => p.extensionsEnabled == Some(v != 0) && v <= 1 && v >= 0
    case RobustAccess => v == Flag(p.robustAccess)
    case ResetNotificationStrategy => v == p.resetStrategy
    case BindGeneratesResource => v == Flag(p.bindGeneratesResource)
    case ClientArraysEnabled => v == Flag(p.clientArraysEnabled)
    case ProgramBinaryCacheEnabled => p.contextProgramCacheEnabled == Some(v != 0) && v <= 1 && v >= 0
    case BackwardsCompatible => v == 0
    case RobustResourceInitialization => p.robustResourceInit == Some(v != 0) && v <= 1 && v >= 0
  }

  // What is sent with EGL_KHR_create_context: the value of each attribute that has one, where its extension is found
  // or, for the one about errors, in any case.
  lemma SentIff(exts: string, p: Params, major: int, minor: int, eglMajor: int, eglMinor: int, k: Key, v: int)
    requires Request(exts, p, major, minor, eglMajor, eglMinor).Some? && Contains(exts, Defining(MajorVersion))
    ensures Attribute(k, v) in Request(exts, p, major, minor, eglMajor, eglMinor).value <==>
      Says(p, major, minor, k, v) && (k == NoError || Contains(exts, Defining(k)))
  {
    RefusedIff(exts, p, major, minor, eglMajor, eglMinor);
    RequestIsFull(exts, p, major, minor, eglMajor, eglMinor);
    hide Contains, Defining, PROGRAM_CACHE_CONTROL, FullRequest, Request, EndsEarlier, Says;
    SentInFull(exts, p, major, minor, k, v);
  }

  lemma RequestIsFull(exts: string, p: Params, major: int, minor: int, eglMajor: int, eglMinor: int)
    requires Request(exts, p, major, minor, eglMajor, eglMinor).Some? && Contains(exts, Defining(MajorVersion))
    ensures Request(exts, p, major, minor, eglMajor, eglMinor).value == FullRequest(exts, p, major, minor)
  {
    hide Contains, Defining, PROGRAM_CACHE_CONTROL, FullRequest;
  }

  lemma SentInFull(exts: string, p: Params, major: int, minor: int, k: Key, v: int)
    requires !Unmet(exts, p) && Contains(exts, Defining(MajorVersion))
    ensures Attribute(k, v) in FullRequest(exts, p, major, minor) <==>
      Says(p, major, minor, k, v) && (k == NoError || Contains(exts, Defining(k)))
  {
    FullRequestParts(exts, p, major, minor, Attribute(k, v));
    SameDefining();
    InVersions(p, major, minor, k, v);
    InSet(WebGLCompatibility, p.webGLCompatibility, k, v);
    InSet(ExtensionsEnabled, p.extensionsEnabled, k, v);
    InSet(ProgramBinaryCacheEnabled, p.contextProgramCacheEnabled, k, v);
    InRobustness(exts, p, k, v);
    InResources(exts, p, k, v);
    InRest(exts, p, k, v);
    hide Contains, Defining, FullRequest, Versions, Set, Robustness, Resources, Rest;
    if p.webGLCompatibility.Some? { assert Wants(p, WebGLCompatibility, Flag(p.webGLCompatibility.value)); }
    if p.extensionsEnabled.Some? { assert Wants(p, ExtensionsEnabled, Flag(p.extensionsEnabled.value)); }
    if p.contextProgramCacheEnabled.Some? {
      assert Wants(p, ProgramBinaryCacheEnabled, Flag(p.contextProgramCacheEnabled.value));
    }
  }

  lemma InVersions(p: Params, major: int, minor: int, k: Key, v: int)
    ensures Attribute(k, v) in Versions(p, major, minor) <==>
      (k == MajorVersion && v == major) || (k == MinorVersion && v == minor)
      || (k == Debug && v == Flag(p.debug)) || (k == NoError && v == Flag(p.noError))
  {
    var s := Versions(p, major, minor);
    assert s[0] in s && s[1] in s && s[2] in s && s[3] in s;
  }

  lemma InSet(key: Key, o: Option<bool>, k: Key, v: int)
    ensures Attribute(k, v) in Set(key, o) <==> k == key && o == Some(v != 0) && 0 <= v <= 1
  {}

  lemma InRobustness(exts: string, p: Params, k: Key, v: int)
    ensures Attribute(k, v) in Robustness(exts, p) <==>
      && ((k == RobustAccess && v == Flag(p.robustAccess)) || (k == ResetNotificationStrategy && v == p.resetStrategy))
      && Contains(exts, Defining(RobustAccess))
  {
    hide Defining, Contains;
  }

  lemma InResources(exts: string, p: Params, k: Key, v: int)
    ensures Attribute(k, v) in Resources(exts, p) <==>
      && ((k == BindGeneratesResource && v == Flag(p.bindGeneratesResource))
          || (k == ClientArraysEnabled && v == Flag(p.clientArraysEnabled)))
      && Contains(exts, Defining(k))
  {
    hide Defining, Contains;
  }

  lemma InRest(exts: string, p: Params, k: Key, v: int)
    ensures Attribute(k, v) in Rest(exts, p) <==>
      && ((k == BackwardsCompatible && v == 0)
          || (k == RobustResourceInitialization && p.robustResourceInit == Some(v != 0) && 0 <= v <= 1))
      && Contains(exts, Defining(k))
  {
    hide Defining, Contains;
    InSet(RobustResourceInitialization, p.robustResourceInit, k, v);
  }

  lemma RobustInitIsWished(p: Params)
    ensures p.robustResourceInit.Some? ==>
      Wants(p, RobustResourceInitialization, Flag(p.robustResourceInit.value))
    ensures p.robustResourceInit.None? ==> forall v :: !Wants(p, RobustResourceInitialization, v)
  {}

  lemma FullRequestHolds(exts: string, p: Params, major: int, minor: int)
    requires !Unmet(exts, p)
    ensures forall k, v :: Wishes(p, major, minor, k, v) ==>
      (Attribute(k, v) in FullRequest(exts, p, major, minor) <==> !Droppable(k) || Contains(exts, Defining(k)))
  {
    hide Contains, Defining, FullRequest, Unmet, Wishes;
    forall k, v | Wishes(p, major, minor, k, v)
      ensures Attribute(k, v) in FullRequest(exts, p, major, minor) <==> !Droppable(k) || Contains(exts, Defining(k))
    {
      WishInFullRequest(exts, p, major, minor, k, v);
    }
  }

  lemma WishInFullRequest(exts: string, p: Params, major: int, minor: int, k: Key, v: int)
    requires !Unmet(exts, p) && Wishes(p, major, minor, k, v)
    ensures Attribute(k, v) in FullRequest(exts, p, major, minor) <==> !Droppable(k) || Contains(exts, Defining(k))
  {
    FullRequestParts(exts, p, major, minor, Attribute(k, v));
    SameDefining();
    hide Contains, Defining, FullRequest;
  }

  lemma FullRequestParts(exts: string, p: Params, major: int, minor: int, a: Attribute)
    ensures a in FullRequest(exts, p, major, minor) <==>
      || a in Versions(p, major, minor) || a in Set(WebGLCompatibility, p.webGLCompatibility)
      || a in Set(ExtensionsEnabled, p.extensionsEnabled) || a in Robustness(exts, p) || a in Resources(exts, p)
      || a in Set(ProgramBinaryCacheEnabled, p.contextProgramCacheEnabled) || a in Rest(exts, p)
  {
    hide Versions, Set, Robustness, Resources, Rest;
  }

  // A display on which the request is made, but neither for exactly the version nor with the robust resource
  // initialization asked for.
  lemma DroppedInSilence(p: Params, major: int, minor: int)
    requires p.webGLCompatibility.None? && p.extensionsEnabled.None? && !p.robustAccess
    requires p.resetStrategy == NO_RESET_NOTIFICATION && p.bindGeneratesResource && p.clientArraysEnabled
    requires p.contextProgramCacheEnabled.None?
    ensures var r := Request(PLAIN_DISPLAY, p, major, minor, 1, 5);
            && r.Some? && Attribute(MajorVersion, major) in r.value
            && Attribute(BackwardsCompatible, 0) !in r.value
            && forall v :: Wishes(p, major, minor, RobustResourceInitialization, v) ==>
              Attribute(RobustResourceInitialization, v) !in r.value
  {
    PlainDisplayLists();
    hide Contains, PLAIN_DISPLAY, Defining, PROGRAM_CACHE_CONTROL;
    WishesSentIff(PLAIN_DISPLAY, p, major, minor, 1, 5);
    assert Wishes(p, major, minor, MajorVersion, major);
    assert Wishes(p, major, minor, BackwardsCompatible, 0);
  }

  const PLAIN_DISPLAY := PROGRAM_CACHE_CONTROL + " " + KHR_CREATE_CONTEXT

  lemma PlainDisplayLists()
    ensures Contains(PLAIN_DISPLAY, PROGRAM_CACHE_CONTROL + " ") && Contains(PLAIN_DISPLAY, Defining(MajorVersion))
    ensures !Contains(PLAIN_DISPLAY, Defining(RobustResourceInitialization))
    ensures !Contains(PLAIN_DISPLAY, Defining(BackwardsCompatible))
  {
    ListedBoth(PROGRAM_CACHE_CONTROL, KHR_CREATE_CONTEXT);
    LettersMissing();
    DefiningByName();
    hide Defining, Contains;
    assert PLAIN_DISPLAY == PROGRAM_CACHE_CONTROL + " " + KHR_CREATE_CONTEXT;
    hide PLAIN_DISPLAY, PROGRAM_CACHE_CONTROL;
    LetterMissing(PLAIN_DISPLAY, Defining(RobustResourceInitialization), 34);
    LetterMissing(PLAIN_DISPLAY, Defining(BackwardsCompatible), 28);
  }

  lemma DefiningByName()
    ensures Defining(MajorVersion) == KHR_CREATE_CONTEXT
    ensures |Defining(RobustResourceInitialization)| > 34 && Defining(RobustResourceInitialization)[34] == 'z'
    ensures |Defining(BackwardsCompatible)| > 28 && Defining(BackwardsCompatible)[28] == 'k'
  {}

  lemma LettersMissing()
    ensures 'z' !in PLAIN_DISPLAY && 'k' !in PLAIN_DISPLAY
  {
    var a, b, c := "EGL_ANGLE_program_c", "ache_control", "EGL_KHR_create_context";
    assert 'z' !in a && 'k' !in a;
    assert 'z' !in b && 'k' !in b;
    assert 'z' !in c && 'k' !in c;
    assert PLAIN_DISPLAY == a + b + " " + c;
  }

  lemma ListedBoth(a: string, b: string)
    ensures Contains(a + " " + b, a + " ") && Contains(a + " " + b, b)
  {
    var s := a + " " + b;
    assert s[0..|a| + 1] == a + " ";
    assert s[|a| + 1..|a| + 1 + |b|] == b;
    assert OccursAt(s, a + " ", 0) && OccursAt(s, b, |a| + 1);
  }

  lemma LetterMissing(s: string, pat: string, k: nat)
    requires k < |pat| && pat[k] !in s
    ensures !Contains(s, pat)
  {
    forall i ensures !OccursAt(s, pat, i) {
      if 0 <= i && i + |pat| <= |s| { assert s[i..i + |pat|][k] == s[i + k] && s[i + k] in s; }
    }
  }
}
