/** FindEGLConfig of util/EGLWindow.cpp, and the attributes initializeSurface looks for. */
module EglConfig {
  import opened Text

  const NONE := 0x3038
  const DONT_CARE := -1

  // What eglGetConfigAttrib writes for a config and an attribute; nothing if it fails.
  type Attribs = (int, int) -> Option<int>

  // A list of names and values, ended by EGL_NONE in the place of a name.
  predicate Terminated(list: seq<int>, at: nat)
    decreases |list| - at
  {
    at < |list| && (list[at] == NONE || (at + 1 < |list| && Terminated(list, at + 2)))
  }

  predicate Agrees(attribs: Attribs, config: int, name: int, value: int) {
    value == DONT_CARE || attribs(config, name) == Some(value)
  }

  // Every name from at on agrees with its value.
  predicate Matches(attribs: Attribs, config: int, list: seq<int>, at: nat)
    requires Terminated(list, at)
    decreases |list| - at
  {
    list[at] == NONE || (Agrees(attribs, config, list[at], list[at + 1]) && Matches(attribs, config, list, at + 2))
  }

  ghost predicate FirstMatch(attribs: Attribs, configs: seq<int>, list: seq<int>, config: int)
    requires Terminated(list, 0)
  {
    exists i ::
      && 0 <= i < |configs| && configs[i] == config && Matches(attribs, configs[i], list, 0)
      && forall j :: 0 <= j < i ==> !Matches(attribs, configs[j], list, 0)
  }

  // The first config that matches, or none does and config stays as it was.
  method FindEGLConfig(attribs: Attribs, allConfigs: seq<int>, attribList: seq<int>, config0: int)
      returns (found: bool, config: int)
    requires Terminated(attribList, 0)
    ensures found ==> FirstMatch(attribs, allConfigs, attribList, config)
    ensures !found ==> config == config0 && forall c :: c in allConfigs ==> !Matches(attribs, c, attribList, 0)
  {
    config := config0;
    var i := 0;
    while i < |allConfigs|
      invariant 0 <= i <= |allConfigs|
      invariant forall j :: 0 <= j < i ==> !Matches(attribs, allConfigs[j], attribList, 0)
    {
      var matchFound := true;
      var cur := 0;
      while attribList[cur] != NONE
        invariant Terminated(attribList, cur)
        invariant matchFound
        invariant Matches(attribs, allConfigs[i], attribList, 0) <==> Matches(attribs, allConfigs[i], attribList, cur)
        decreases |attribList| - cur
      {
        if attribList[cur + 1] == DONT_CARE {
          cur := cur + 2;
          continue;
        }
        var read := attribs(allConfigs[i], attribList[cur]);
        var actualValue := if read.Some? then read.value else DONT_CARE;
        if attribList[cur + 1] != actualValue {
          matchFound := false;
          break;
        }
        cur := cur + 2;
      }
      if matchFound {
        return true, allConfigs[i];
      }
      i := i + 1;
    }
    found := false;
  }

  // ---- The list of initializeSurface ----

  const RED_SIZE := 0x3024
  const GREEN_SIZE := 0x3023
  const BLUE_SIZE := 0x3022
  const ALPHA_SIZE := 0x3021
  const DEPTH_SIZE := 0x3025
  const STENCIL_SIZE := 0x3026
  const SAMPLE_BUFFERS := 0x3032
  const SAMPLES := 0x3031
  const COLOR_COMPONENT_TYPE := 0x3339
  const COLOR_COMPONENT_TYPE_FIXED := 0x333A

  datatype ConfigParams = ConfigParams(redBits: int, greenBits: int, blueBits: int, alphaBits: int, depthBits: int,
                                       stencilBits: int, multisample: bool, samples: int, componentType: int)

  function Flatten(pairs: seq<(int, int)>): seq<int> {
    if pairs == [] then [NONE] else [pairs[0].0, pairs[0].1] + Flatten(pairs[1..])
  }

  function OrDontCare(bits: int): int { if bits >= 0 then bits else DONT_CARE }

  function Requested(p: ConfigParams, hasPixelFormatFloat: bool): seq<(int, int)> {
    [(RED_SIZE, OrDontCare(p.redBits)), (GREEN_SIZE, OrDontCare(p.greenBits)), (BLUE_SIZE, OrDontCare(p.blueBits)),
     (ALPHA_SIZE, OrDontCare(p.alphaBits)), (DEPTH_SIZE, OrDontCare(p.depthBits)),
     (STENCIL_SIZE, OrDontCare(p.stencilBits)), (SAMPLE_BUFFERS, if p.multisample then 1 else 0),
     (SAMPLES, OrDontCare(p.samples))]
    + if hasPixelFormatFloat then [(COLOR_COMPONENT_TYPE, p.componentType)] else []
  }

  // The list ends where it should, and a config matches it when it agrees with every pair.
  lemma {:induction false} FlattenMatches(attribs: Attribs, config: int, list: seq<int>, at: nat,
                                          pairs: seq<(int, int)>)
    requires at <= |list| && list[at..] == Flatten(pairs)
    requires forall p :: p in pairs ==> p.0 != NONE
    ensures Terminated(list, at)
    ensures Matches(attribs, config, list, at) <==> forall p :: p in pairs ==> Agrees(attribs, config, p.0, p.1)
    decreases |pairs|
  {
    assert list[at] == list[at..][0];
    if pairs != [] {
      assert list[at + 1] == list[at..][1];
      assert list[at + 2..] == list[at..][2..] == Flatten(pairs[1..]);
      FlattenMatches(attribs, config, list, at + 2, pairs[1..]);
      assert pairs[0] in pairs;
      assert forall p :: p in pairs <==> p == pairs[0] || p in pairs[1..];
    }
  }

  lemma NoneNotRequested(p: ConfigParams, hasPixelFormatFloat: bool)
    ensures forall q :: q in Requested(p, hasPixelFormatFloat) ==> q.0 != NONE
  {}

  // The parameters with what the config has; a value that cannot be read stays.
  function Actual(attribs: Attribs, config: int, p: ConfigParams): ConfigParams {
    p.(redBits := Read(attribs, config, RED_SIZE, p.redBits),
       greenBits := Read(attribs, config, GREEN_SIZE, p.greenBits),
       blueBits := Read(attribs, config, BLUE_SIZE, p.blueBits),
       alphaBits := Read(attribs, config, ALPHA_SIZE, p.alphaBits),
       depthBits := Read(attribs, config, DEPTH_SIZE, p.depthBits),
       stencilBits := Read(attribs, config, STENCIL_SIZE, p.stencilBits),
       samples := Read(attribs, config, SAMPLES, p.samples))
  }

  function Read(attribs: Attribs, config: int, name: int, default: int): int {
    if attribs(config, name).Some? then attribs(config, name).value else default
  }

  ghost predicate Kept(asked: int, got: int) { asked >= 0 ==> got == asked }

  // Each parameter that was not left open.
  ghost predicate Honours(asked: ConfigParams, got: ConfigParams) {
    && Kept(asked.redBits, got.redBits) && Kept(asked.greenBits, got.greenBits) && Kept(asked.blueBits, got.blueBits)
    && Kept(asked.alphaBits, got.alphaBits) && Kept(asked.depthBits, got.depthBits)
    && Kept(asked.stencilBits, got.stencilBits) && Kept(asked.samples, got.samples)
    && got.multisample == asked.multisample && got.componentType == asked.componentType
  }

  // The config has the size if one is asked for.
  ghost predicate HasSize(attribs: Attribs, config: int, name: int, asked: int) {
    asked >= 0 ==> attribs(config, name) == Some(asked)
  }

  // The config has every size asked for, samples exactly if they are, and with the extension the component type.
  ghost predicate Suits(attribs: Attribs, config: int, p: ConfigParams, hasPixelFormatFloat: bool) {
    && HasSize(attribs, config, RED_SIZE, p.redBits) && HasSize(attribs, config, GREEN_SIZE, p.greenBits)
    && HasSize(attribs, config, BLUE_SIZE, p.blueBits) && HasSize(attribs, config, ALPHA_SIZE, p.alphaBits)
    && HasSize(attribs, config, DEPTH_SIZE, p.depthBits) && HasSize(attribs, config, STENCIL_SIZE, p.stencilBits)
    && HasSize(attribs, config, SAMPLES, p.samples)
    && attribs(config, SAMPLE_BUFFERS) == Some(if p.multisample then 1 else 0)
    && (hasPixelFormatFloat ==>
         p.componentType == DONT_CARE || attribs(config, COLOR_COMPONENT_TYPE) == Some(p.componentType))
  }

  // The list ends where it should, a config matches it exactly if it suits, and then the parameters read back from it
  // are those asked for.
  lemma MatchHonours(attribs: Attribs, config: int, p: ConfigParams, hasPixelFormatFloat: bool)
    ensures Terminated(Flatten(Requested(p, hasPixelFormatFloat)), 0)
    ensures Matches(attribs, config, Flatten(Requested(p, hasPixelFormatFloat)), 0) <==>
      Suits(attribs, config, p, hasPixelFormatFloat)
    ensures Suits(attribs, config, p, hasPixelFormatFloat) ==> Honours(p, Actual(attribs, config, p))
  {
    var r := Requested(p, hasPixelFormatFloat);
    NoneNotRequested(p, hasPixelFormatFloat);
    assert Flatten(r)[0..] == Flatten(r);
    FlattenMatches(attribs, config, Flatten(r), 0, r);
    hide Flatten, Matches, Honours, Actual, Agrees, Suits;
    AgreementIff(attribs, config, p, hasPixelFormatFloat);
    if Suits(attribs, config, p, hasPixelFormatFloat) { SuitableHonours(attribs, config, p, hasPixelFormatFloat); }
  }

  lemma SuitableHonours(attribs: Attribs, config: int, p: ConfigParams, hasPixelFormatFloat: bool)
    requires Suits(attribs, config, p, hasPixelFormatFloat)
    ensures Honours(p, Actual(attribs, config, p))
  {}

  lemma AgreementIff(attribs: Attribs, config: int, p: ConfigParams, hasPixelFormatFloat: bool)
    ensures (forall q :: q in Requested(p, hasPixelFormatFloat) ==> Agrees(attribs, config, q.0, q.1)) <==>
      Suits(attribs, config, p, hasPixelFormatFloat)
  {
    AgreedSize(attribs, config, RED_SIZE, p.redBits);
    AgreedSize(attribs, config, GREEN_SIZE, p.greenBits);
    AgreedSize(attribs, config, BLUE_SIZE, p.blueBits);
    AgreedSize(attribs, config, ALPHA_SIZE, p.alphaBits);
    AgreedSize(attribs, config, DEPTH_SIZE, p.depthBits);
    AgreedSize(attribs, config, STENCIL_SIZE, p.stencilBits);
    AgreedSize(attribs, config, SAMPLES, p.samples);
    AgreedValue(attribs, config, SAMPLE_BUFFERS, if p.multisample then 1 else 0);
    AgreedValue(attribs, config, COLOR_COMPONENT_TYPE, p.componentType);
    hide Agrees, HasSize, OrDontCare;
    if Suits(attribs, config, p, hasPixelFormatFloat) {
      EachAgrees(attribs, config, p, hasPixelFormatFloat);
    }
    if forall q :: q in Requested(p, hasPixelFormatFloat) ==> Agrees(attribs, config, q.0, q.1) {
      EachRequested(p, hasPixelFormatFloat);
    }
  }

  lemma EachAgrees(attribs: Attribs, config: int, p: ConfigParams, hasPixelFormatFloat: bool)
    requires Agrees(attribs, config, RED_SIZE, OrDontCare(p.redBits))
    requires Agrees(attribs, config, GREEN_SIZE, OrDontCare(p.greenBits))
    requires Agrees(attribs, config, BLUE_SIZE, OrDontCare(p.blueBits))
    requires Agrees(attribs, config, ALPHA_SIZE, OrDontCare(p.alphaBits))
    requires Agrees(attribs, config, DEPTH_SIZE, OrDontCare(p.depthBits))
    requires Agrees(attribs, config, STENCIL_SIZE, OrDontCare(p.stencilBits))
    requires Agrees(attribs, config, SAMPLES, OrDontCare(p.samples))
    requires Agrees(attribs, config, SAMPLE_BUFFERS, if p.multisample then 1 else 0)
    requires hasPixelFormatFloat ==> Agrees(attribs, config, COLOR_COMPONENT_TYPE, p.componentType)
    ensures forall q :: q in Requested(p, hasPixelFormatFloat) ==> Agrees(attribs, config, q.0, q.1)
  {
    hide Agrees, OrDontCare;
  }

  lemma EachRequested(p: ConfigParams, hasPixelFormatFloat: bool)
    ensures var r := Requested(p, hasPixelFormatFloat);
      && (RED_SIZE, OrDontCare(p.redBits)) in r && (GREEN_SIZE, OrDontCare(p.greenBits)) in r
      && (BLUE_SIZE, OrDontCare(p.blueBits)) in r && (ALPHA_SIZE, OrDontCare(p.alphaBits)) in r
      && (DEPTH_SIZE, OrDontCare(p.depthBits)) in r && (STENCIL_SIZE, OrDontCare(p.stencilBits)) in r
      && (SAMPLES, OrDontCare(p.samples)) in r && (SAMPLE_BUFFERS, if p.multisample then 1 else 0) in r
      && (hasPixelFormatFloat ==> (COLOR_COMPONENT_TYPE, p.componentType) in r)
  {
    hide OrDontCare;
    var r := Requested(p, hasPixelFormatFloat);
    assert r[0] in r && r[1] in r && r[2] in r && r[3] in r;
    assert r[4] in r && r[5] in r && r[6] in r && r[7] in r;
    if hasPixelFormatFloat { assert r[8] in r; }
  }

  lemma AgreedSize(attribs: Attribs, config: int, name: int, asked: int)
    ensures Agrees(attribs, config, name, OrDontCare(asked)) <==> HasSize(attribs, config, name, asked)
  {}

  lemma AgreedValue(attribs: Attribs, config: int, name: int, value: int)
    ensures Agrees(attribs, config, name, value) <==> value == DONT_CARE || attribs(config, name) == Some(value)
  {}
}
