/** CompileShader, CompileProgramInternal and CheckLinkStatusAndReturnProgram of util/shader_utils.cpp. */
module ShaderUtils {
  import opened GlObjects

  /** A context. What a call may do beyond its effect on the objects is left open: any call may record an error, the
      two creating calls may fail, and shaders and programs compile and link or not. Whether creating, compiling and
      linking succeeded is kept, in order. */
  class Context {
    var w: World
    ghost var sawError: bool
    ghost var answers: seq<bool>
    // The programs the callback was given, each with the number of answers before.
    ghost var called: seq<(nat, nat)>

    // The callback, which may record errors but creates and deletes nothing.
    method PreLinkCallback(program: nat)
      modifies this`w, this`called
      ensures w == old(w) || w == old(w).(error := true)
      ensures called == old(called) + [(program, |answers|)]
    {
      called := called + [(program, |answers|)];
      if * { w := w.(error := true); }
    }

    method MayFail()
      modifies this`w
      ensures w == old(w) || w == old(w).(error := true)
    {
      if * { w := w.(error := true); }
    }

    method CreateShader(kind: Kind) returns (s: nat)
      modifies this`w, this`answers
      ensures answers == old(answers) + [s != 0]
      ensures s == 0 ==> w == old(w).(error := true)
      ensures s != 0 ==> old(w).Fresh(s) && w == old(w).(shaders := old(w).shaders[s := Shader(kind, "", false, false)])
    {
      if * {
        FreshName(w);
        s :| w.Fresh(s);
        w := w.(shaders := w.shaders[s := Shader(kind, "", false, false)]);
      } else {
        s := 0;
        w := w.(error := true);
      }
      answers := answers + [s != 0];
    }

    method CreateProgram() returns (p: nat)
      modifies this`w, this`answers
      ensures answers == old(answers) + [p != 0]
      ensures p == 0 ==> w == old(w).(error := true)
      ensures p != 0 ==> old(w).Fresh(p) && w == old(w).(programs := old(w).programs[p := Program({}, false, false)])
    {
      if * {
        FreshName(w);
        p :| w.Fresh(p);
        w := w.(programs := w.programs[p := Program({}, false, false)]);
      } else {
        p := 0;
        w := w.(error := true);
      }
      answers := answers + [p != 0];
    }

    method ShaderSource(s: nat, source: string)
      modifies this`w
      ensures if s in old(w).shaders then
                SameBut(w, old(w).(shaders := old(w).shaders[s := old(w).shaders[s].(source := source)]))
              else w == old(w).(error := true)
    {
      if s in w.shaders {
        w := w.(shaders := w.shaders[s := w.shaders[s].(source := source)]);
        MayFail();
      } else {
        w := w.(error := true);
      }
    }

    method CompileShader(s: nat) returns (ghost compiled: bool)
      modifies this`w, this`answers
      ensures answers == old(answers) + [compiled]
      ensures if s in old(w).shaders then
                SameBut(w, old(w).(shaders := old(w).shaders[s := old(w).shaders[s].(compiled := compiled)]))
              else w == old(w).(error := true)
    {
      var c: bool := *;
      compiled := c;
      answers := answers + [compiled];
      if s in w.shaders {
        w := w.(shaders := w.shaders[s := w.shaders[s].(compiled := c)]);
        MayFail();
      } else {
        w := w.(error := true);
      }
    }

    // GL_COMPILE_STATUS; for a wrong name the variable keeps whatever value it had.
    method GetCompileStatus(s: nat) returns (status: int)
      modifies this`w
      ensures if s in old(w).shaders then w == old(w) && (status != 0 <==> w.shaders[s].compiled)
              else w == old(w).(error := true)
    {
      status := *;
      if s in w.shaders { status := if w.shaders[s].compiled then 1 else 0; } else { w := w.(error := true); }
    }

    method LinkProgram(p: nat) returns (ghost linked: bool)
      modifies this`w, this`answers
      ensures answers == old(answers) + [linked]
      ensures if p in old(w).programs then
                SameBut(w, old(w).(programs := old(w).programs[p := old(w).programs[p].(linked := linked)]))
              else w == old(w).(error := true)
    {
      var l: bool := *;
      linked := l;
      answers := answers + [linked];
      if p in w.programs {
        w := w.(programs := w.programs[p := w.programs[p].(linked := l)]);
        MayFail();
      } else {
        w := w.(error := true);
      }
    }

    // GL_LINK_STATUS, of a live program.
    method GetLinkStatus(p: nat) returns (status: int)
      requires p in w.programs
      ensures status != 0 <==> w.programs[p].linked
    {
      status := if w.programs[p].linked then 1 else 0;
    }

    method AttachShader(p: nat, s: nat)
      modifies this`w
      ensures w == old(w).AttachShader(p, s)
    {
      w := w.AttachShader(p, s);
    }

    method DeleteShader(s: nat)
      modifies this`w
      ensures w == old(w).DeleteShader(s)
    {
      w := w.DeleteShader(s);
    }

    method DeleteProgram(p: nat)
      modifies this`w
      ensures w == old(w).DeleteProgram(p)
    {
      w := w.DeleteProgram(p);
    }

    // Takes one recorded error away; there may be more. Whether any was ever reported is kept.
    method GetError() returns (e: bool)
      modifies this`w, this`sawError
      ensures e == old(w).error && sawError == (old(sawError) || e)
      ensures w == old(w) || w == old(w).(error := false)
    {
      e := w.error;
      sawError := sawError || e;
      if * { w := w.(error := false); }
    }
  }

  // Nothing but recorded errors separates the two.
  ghost predicate SameBut(w: World, w0: World) { w == w0.(error := w.error) && (w0.error ==> w.error) }

  // Either a new live shader that has compiled, or no change to the objects: a shader exactly if one is created and
  // compiles.
  method CompileShader(gl: Context, kind: Kind, source: string)
      returns (shader: nat, ghost created: bool, ghost compiled: bool)
    requires gl.w.Valid()
    modifies gl`w, gl`answers
    ensures gl.answers == old(gl.answers) + [created, compiled]
    ensures shader != 0 <==> created && compiled
    ensures shader == 0 ==> SameBut(gl.w, old(gl.w))
    ensures shader != 0 ==> Added(gl.w, old(gl.w), shader, Shader(kind, source, true, false))
  {
    shader := gl.CreateShader(kind);
    created := shader != 0;
    gl.ShaderSource(shader, source);
    compiled := gl.CompileShader(shader);
    var compileResult := gl.GetCompileStatus(shader);
    if compileResult == 0 {
      CompileFailed(old(gl.w), gl.w, shader, Shader(kind, source, compiled, false));
      gl.DeleteShader(shader);
      shader := 0;
    }
  }

  lemma CompileFailed(w0: World, w: World, s: nat, shader: Shader)
    requires w0.Valid()
    requires if s == 0 then SameBut(w, w0) else Added(w, w0, s, shader)
    ensures SameBut(w.DeleteShader(s), w0)
  {
    if s != 0 {
      assert !w.Attached(s);
      assert w.shaders - {s} == w0.shaders;
    }
  }

  // With an error pending the program is not looked at, and not deleted either.
  method CheckLinkStatusAndReturnProgram(gl: Context, program: nat, outputErrorMessages: bool) returns (r: nat)
    requires !gl.w.error ==> program in gl.w.programs
    modifies gl`w, gl`sawError
    ensures gl.sawError == (old(gl.sawError) || old(gl.w).error)
    ensures old(gl.w).error ==> r == 0 && gl.w == old(gl.w).(error := gl.w.error)
    ensures !old(gl.w).error ==>
              if old(gl.w).programs[program].linked then r == program && gl.w == old(gl.w)
              else r == 0 && gl.w == old(gl.w).DeleteProgram(program)
  {
    var error := gl.GetError();
    if error { return 0; }
    var linkStatus := gl.GetLinkStatus(program);
    if linkStatus == 0 {
      gl.DeleteProgram(program);
      return 0;
    }
    return program;
  }

  // Objects are as they were, or a program is there that one glDeleteProgram takes away again.
  ghost predicate Held(w: World, w0: World, program: nat) {
    && w.current == w0.current
    && if program == 0 then w.SameObjects(w0)
       else !w0.Name(program) && program in w.programs && !w.SameObjects(w0) && w.DeleteProgram(program).SameObjects(w0)
  }

  // The state while the program is put together; a program that could not be created takes no shader.
  ghost predicate Building(w: World, w0: World, p: nat, own: map<nat, Shader>, linked: bool) {
    && (w0.error ==> w.error)
    && if p == 0 then w.SameObjects(w0) && w.current == w0.current && w.error else Built(w0, w, p, own, linked)
  }

  lemma AddedIsValid(w0: World, w: World, s: nat, shader: Shader)
    requires w0.Valid()
    requires if s == 0 then SameBut(w, w0) else Added(w, w0, s, shader)
    ensures w.Valid()
  {}

  // One more shader, not attached.
  ghost predicate Added(w: World, w0: World, s: nat, shader: Shader) {
    w0.Fresh(s) && SameBut(w, w0.(shaders := w0.shaders[s := shader]))
  }

  lemma BothFresh(w0: World, w1: World, w2: World, vs: nat, v: Shader, fs: nat, f: Shader)
    requires Added(w1, w0, vs, v) && Added(w2, w1, fs, f)
    ensures w0.Fresh(vs) && w0.Fresh(fs) && vs != fs
  {}

  lemma EitherFailed(w0: World, w1: World, w: World, vs: nat, v: Shader, fs: nat, f: Shader)
    requires w0.Valid() && w1.Valid() && (vs == 0 || fs == 0)
    requires if vs == 0 then SameBut(w1, w0) else Added(w1, w0, vs, v)
    requires if fs == 0 then SameBut(w, w1) else Added(w, w1, fs, f)
    ensures Held(w.DeleteShader(fs).DeleteShader(vs), w0, 0)
  {
    if vs == 0 { CompileFailed(w1, w, fs, f); } else { CompileFailed(w0, w, vs, v); }
  }

  function FlaggedShader(s: Shader): Shader { s.(flagged := true) }

  lemma ProgramStarted(w0: World, w1: World, w2: World, vs: nat, v: Shader, fs: nat, f: Shader, p: nat, w3: World,
                       w: World)
    requires w0.Valid() && w1.Valid() && w2.Valid() && Added(w1, w0, vs, v) && Added(w2, w1, fs, f)
    requires if p == 0 then w3 == w2.(error := true)
             else w2.Fresh(p) && w3 == w2.(programs := w2.programs[p := Program({}, false, false)])
    requires w == w3.AttachShader(p, vs).DeleteShader(vs).AttachShader(p, fs).DeleteShader(fs)
    ensures Building(w, w0, p, map[vs := FlaggedShader(v), fs := FlaggedShader(f)], false)
  {
    if p == 0 {
      NotAttached(w3, vs);
      var w4 := w3.(shaders := w3.shaders - {vs});
      assert w3.AttachShader(p, vs).DeleteShader(vs) == w4;
      NotAttached(w4, fs);
      assert w == w4.(shaders := w4.shaders - {fs});
      assert w.shaders == w0.shaders;
    } else {
      StartedWith(w0, w2.error, vs, v, fs, f, p, w3, w);
    }
  }

  lemma NotAttached(w: World, s: nat)
    requires forall p :: p in w.programs ==> s !in w.programs[p].attached
    ensures !w.Attached(s)
  {}

  lemma StartedWith(w0: World, error: bool, vs: nat, v: Shader, fs: nat, f: Shader, p: nat, w3: World, w: World)
    requires w0.Valid() && w0.Fresh(vs) && w0.Fresh(fs) && w0.Fresh(p) && vs != fs && vs != p && fs != p
    requires w3 == World(w0.shaders[vs := v][fs := f], w0.programs[p := Program({}, false, false)], w0.current, error)
    requires w == w3.AttachShader(p, vs).DeleteShader(vs).AttachShader(p, fs).DeleteShader(fs)
    ensures Built(w0, w, p, map[vs := FlaggedShader(v), fs := FlaggedShader(f)], false) && w.error == error
  {
    hide World.AttachShader, World.DeleteShader;
    AttachThenDelete(w3, p, vs);
    var w4 := w3.AttachShader(p, vs).DeleteShader(vs);
    assert w4.programs[p].attached == {vs};
    AttachThenDelete(w4, p, fs);
    hide *;
    TwoAdded(w0.shaders, vs, v, fs, f);
    ProgramGrown(w0.programs, p, vs, fs);
    BuiltOfTwo(w0, w, p, vs, v, fs, f);
  }

  lemma TwoAdded(m: map<nat, Shader>, vs: nat, v: Shader, fs: nat, f: Shader)
    requires vs != fs
    ensures m[vs := v][fs := f][vs := FlaggedShader(v)][fs := FlaggedShader(f)]
         == m + map[vs := FlaggedShader(v), fs := FlaggedShader(f)]
  {}

  lemma ProgramGrown(m: map<nat, Program>, p: nat, vs: nat, fs: nat)
    ensures m[p := Program({}, false, false)][p := Program({vs}, false, false)][p := Program({vs} + {fs}, false, false)]
         == m[p := Program({vs, fs}, false, false)]
  {
    assert {vs} + {fs} == {vs, fs};
  }

  lemma BuiltOfTwo(w0: World, w: World, p: nat, vs: nat, v: Shader, fs: nat, f: Shader)
    requires w0.Fresh(vs) && w0.Fresh(fs) && w0.Fresh(p) && vs != fs && vs != p && fs != p
    requires w.shaders == w0.shaders + map[vs := FlaggedShader(v), fs := FlaggedShader(f)]
    requires w.programs == w0.programs[p := Program({vs, fs}, false, false)] && w.current == w0.current
    ensures Built(w0, w, p, map[vs := FlaggedShader(v), fs := FlaggedShader(f)], false)
  {
    assert map[vs := FlaggedShader(v), fs := FlaggedShader(f)].Keys == {vs, fs};
  }

  lemma BuildingIsValid(w: World, w0: World, p: nat, own: map<nat, Shader>, linked: bool)
    requires w0.Valid() && Building(w, w0, p, own, linked)
    ensures w.Valid()
    ensures p != 0 ==> p in w.programs
  {
    if p != 0 {
      BuiltIsValid(w0, w, p, own, linked);
      assert p in w.programs;
    }
  }

  lemma SameIsBuilding(w1: World, w: World, w0: World, p: nat, own: map<nat, Shader>, linked: bool)
    requires Building(w1, w0, p, own, linked) && SameBut(w, w1)
    ensures Building(w, w0, p, own, linked)
  {}

  lemma LinkedIsBuilding(w1: World, w: World, w0: World, p: nat, own: map<nat, Shader>, linked: bool)
    requires Building(w1, w0, p, own, false) && w0.Valid()
    requires if p in w1.programs then SameBut(w, w1.(programs := w1.programs[p := w1.programs[p].(linked := linked)]))
             else w == w1.(error := true)
    ensures Building(w, w0, p, own, linked)
  {
    if p != 0 {
      assert p in w1.programs;
      assert w0.programs[p := Program(own.Keys, false, false)][p := Program(own.Keys, linked, false)]
          == w0.programs[p := Program(own.Keys, linked, false)];
    }
  }

  lemma GiveUp(w: World, w0: World, p: nat, vs: nat, fs: nat, own: map<nat, Shader>)
    requires w0.Valid() && w0.current in w0.programs.Keys + {0} && w0.Fresh(vs) && w0.Fresh(fs)
    requires own.Keys == {vs, fs} && Building(w, w0, p, own, false)
    ensures Held(w.DeleteShader(vs).DeleteShader(fs).DeleteProgram(p), w0, 0)
  {
    if p != 0 {
      BuiltIsValid(w0, w, p, own, false);
      assert vs in own && fs in own;
      assert w.shaders[vs := w.shaders[vs].(flagged := true)] == w.shaders;
      assert w.shaders[fs := w.shaders[fs].(flagged := true)] == w.shaders;
      assert w.DeleteShader(vs).DeleteShader(fs) == w;
      DeleteBuilt(w0, w, p, own, false);
    }
  }

  lemma ShaderAdded(w1: World, w2: World, w0: World, p: nat, own: map<nat, Shader>, s: nat, shader: Shader)
    requires w0.Valid() && w1.Valid() && Building(w1, w0, p, own, false) && Added(w2, w1, s, shader)
    ensures Building(w2.AttachShader(p, s).DeleteShader(s), w0, p, own[s := FlaggedShader(shader)], false)
    ensures p != 0 ==> s !in own
  {
    if p == 0 {
      NotAttached(w2, s);
      assert w2.shaders - {s} == w1.shaders;
    } else {
      NamesKept(w0, w1, p, own, s);
      AttachAndDelete(w0, w1.(error := w2.error), p, own, s, shader);
    }
  }

  lemma NamesKept(w0: World, w: World, p: nat, own: map<nat, Shader>, s: nat)
    requires Built(w0, w, p, own, false) && w.Fresh(s)
    ensures w0.Fresh(s) && s !in own
  {
    assert w.shaders.Keys == w0.shaders.Keys + own.Keys;
  }

  lemma BuildingHeld(w: World, w0: World, p: nat, own: map<nat, Shader>, linked: bool)
    requires w0.Valid() && w0.current in w0.programs.Keys + {0} && Building(w, w0, p, own, linked)
    ensures Held(w, w0, p)
    ensures !w.error ==> p in w.programs && p != 0 && w.programs[p].linked == linked
    ensures p != 0 ==> Built(w0, w, p, own, linked)
  {
    if p != 0 {
      BuiltIsValid(w0, w, p, own, linked);
      DeleteBuilt(w0, w, p, own, linked);
      assert p in w.programs;
    }
  }

  lemma Returned(linked: World, w: World, w0: World, created: nat, program: nat)
    requires Held(linked, w0, created) && w0.current in w0.programs.Keys + {0}
    requires linked.error ==> program == 0 && w == linked.(error := w.error)
    requires !linked.error ==> created in linked.programs && created != 0
    requires !linked.error ==>
      (program == created && w == linked) || (program == 0 && w == linked.DeleteProgram(created))
    ensures Held(w, w0, if linked.error then created else program)
  {
    if linked.error && created != 0 { ErrorApart(linked, w, created); }
  }

  lemma ErrorApart(a: World, b: World, p: nat)
    requires b == a.(error := b.error) && p in a.programs
    ensures b.DeleteProgram(p).SameObjects(a.DeleteProgram(p))
  {
    var x, y := a.(programs := a.programs - {p}), b.(programs := b.programs - {p});
    assert forall s :: x.Attached(s) <==> y.Attached(s);
  }

  // The shaders of a program, compiled from the given sources and flagged for deletion; without a geometry shader if
  // its source is empty.
  ghost predicate CompiledFrom(own: map<nat, Shader>, vsSource: string, gsSource: string, fsSource: string) {
    exists vs, gs, fs :: Are(own, vs, gs, fs, vsSource, gsSource, fsSource)
  }

  ghost predicate Are(own: map<nat, Shader>, vs: nat, gs: nat, fs: nat, vsSource: string, gsSource: string,
                      fsSource: string) {
    && vs != fs && gs != vs && gs != fs
    && var two := map[vs := Shader(Vertex, vsSource, true, true), fs := Shader(Fragment, fsSource, true, true)];
      own == if |gsSource| == 0 then two else two[gs := Shader(Geometry, gsSource, true, true)]
  }

  lemma NothingCompiled(vsSource: string, gsSource: string, fsSource: string)
    ensures !CompiledFrom(map[], vsSource, gsSource, fsSource)
  {
    forall vs, gs, fs ensures !Are(map[], vs, gs, fs, vsSource, gsSource, fsSource) {
      var two := map[vs := Shader(Vertex, vsSource, true, true), fs := Shader(Fragment, fsSource, true, true)];
      assert fs in two && fs in two[gs := Shader(Geometry, gsSource, true, true)];
    }
  }

  // Whether the objects are as they were.
  lemma HeldMeans(w: World, w0: World, program: nat)
    requires Held(w, w0, program)
    ensures w.SameObjects(w0) <==> program == 0
  {}

  lemma SourcesAre(own: map<nat, Shader>, vsSource: string, gsSource: string, fsSource: string, vs: nat, gs: nat,
                   fs: nat, v: Shader, f: Shader)
    requires vs != fs && gs != vs && gs != fs
    requires v == Shader(Vertex, vsSource, true, false) && f == Shader(Fragment, fsSource, true, false)
    requires var two := map[vs := FlaggedShader(v), fs := FlaggedShader(f)];
             own == if |gsSource| == 0 then two else two[gs := FlaggedShader(Shader(Geometry, gsSource, true, false))]
    ensures CompiledFrom(own, vsSource, gsSource, fsSource)
  {
    assert Are(own, vs, gs, fs, vsSource, gsSource, fsSource);
  }

  method CompileProgramInternal(gl: Context, vsSource: string, gsSource: string, fsSource: string,
                                preLinkCallback: bool)
      returns (program: nat, ghost created: nat, ghost own: map<nat, Shader>, ghost given: seq<bool>,
               ghost pending: bool)
    requires gl.w.Valid() && gl.w.current in gl.w.programs.Keys + {0}
    modifies gl
    ensures gl.answers == old(gl.answers) + given && AskedFor(|gsSource| > 0, given)
    ensures gl.called == old(gl.called) +
      if preLinkCallback && Linked(|gsSource| > 0, given) then [(created, |gl.answers| - 1)] else []
    ensures gl.sawError == (old(gl.sawError) || pending)
    ensures program != 0 <==> AllGranted(|gsSource| > 0, given) && !pending
    ensures !gl.sawError ==> Held(gl.w, old(gl.w), program)
    ensures gl.sawError && !old(gl.sawError) ==> program == 0 && Held(gl.w, old(gl.w), created)
    ensures !old(gl.sawError) ==>
              (program == 0 && !gl.w.SameObjects(old(gl.w)) <==> gl.sawError && created != 0)
    ensures old(gl.w).error && created != 0 && CompiledFrom(own, vsSource, gsSource, fsSource) ==>
              program == 0 && !gl.w.SameObjects(old(gl.w))
    ensures old(gl.w).error ==> program == 0
    ensures program != 0 ==>
              Built(old(gl.w), gl.w, program, own, true) && CompiledFrom(own, vsSource, gsSource, fsSource)
  {
    hide Built, Held, Building, Added, CompiledFrom, FlaggedShader, World.AttachShader, World.DeleteShader;
    hide World.DeleteProgram, World.Fresh, World.Valid, World.SameObjects, AskedFor, AllGranted, Linked;
    ghost var w0, w1 := gl.w, gl.w;
    created, own, pending := 0, map[], false;
    NothingCompiled(vsSource, gsSource, fsSource);
    var vs, fs;
    vs, fs, w1, given := CompileBoth(gl, vsSource, fsSource);
    if vs == 0 || fs == 0 {
      AskedForFour(|gsSource| > 0, given);
      HeldMeans(gl.w, w0, 0);
      return 0, created, map[], given, pending;
    }
    program, own := StartProgram(gl, vs, fs, vsSource, fsSource, w0, w1);
    created, given := program, given + [program != 0];
    var gs := 0;
    if |gsSource| > 0 {
      ghost var more, c, d;
      gs, more, c, d := AddGeometryShader(gl, program, vs, fs, gsSource, w0, own);
      given := given + [c, d];
      if gs == 0 {
        AskedForSeven(given);
        HeldMeans(gl.w, w0, 0);
        return 0, created, map[], given, pending;
      }
      own := more;
    }
    if program != 0 {
      SourcesAre(own, vsSource, gsSource, fsSource, vs, gs, fs, Shader(Vertex, vsSource, true, false),
                 Shader(Fragment, fsSource, true, false));
    }
    ghost var linked;
    program, linked, pending := LinkAndReturn(gl, program, preLinkCallback, w0, own);
    AskedForAll(|gsSource| > 0, given, linked);
    given := given + [linked];
  }

  // What was asked for, with a geometry shader or without: the vertex and fragment shaders, each created and compiled;
  // after them, if both succeeded, the program and the geometry shader; and last, unless that one failed, the linking.
  ghost predicate AskedFor(withGeometry: bool, given: seq<bool>) {
    && |given| >= 4
    && if !(given[0] && given[1] && given[2] && given[3]) then |given| == 4
       else if !withGeometry then |given| == 6
       else |given| >= 7 && |given| == if given[5] && given[6] then 8 else 7
  }

  ghost predicate AllGranted(withGeometry: bool, given: seq<bool>) {
    |given| == (if withGeometry then 8 else 6) && forall i :: 0 <= i < |given| ==> given[i]
  }

  // The program was linked, or so it was asked for, as the last.
  ghost predicate Linked(withGeometry: bool, given: seq<bool>) { |given| == if withGeometry then 8 else 6 }

  lemma AskedForFour(withGeometry: bool, given: seq<bool>)
    requires |given| == 4 && !(given[0] && given[1] && given[2] && given[3])
    ensures AskedFor(withGeometry, given) && !AllGranted(withGeometry, given) && !Linked(withGeometry, given)
  {}

  lemma AskedForSeven(given: seq<bool>)
    requires |given| == 7 && given[0] && given[1] && given[2] && given[3] && !(given[5] && given[6])
    ensures AskedFor(true, given) && !AllGranted(true, given) && !Linked(true, given)
  {}

  lemma AskedForAll(withGeometry: bool, given: seq<bool>, linked: bool)
    requires |given| == (if withGeometry then 7 else 5) && given[0] && given[1] && given[2] && given[3]
    requires withGeometry ==> given[5] && given[6]
    ensures AskedFor(withGeometry, given + [linked]) && Linked(withGeometry, given + [linked])
    ensures AllGranted(withGeometry, given + [linked]) <==> given[4] && linked
  {
    var all := given + [linked];
    assert all[|given|] == linked && all[4] == given[4];
  }

  // Both shaders, or neither.
  method CompileBoth(gl: Context, vsSource: string, fsSource: string)
      returns (vs: nat, fs: nat, ghost w1: World, ghost given: seq<bool>)
    requires gl.w.Valid()
    modifies gl`w, gl`answers
    ensures gl.answers == old(gl.answers) + given && |given| == 4
    ensures vs != 0 && fs != 0 <==> given[0] && given[1] && given[2] && given[3]
    ensures vs == 0 || fs == 0 ==> Held(gl.w, old(gl.w), 0)
    ensures vs != 0 && fs != 0 ==> Added(w1, old(gl.w), vs, Shader(Vertex, vsSource, true, false))
    ensures vs != 0 && fs != 0 ==> Added(gl.w, w1, fs, Shader(Fragment, fsSource, true, false))
  {
    hide Held, Added, World.DeleteShader, World.Valid, World.Fresh;
    ghost var w0, c0, c1, c2, c3 := gl.w, false, false, false, false;
    ghost var v, f := Shader(Vertex, vsSource, true, false), Shader(Fragment, fsSource, true, false);
    vs, c0, c1 := CompileShader(gl, Vertex, vsSource);
    AddedIsValid(w0, gl.w, vs, v);
    w1 := gl.w;
    fs, c2, c3 := CompileShader(gl, Fragment, fsSource);
    given := [c0, c1] + [c2, c3];
    if vs == 0 || fs == 0 {
      EitherFailed(w0, w1, gl.w, vs, v, fs, f);
      gl.DeleteShader(fs);
      gl.DeleteShader(vs);
    }
  }

  // The program with both shaders attached and given up; and if it could not be created, they go at once.
  method StartProgram(gl: Context, vs: nat, fs: nat, vsSource: string, fsSource: string, ghost w0: World,
                      ghost w1: World)
      returns (program: nat, ghost own: map<nat, Shader>)
    requires w0.Valid() && vs != 0 && fs != 0
    requires Added(w1, w0, vs, Shader(Vertex, vsSource, true, false))
    requires Added(gl.w, w1, fs, Shader(Fragment, fsSource, true, false))
    modifies gl`w, gl`answers
    ensures gl.answers == old(gl.answers) + [program != 0]
    ensures vs != fs && w0.Fresh(vs) && w0.Fresh(fs)
    ensures own == map[vs := FlaggedShader(Shader(Vertex, vsSource, true, false)),
                       fs := FlaggedShader(Shader(Fragment, fsSource, true, false))]
    ensures gl.w.Valid() && Building(gl.w, w0, program, own, false)
  {
    hide Building, Added, FlaggedShader, World.AttachShader, World.DeleteShader, World.Valid, World.Fresh;
    ghost var v, f := Shader(Vertex, vsSource, true, false), Shader(Fragment, fsSource, true, false);
    ghost var w2 := gl.w;
    AddedIsValid(w0, w1, vs, v);
    AddedIsValid(w1, w2, fs, f);
    BothFresh(w0, w1, w2, vs, v, fs, f);
    program := gl.CreateProgram();
    ghost var begun := gl.w;
    gl.AttachShader(program, vs);
    gl.DeleteShader(vs);
    gl.AttachShader(program, fs);
    gl.DeleteShader(fs);
    own := map[vs := FlaggedShader(v), fs := FlaggedShader(f)];
    ProgramStarted(w0, w1, w2, vs, v, fs, f, program, begun, gl.w);
    BuildingIsValid(gl.w, w0, program, own, false);
  }

  // The part for a geometry shader, which gives everything back if there is none.
  method AddGeometryShader(gl: Context, program: nat, vs: nat, fs: nat, gsSource: string, ghost w0: World,
                           ghost own: map<nat, Shader>)
      returns (gs: nat, ghost more: map<nat, Shader>, ghost created: bool, ghost compiled: bool)
    requires w0.Valid() && w0.current in w0.programs.Keys + {0} && w0.Fresh(vs) && w0.Fresh(fs)
    requires own.Keys == {vs, fs} && gl.w.Valid() && Building(gl.w, w0, program, own, false)
    modifies gl`w, gl`answers
    ensures gl.answers == old(gl.answers) + [created, compiled] && (gs != 0 <==> created && compiled)
    ensures gs == 0 ==> Held(gl.w, w0, 0)
    ensures gs != 0 ==> Building(gl.w, w0, program, more, false)
    ensures gs != 0 ==> more == own[gs := FlaggedShader(Shader(Geometry, gsSource, true, false))]
    ensures gs != 0 && program != 0 ==> gs !in own
  {
    hide Built, Held, Building, Added, FlaggedShader, World.AttachShader, World.DeleteShader, World.DeleteProgram;
    hide World.Fresh, World.Valid;
    ghost var before, g := gl.w, Shader(Geometry, gsSource, true, false);
    more := own;
    gs, created, compiled := CompileShader(gl, Geometry, gsSource);
    if gs == 0 {
      SameIsBuilding(before, gl.w, w0, program, own, false);
      GiveUp(gl.w, w0, program, vs, fs, own);
      gl.DeleteShader(vs);
      gl.DeleteShader(fs);
      gl.DeleteProgram(program);
      return;
    }
    ghost var added := gl.w;
    gl.AttachShader(program, gs);
    gl.DeleteShader(gs);
    ShaderAdded(before, added, w0, program, own, gs, g);
    more := own[gs := FlaggedShader(g)];
  }

  // The last part: the callback, linking, and the check.
  method LinkAndReturn(gl: Context, program: nat, preLinkCallback: bool, ghost w0: World, ghost own: map<nat, Shader>)
      returns (r: nat, ghost linked: bool, ghost pending: bool)
    requires w0.Valid() && w0.current in w0.programs.Keys + {0} && Building(gl.w, w0, program, own, false)
    modifies gl
    ensures gl.answers == old(gl.answers) + [linked] && gl.sawError == (old(gl.sawError) || pending)
    ensures gl.called == old(gl.called) + if preLinkCallback then [(program, |old(gl.answers)|)] else []
    ensures r != 0 <==> program != 0 && linked && !pending
    ensures !gl.sawError ==> Held(gl.w, w0, r)
    ensures gl.sawError && !old(gl.sawError) ==> r == 0 && Held(gl.w, w0, program)
    ensures !old(gl.sawError) ==> (r == 0 && !gl.w.SameObjects(w0) <==> gl.sawError && program != 0)
    ensures w0.error ==> r == 0 && (program != 0 ==> !gl.w.SameObjects(w0))
    ensures r != 0 ==> r == program && Built(w0, gl.w, r, own, true)
  {
    hide Built, Held, World.DeleteProgram, World.Fresh, World.Valid, World.SameObjects;
    ghost var built := gl.w;
    if preLinkCallback { gl.PreLinkCallback(program); }
    SameIsBuilding(built, gl.w, w0, program, own, false);
    built := gl.w;
    linked := gl.LinkProgram(program);
    LinkedIsBuilding(built, gl.w, w0, program, own, linked);
    BuildingHeld(gl.w, w0, program, own, linked);
    ghost var end := gl.w;
    pending := end.error;
    r := CheckLinkStatusAndReturnProgram(gl, program, true);
    Returned(end, gl.w, w0, program, r);
    HeldMeans(gl.w, w0, if end.error then program else r);
  }
}
