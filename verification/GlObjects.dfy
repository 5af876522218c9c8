/** The objects of a GL context that shader_utils.cpp creates and deletes, under the rules of sections 2.10.1 and 2.10.3
    of the OpenGL ES 2.0 specification: a deleted shader stays while a program has it attached, and a deleted program
    stays while it is in use. */
module GlObjects {
  datatype Kind = Vertex | Geometry | Fragment

  datatype Shader = Shader(kind: Kind, source: string, compiled: bool, flagged: bool)

  datatype Program = Program(attached: set<nat>, linked: bool, flagged: bool)

  // The live shaders and programs, each with its deletion flag; the program in use, and whether any error is recorded.
  datatype World = World(shaders: map<nat, Shader>, programs: map<nat, Program>, current: nat, error: bool)
  {
    ghost predicate Valid() {
      && 0 !in shaders && 0 !in programs && shaders.Keys !! programs.Keys
      && (forall p :: p in programs ==> programs[p].attached <= shaders.Keys)
    }

    ghost predicate SameObjects(w: World) { shaders == w.shaders && programs == w.programs }

    predicate Attached(s: nat) { exists p :: p in programs && s in programs[p].attached }

    predicate Name(n: nat) { n in shaders || n in programs }

    // What glCreateShader and glCreateProgram may return.
    predicate Fresh(n: nat) { n != 0 && !Name(n) }

    // A name in use does not count again, and zero is ignored without an error.
    function DeleteShader(s: nat): World {
      if s == 0 then this
      else if s !in shaders then this.(error := true)
      else if Attached(s) then this.(shaders := shaders[s := shaders[s].(flagged := true)])
      else this.(shaders := shaders - {s})
    }

    function AttachShader(p: nat, s: nat): World {
      if p !in programs || s !in shaders || s in programs[p].attached then this.(error := true)
      else this.(programs := programs[p := programs[p].(attached := programs[p].attached + {s})])
    }

    // The program goes, and with it the flagged shaders that no other program has attached.
    function RemoveProgram(p: nat): World
      requires p in programs
    {
      var rest := this.(programs := programs - {p});
      var gone := set s | s in programs[p].attached && s in shaders && shaders[s].flagged && !rest.Attached(s);
      rest.(shaders := shaders - gone)
    }

    function DeleteProgram(p: nat): World {
      if p == 0 then this
      else if p !in programs then this.(error := true)
      else if p == current then this.(programs := programs[p := programs[p].(flagged := true)])
      else RemoveProgram(p)
    }

    // Only a linked program can be used, and a flagged one goes when it stops being in use.
    function UseProgram(p: nat): World {
      if p != 0 && (p !in programs || !programs[p].linked) then this.(error := true)
      else if current != p && current in programs && programs[current].flagged
        then RemoveProgram(current).(current := p)
      else this.(current := p)
    }
  }

  // w is w0 with one more program, whose shaders own are new and all flagged for deletion.
  ghost predicate Built(w0: World, w: World, p: nat, own: map<nat, Shader>, linked: bool) {
    && p != 0 && !w0.Name(p) && p !in own
    && 0 !in own && (forall s :: s in own ==> !w0.Name(s) && own[s].flagged)
    && w.shaders == w0.shaders + own
    && w.programs == w0.programs[p := Program(own.Keys, linked, false)]
    && w.current == w0.current
  }

  lemma BuiltIsValid(w0: World, w: World, p: nat, own: map<nat, Shader>, linked: bool)
    requires w0.Valid() && Built(w0, w, p, own, linked)
    ensures w.Valid() && !w.SameObjects(w0)
    ensures forall s :: s in own ==> w.Attached(s) && s in w.shaders && w.shaders[s].flagged
  {
    assert w.shaders.Keys == w0.shaders.Keys + own.Keys;
    assert p in w.programs && p !in w0.programs;
    assert w.programs[p].attached == own.Keys;
  }

  // Removing the program takes exactly its own shaders with it.
  lemma RemoveBuilt(w0: World, w: World, p: nat, own: map<nat, Shader>, linked: bool)
    requires w0.Valid() && Built(w0, w, p, own, linked)
    ensures w.RemoveProgram(p).SameObjects(w0)
  {
    var rest := w.(programs := w.programs - {p});
    assert rest.programs == w0.programs;
    forall s | s in own ensures !rest.Attached(s) {
      assert !w0.Name(s);
    }
    var gone := set s | s in w.programs[p].attached && s in w.shaders && w.shaders[s].flagged && !rest.Attached(s);
    assert gone == own.Keys;
    assert w.shaders - gone == w0.shaders;
  }

  lemma DeleteBuilt(w0: World, w: World, p: nat, own: map<nat, Shader>, linked: bool)
    requires w0.Valid() && w0.current != p && Built(w0, w, p, own, linked)
    ensures w.DeleteProgram(p).SameObjects(w0)
  {
    RemoveBuilt(w0, w, p, own, linked);
  }

  // A linked program deleted while in use lives, unchanged but for its flag, until another takes its place.
  lemma DeleteInUse(w0: World, w: World, p: nat, own: map<nat, Shader>, next: nat)
    requires w0.Valid() && Built(w0, w, p, own, true)
    requires w0.current in w0.programs ==> !w0.programs[w0.current].flagged
    requires next == 0 || (next in w0.programs && w0.programs[next].linked)
    ensures var used := w.UseProgram(p).DeleteProgram(p);
            && used.shaders == w.shaders
            && used.programs == w.programs[p := Program(own.Keys, true, true)]
            && used.UseProgram(next).SameObjects(w0)
  {
    var used := w.UseProgram(p).DeleteProgram(p);
    UsedAndDeleted(w0, w, p, own);
    assert p != next && (next != 0 ==> used.programs[next] == w0.programs[next]);
    RemoveBuilt(w0, w, p, own, true);
    RemoveApart(used, w, p);
    hide Built, World.RemoveProgram, World.DeleteProgram, World.Valid;
  }

  lemma UsedAndDeleted(w0: World, w: World, p: nat, own: map<nat, Shader>)
    requires w0.Valid() && Built(w0, w, p, own, true)
    requires w0.current in w0.programs ==> !w0.programs[w0.current].flagged
    ensures w.UseProgram(p).DeleteProgram(p)
         == w.(programs := w.programs[p := Program(own.Keys, true, true)], current := p)
  {}

  // What removing a program leaves depends neither on its own flag nor on what is in use.
  lemma RemoveApart(a: World, b: World, p: nat)
    requires p in a.programs && p in b.programs && a.programs[p].attached == b.programs[p].attached
    requires a.shaders == b.shaders && a.programs - {p} == b.programs - {p}
    ensures a.RemoveProgram(p).SameObjects(b.RemoveProgram(p))
  {
    var x, y := a.(programs := a.programs - {p}), b.(programs := b.programs - {p});
    assert forall s :: x.Attached(s) <==> y.Attached(s);
  }

  // ---- Growing a program ----

  // Deleting a shader just attached only flags it.
  lemma AttachThenDelete(w: World, p: nat, s: nat)
    requires p in w.programs && s in w.shaders && s != 0 && s !in w.programs[p].attached
    ensures w.AttachShader(p, s).DeleteShader(s)
         == w.(programs := w.programs[p := w.programs[p].(attached := w.programs[p].attached + {s})],
               shaders := w.shaders[s := w.shaders[s].(flagged := true)])
  {
    var w1 := w.AttachShader(p, s);
    assert w1.Attached(s) by { assert s in w1.programs[p].attached; }
  }

  // So a new shader attached and then deleted is one more of the program's.
  lemma AttachAndDelete(w0: World, w: World, p: nat, own: map<nat, Shader>, s: nat, shader: Shader)
    requires w0.Valid() && Built(w0, w, p, own, false)
    requires s != 0 && !w.Name(s) && !w0.Name(s) && s !in own
    ensures var w1 := w.(shaders := w.shaders[s := shader]).AttachShader(p, s).DeleteShader(s);
            Built(w0, w1, p, own[s := shader.(flagged := true)], false) && w1.error == w.error
  {
    AttachThenDelete(w.(shaders := w.shaders[s := shader]), p, s);
    OneMore(w0.shaders, own, s, shader, shader.(flagged := true));
    assert own[s := shader.(flagged := true)].Keys == own.Keys + {s};
    assert w0.programs[p := Program(own.Keys, false, false)][p := Program(own.Keys + {s}, false, false)]
        == w0.programs[p := Program(own.Keys + {s}, false, false)];
  }

  lemma OneMore(m: map<nat, Shader>, own: map<nat, Shader>, s: nat, x: Shader, y: Shader)
    ensures (m + own)[s := x][s := y] == m + own[s := y]
  {}

  lemma {:induction false} Bounded(s: set<nat>) returns (n: nat)
    ensures forall x :: x in s ==> x < n
    decreases |s|
  {
    if s == {} {
      n := 0;
    } else {
      var x :| x in s;
      var m := Bounded(s - {x});
      assert forall y :: y in s <==> y == x || y in s - {x};
      n := if m > x then m else x + 1;
    }
  }

  lemma FreshName(w: World)
    ensures exists n: nat :: w.Fresh(n)
  {
    var n := Bounded(w.shaders.Keys + w.programs.Keys);
    assert w.Fresh(n + 1);
  }
}
