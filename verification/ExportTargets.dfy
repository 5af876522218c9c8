/** export_targets.py: flattening the gn target graph into libraries and their library dependencies. */
module ExportTargets {
  import opened Sorting
  import opened Text
  import opened Traversal

  // An entry of gn's JSON: a list of strings, or a value the script never merges.
  datatype Attr = List(items: seq<string>) | Scalar(text: string)

  type Desc = map<string, Attr>

  predicate IsLibraryType(t: Attr) { t in {Scalar("shared_library"), Scalar("static_library")} }

  predicate IsExpectedType(t: Attr) {
    IsLibraryType(t) || t in {Scalar("source_set"), Scalar("group"), Scalar("action")}
  }

  // descs[k]['type'] and descs[k]['deps'] exist, and the latter is a list.
  predicate HasDeps(descs: map<string, Desc>, k: string) {
    k in descs && "type" in descs[k] && "deps" in descs[k] && descs[k]["deps"].List?
  }

  function Deps(descs: map<string, Desc>, k: string): seq<string> {
    if HasDeps(descs, k) then descs[k]["deps"].items else []
  }

  predicate IsLibrary(descs: map<string, Desc>, k: string) {
    k in descs && "type" in descs[k] && IsLibraryType(descs[k]["type"])
  }

  // ---- flattened_target ----

  // flattened.get(a, [])
  function ListAt(d: Desc, a: string): seq<string> {
    if a in d && d[a].List? then d[a].items else []
  }

  predicate HasList(d: Desc, a: string) { a in d && d[a].List? }

  // list + str raises
  predicate MergeRaises(flattened: Desc, dep: Desc) {
    exists a :: a in dep && dep[a].List? && a in flattened && flattened[a].Scalar?
  }

  // The loop over dep.items().
  function MergeLists(flattened: Desc, dep: Desc): Desc {
    flattened + map a | a in dep && dep[a].List? :: List(SortedSet(ListAt(flattened, a) + dep[a].items))
  }

  // The callback pre(k) of flattened_target.
  function FlattenStep(descs: map<string, Desc>, stopAtLib: bool, flattened: Desc, k: string): Outcome<Desc> {
    if !HasDeps(descs, k) then Raise
    else
      var dep := descs[k];
      if stopAtLib && IsLibraryType(dep["type"]) then Return(flattened, [])
      else if dep["type"] == Scalar("copy") then
        if dep["deps"].items != [] then Raise else Return(flattened, [])
      else if !IsExpectedType(dep["type"]) || MergeRaises(flattened, dep) then Raise
      else Return(MergeLists(flattened, dep), dep["deps"].items)
  }

  // What the callback makes of each type where lists and scalars do not clash: a library stops the walk if it is to
  // stop there, a copy stops it and may have no deps, libraries otherwise and three more types go on, and no other type
  // is allowed.
  lemma CallbackByType(descs: map<string, Desc>, stopAtLib: bool, flattened: Desc, k: string, t: string)
    requires HasDeps(descs, k) && descs[k]["type"] == Scalar(t) && !MergeRaises(flattened, descs[k])
    ensures var r, deps := FlattenStep(descs, stopAtLib, flattened, k), descs[k]["deps"].items;
      if t == "shared_library" || t == "static_library" then
        r == if stopAtLib then Return(flattened, []) else Return(MergeLists(flattened, descs[k]), deps)
      else if t == "copy" then
        r == if deps == [] then Return(flattened, []) else Raise
      else if t == "source_set" || t == "group" || t == "action" then r == Return(MergeLists(flattened, descs[k]), deps)
      else r == Raise
  {
    hide MergeLists, MergeRaises;
    var copy := "copy";
    assert copy[0] == 'c';
  }

  function FlattenSucc(descs: map<string, Desc>, stopAtLib: bool, k: string): seq<string> {
    if stopAtLib && IsLibrary(descs, k) then [] else Deps(descs, k)
  }

  function FlattenWalk(descs: map<string, Desc>, stopAtLib: bool, base: Desc): Walk<Desc> {
    Walk((s, k) => FlattenStep(descs, stopAtLib, s, k), (s, k) => s, base, k => FlattenSucc(descs, stopAtLib, k))
  }

  // The targets whose lists are merged.
  predicate Contributes(descs: map<string, Desc>, stopAtLib: bool, k: string) {
    HasDeps(descs, k) && !(stopAtLib && IsLibrary(descs, k)) && descs[k]["type"] != Scalar("copy")
  }

  // The callback raises on k whatever has been merged before: a property of the graph and the base alone.
  ghost predicate Malformed(descs: map<string, Desc>, stopAtLib: bool, base: Desc, k: string) {
    || !HasDeps(descs, k)
    || (descs[k]["type"] == Scalar("copy") && descs[k]["deps"].items != [])
    || (Contributes(descs, stopAtLib, k) && (!IsExpectedType(descs[k]["type"]) || MergeRaises(base, descs[k])))
  }

  // Some contributing target of ks lists x under attribute a; some has a list there at all.
  ghost predicate Provides(descs: map<string, Desc>, stopAtLib: bool, ks: iset<string>, a: string, x: string) {
    exists k :: k in ks && Contributes(descs, stopAtLib, k) && x in ListAt(descs[k], a)
  }

  ghost predicate ProvidesList(descs: map<string, Desc>, stopAtLib: bool, ks: iset<string>, a: string) {
    exists k :: k in ks && Contributes(descs, stopAtLib, k) && HasList(descs[k], a)
  }

  // Attribute a of d is the attribute of base, or the union with the lists of the contributing targets of ks.
  ghost predicate IsUnionAt(descs: map<string, Desc>, stopAtLib: bool, base: Desc, ks: iset<string>, d: Desc,
                            a: string) {
    if ProvidesList(descs, stopAtLib, ks, a) then
      && HasList(d, a) && NoDuplicates(d[a].items) && SortedBy(LexLower, d[a].items)
      && !(a in base && base[a].Scalar?)
      && forall x :: x in d[a].items <==> x in ListAt(base, a) || Provides(descs, stopAtLib, ks, a, x)
    else (a in d <==> a in base) && (a in d ==> d[a] == base[a])
  }

  ghost predicate IsUnion(descs: map<string, Desc>, stopAtLib: bool, base: Desc, ks: iset<string>, d: Desc) {
    forall a :: IsUnionAt(descs, stopAtLib, base, ks, d, a)
  }

  ghost function Visited(log: seq<Event>): iset<string> { iset k | Pre(k) in log }

  lemma MergedLists(flattened: Desc, dep: Desc, a: string)
    ensures var m := MergeLists(flattened, dep);
      if HasList(dep, a) then
        && HasList(m, a) && NoDuplicates(m[a].items) && SortedBy(LexLower, m[a].items)
        && forall x :: x in m[a].items <==> x in ListAt(flattened, a) || x in dep[a].items
      else (a in m <==> a in flattened) && (a in m ==> m[a] == flattened[a])
  {
    if HasList(dep, a) {
      SortedSetCorrect(ListAt(flattened, a) + dep[a].items);
    }
  }

  lemma ProvidesMore(descs: map<string, Desc>, stopAtLib: bool, ks: iset<string>, k: string, a: string)
    ensures ProvidesList(descs, stopAtLib, ks + iset{k}, a) <==>
      ProvidesList(descs, stopAtLib, ks, a) || (Contributes(descs, stopAtLib, k) && HasList(descs[k], a))
    ensures forall x :: Provides(descs, stopAtLib, ks + iset{k}, a, x) <==>
      Provides(descs, stopAtLib, ks, a, x) || (Contributes(descs, stopAtLib, k) && x in ListAt(descs[k], a))
  {
    hide HasList, ListAt;
    var more := ks + iset{k};
    if Contributes(descs, stopAtLib, k) { assert k in more; }
    forall x ensures Provides(descs, stopAtLib, more, a, x) <==>
      Provides(descs, stopAtLib, ks, a, x) || (Contributes(descs, stopAtLib, k) && x in ListAt(descs[k], a))
    {
      if Provides(descs, stopAtLib, ks, a, x) {
        var j :| j in ks && Contributes(descs, stopAtLib, j) && x in ListAt(descs[j], a);
        assert j in more;
      }
    }
    if ProvidesList(descs, stopAtLib, ks, a) {
      var j :| j in ks && Contributes(descs, stopAtLib, j) && HasList(descs[j], a);
      assert j in more;
    }
  }

  lemma ProvidesItemOfList(descs: map<string, Desc>, stopAtLib: bool, ks: iset<string>, a: string)
    ensures forall x :: Provides(descs, stopAtLib, ks, a, x) ==> ProvidesList(descs, stopAtLib, ks, a)
  {}

  lemma UnionStepAt(descs: map<string, Desc>, stopAtLib: bool, base: Desc, ks: iset<string>, t: Desc, k: string,
                    a: string)
    requires IsUnionAt(descs, stopAtLib, base, ks, t, a)
    requires FlattenStep(descs, stopAtLib, t, k).Return?
    ensures IsUnionAt(descs, stopAtLib, base, ks + iset{k}, FlattenStep(descs, stopAtLib, t, k).state, a)
  {
    hide MergeLists, ProvidesList, Provides, SortedBy, NoDuplicates;
    ProvidesMore(descs, stopAtLib, ks, k, a);
    ProvidesItemOfList(descs, stopAtLib, ks, a);
    if Contributes(descs, stopAtLib, k) {
      MergedLists(t, descs[k], a);
    }
  }

  lemma UnionStep(descs: map<string, Desc>, stopAtLib: bool, base: Desc, ks: iset<string>, t: Desc, k: string)
    requires IsUnion(descs, stopAtLib, base, ks, t)
    requires FlattenStep(descs, stopAtLib, t, k).Return?
    ensures IsUnion(descs, stopAtLib, base, ks + iset{k}, FlattenStep(descs, stopAtLib, t, k).state)
  {
    hide IsUnionAt, FlattenStep;
    forall a ensures IsUnionAt(descs, stopAtLib, base, ks + iset{k}, FlattenStep(descs, stopAtLib, t, k).state, a) {
      UnionStepAt(descs, stopAtLib, base, ks, t, k, a);
    }
  }

  // Whether the callback raises depends on the graph alone.
  lemma RaisesIffMalformed(descs: map<string, Desc>, stopAtLib: bool, base: Desc, ks: iset<string>, t: Desc, k: string)
    requires IsUnion(descs, stopAtLib, base, ks, t)
    ensures FlattenStep(descs, stopAtLib, t, k).Raise? <==> Malformed(descs, stopAtLib, base, k)
  {
    if Contributes(descs, stopAtLib, k) {
      forall a ensures (a in t && t[a].Scalar?) <==> (a in base && base[a].Scalar?) {
        assert IsUnionAt(descs, stopAtLib, base, ks, t, a);
      }
      assert MergeRaises(t, descs[k]) <==> MergeRaises(base, descs[k]);
    }
  }

  ghost predicate NoneMalformed(descs: map<string, Desc>, stopAtLib: bool, base: Desc, ks: iset<string>) {
    forall k :: k in ks ==> !Malformed(descs, stopAtLib, base, k)
  }

  // The captured state after any run of callbacks that returned, whatever their order.
  lemma {:induction false} ReplayIsUnion(descs: map<string, Desc>, stopAtLib: bool, base: Desc, log: seq<Event>)
    requires var w := FlattenWalk(descs, stopAtLib, base); AllReturned(w.pre, w.post, base, log)
    ensures var w := FlattenWalk(descs, stopAtLib, base);
            IsUnion(descs, stopAtLib, base, Visited(log), Replay(w.pre, w.post, base, log))
    ensures NoneMalformed(descs, stopAtLib, base, Visited(log))
  {
    hide IsUnion, FlattenStep, Malformed;
    var w := FlattenWalk(descs, stopAtLib, base);
    if log == [] {
      NothingMerged(descs, stopAtLib, base);
      assert Visited(log) == iset{};
    } else {
      ReplayLast(w.pre, w.post, base, log);
      var l, e := log[..|log| - 1], log[|log| - 1];
      assert log == l + [e];
      ReplayIsUnion(descs, stopAtLib, base, l);
      var t := Replay(w.pre, w.post, base, l);
      if e.Pre? {
        UnionStep(descs, stopAtLib, base, Visited(l), t, e.key);
        RaisesIffMalformed(descs, stopAtLib, base, Visited(l), t, e.key);
        assert Visited(log) == Visited(l) + iset{e.key};
      } else {
        assert Visited(log) == Visited(l);
      }
    }
  }

  lemma NothingMerged(descs: map<string, Desc>, stopAtLib: bool, base: Desc)
    ensures IsUnion(descs, stopAtLib, base, iset{}, base)
  {}

  // descs[k]['deps'] is a list.
  predicate HasDepList(descs: map<string, Desc>, k: string) {
    k in descs && "deps" in descs[k] && descs[k]["deps"].List?
  }

  ghost function ReachedFrom(descs: map<string, Desc>, stopAtLib: bool, roots: seq<string>): iset<string> {
    iset k | Reachable(FlattenWalk(descs, stopAtLib, map[]).succ, roots, k)
  }

  ghost predicate FlattenRaises(descs: map<string, Desc>, stopAtLib: bool, target: string) {
    || !HasDepList(descs, target)
    || exists k :: k in ReachedFrom(descs, stopAtLib, descs[target]["deps"].items)
        && Malformed(descs, stopAtLib, descs[target], k)
  }

  method FlattenedTarget(target: string, descs: map<string, Desc>, stopAtLib: bool) returns (r: Option<Desc>)
    ensures r.None? <==> FlattenRaises(descs, stopAtLib, target)
    ensures r.Some? ==> HasDepList(descs, target)
    ensures r.Some? ==>
      IsUnion(descs, stopAtLib, descs[target], ReachedFrom(descs, stopAtLib, descs[target]["deps"].items), r.value)
  {
    hide IsUnion, FlattenStep, Malformed, Consistent, AllReturned, Replay, Reachable, PostOrder;
    if !HasDepList(descs, target) {
      return None;
    }
    var base := descs[target];
    var w := FlattenWalk(descs, stopAtLib, base);
    SuccessorsAreFixed(descs, stopAtLib, base);
    var t := new DagTraverse<Desc>(w, descs.Keys);
    var ok, bad := t.Traverse(base["deps"].items);
    ghost var reached := ReachedFrom(descs, stopAtLib, base["deps"].items);
    assert w.succ == FlattenWalk(descs, stopAtLib, map[]).succ;
    ReplayIsUnion(descs, stopAtLib, base, t.log);
    if !ok {
      RaisesIffMalformed(descs, stopAtLib, base, Visited(t.log), t.state, bad);
      assert bad in reached;
      return None;
    }
    assert Visited(t.log) == reached;
    return Some(t.state);
  }

  lemma SuccessorsAreFixed(descs: map<string, Desc>, stopAtLib: bool, base: Desc)
    ensures var w := FlattenWalk(descs, stopAtLib, base);
      forall s, k :: w.pre(s, k).Return? ==> k in descs.Keys && w.pre(s, k).next == w.succ(k)
  {}

  // ---- gather_libraries ----

  // The callback fn of gather_libraries; includesOk is the outcome of has_all_includes.
  function GatherStep(descs: map<string, Desc>, includesOk: string -> bool, libraries: set<string>,
                      k: string): Outcome<set<string>> {
    if !HasDeps(descs, k) || !includesOk(k) then Raise
    else Return(if IsLibrary(descs, k) then libraries + {k} else libraries, Deps(descs, k))
  }

  function GatherWalk(descs: map<string, Desc>, includesOk: string -> bool): Walk<set<string>> {
    Walk((s, k) => GatherStep(descs, includesOk, s, k), (s, k) => s, {}, k => FlattenSucc(descs, false, k))
  }

  lemma {:induction false} ReplayIsLibraries(descs: map<string, Desc>, includesOk: string -> bool, log: seq<Event>)
    requires var w := GatherWalk(descs, includesOk); AllReturned(w.pre, w.post, {}, log)
    ensures var w := GatherWalk(descs, includesOk);
            forall k :: k in Replay(w.pre, w.post, {}, log) <==> Pre(k) in log && IsLibrary(descs, k)
    ensures forall k :: Pre(k) in log ==> HasDeps(descs, k) && includesOk(k)
  {
    hide IsLibrary, HasDeps, AllReturned;
    var w := GatherWalk(descs, includesOk);
    if log != [] {
      ReplayLast(w.pre, w.post, {}, log);
      hide Replay;
      var l, e := log[..|log| - 1], log[|log| - 1];
      assert log == l + [e];
      ReplayIsLibraries(descs, includesOk, l);
    }
  }

  ghost predicate GatherRaises(descs: map<string, Desc>, includesOk: string -> bool, roots: seq<string>) {
    exists k :: k in ReachedFrom(descs, false, roots) && !(HasDeps(descs, k) && includesOk(k))
  }

  method GatherLibraries(roots: seq<string>, descs: map<string, Desc>, includesOk: string -> bool)
    returns (r: Option<set<string>>)
    ensures r.None? <==> GatherRaises(descs, includesOk, roots)
    ensures r.Some? ==> forall k :: k in r.value <==> k in ReachedFrom(descs, false, roots) && IsLibrary(descs, k)
  {
    hide Consistent, AllReturned, Replay, Reachable, PostOrder, IsLibrary, HasDeps;
    var w := GatherWalk(descs, includesOk);
    GatherSuccessorsAreFixed(descs, includesOk);
    var t := new DagTraverse<set<string>>(w, descs.Keys);
    var ok, bad := t.Traverse(roots);
    assert w.succ == FlattenWalk(descs, false, map[]).succ;
    ReplayIsLibraries(descs, includesOk, t.log);
    if !ok {
      assert bad in ReachedFrom(descs, false, roots);
      return None;
    }
    return Some(t.state);
  }

  lemma GatherSuccessorsAreFixed(descs: map<string, Desc>, includesOk: string -> bool)
    ensures var w := GatherWalk(descs, includesOk);
      forall s, k :: w.pre(s, k).Return? ==> k in descs.Keys && w.pre(s, k).next == w.succ(k)
  {}

  // ---- Output ----

  // A path of the graph from a library to a library with no library strictly between.
  ghost predicate LibraryPath(descs: map<string, Desc>, p: seq<string>, from: string, to: string) {
    && |p| >= 2 && p[0] == from && p[|p| - 1] == to && IsLibrary(descs, to)
    && (forall i :: 0 <= i < |p| - 1 ==> p[i + 1] in Deps(descs, p[i]))
    && (forall i :: 0 < i < |p| - 1 ==> !IsLibrary(descs, p[i]))
  }

  ghost predicate DependsOnLibrary(descs: map<string, Desc>, from: string, to: string) {
    exists p :: LibraryPath(descs, p, from, to)
  }

  // dep_name[3:]
  function Cut(name: string): string { if |name| < 3 then "" else name[3..] }

  const ROOT_DIRECTORY := "//:"

  // A label of the root directory is cut to its plain name, so that different ones stay different.
  lemma CutLabel(a: string, b: string)
    ensures Cut(ROOT_DIRECTORY + a) == a
    ensures Cut(ROOT_DIRECTORY + a) == Cut(ROOT_DIRECTORY + b) <==> ROOT_DIRECTORY + a == ROOT_DIRECTORY + b
  {
    assert (ROOT_DIRECTORY + a)[3..] == a && (ROOT_DIRECTORY + b)[3..] == b;
  }

  lemma {:induction false} StopPathIsLibraryPath(descs: map<string, Desc>, from: string, p: seq<string>)
    requires |p| > 0 && p[0] in Deps(descs, from) && IsLibrary(descs, p[|p| - 1])
    requires IsPath(FlattenWalk(descs, true, map[]).succ, p)
    ensures LibraryPath(descs, [from] + p, from, p[|p| - 1])
  {
    var q := [from] + p;
    var succ := FlattenWalk(descs, true, map[]).succ;
    forall i | 0 <= i < |q| - 1 ensures q[i + 1] in Deps(descs, q[i]) && (0 < i ==> !IsLibrary(descs, q[i])) {
      if i > 0 {
        assert p[(i - 1) + 1] in succ(p[i - 1]);
      }
    }
  }

  lemma LibraryPathIsStopPath(descs: map<string, Desc>, from: string, to: string, p: seq<string>)
    requires LibraryPath(descs, p, from, to)
    ensures PathBetween(FlattenWalk(descs, true, map[]).succ, p[1..], p[1], to) && p[1] in Deps(descs, from)
  {
    var q := p[1..];
    var succ := FlattenWalk(descs, true, map[]).succ;
    assert p[0 + 1] in Deps(descs, p[0]);
    forall i | 0 <= i < |q| - 1 ensures q[i + 1] in succ(q[i]) {
      assert p[(i + 1) + 1] in Deps(descs, p[i + 1]) && !IsLibrary(descs, p[i + 1]);
    }
  }

  lemma DependsIffReached(descs: map<string, Desc>, from: string, to: string)
    ensures DependsOnLibrary(descs, from, to) <==>
      to in ReachedFrom(descs, true, Deps(descs, from)) && IsLibrary(descs, to)
  {
    var succ, roots := FlattenWalk(descs, true, map[]).succ, Deps(descs, from);
    if DependsOnLibrary(descs, from, to) {
      var p :| LibraryPath(descs, p, from, to);
      LibraryPathIsStopPath(descs, from, to, p);
      assert Reaches(succ, p[1], to);
    }
    if Reachable(succ, roots, to) && IsLibrary(descs, to) {
      var r :| r in roots && Reaches(succ, r, to);
      var p :| PathBetween(succ, p, r, to);
      StopPathIsLibraryPath(descs, from, p);
    }
  }

  // The libraries among the merged deps are those with a path from the target.
  lemma MergedDeps(descs: map<string, Desc>, target: string, d: Desc, n: string)
    requires HasDepList(descs, target) && !FlattenRaises(descs, true, target)
    requires IsUnion(descs, true, descs[target], ReachedFrom(descs, true, descs[target]["deps"].items), d)
    ensures HasList(d, "deps")
    ensures n in d["deps"].items ==> n in ReachedFrom(descs, true, descs[target]["deps"].items)
    ensures n in ReachedFrom(descs, true, descs[target]["deps"].items) ==> n in d["deps"].items
  {
    var roots := descs[target]["deps"].items;
    var ks := ReachedFrom(descs, true, roots);
    var succ := FlattenWalk(descs, true, map[]).succ;
    assert IsUnionAt(descs, true, descs[target], ks, d, "deps");
    assert n in d["deps"].items <==> n in roots || Provides(descs, true, ks, "deps", n) by {
      ProvidesItemOfList(descs, true, ks, "deps");
    }
    if n in roots {
      ReachesSelf(succ, n);
    }
    if Provides(descs, true, ks, "deps", n) {
      var k :| k in ks && Contributes(descs, true, k) && n in ListAt(descs[k], "deps");
      var r :| r in roots && Reaches(succ, r, k);
      ReachesStep(succ, r, k, n);
    }
    if n in ks {
      var r :| r in roots && Reaches(succ, r, n);
      var p :| PathBetween(succ, p, r, n);
      if |p| > 1 {
        var k := p[|p| - 2];
        assert p[|p| - 2 + 1] in succ(p[|p| - 2]);
        assert IsPath(succ, p[..|p| - 1]) && PathBetween(succ, p[..|p| - 1], r, k);
        assert k in ks && !Malformed(descs, true, descs[target], k);
        assert Contributes(descs, true, k) && n in ListAt(descs[k], "deps");
      }
    }
  }

  // The inner loop of the output stage: the cut names of the libraries among names.
  method CutLibraries(descs: map<string, Desc>, names: seq<string>) returns (r: Option<seq<string>>)
    ensures r.None? <==> exists n :: n in names && !(n in descs && "type" in descs[n])
    ensures r.Some? ==> forall c :: c in r.value <==> exists n :: n in names && IsLibrary(descs, n) && Cut(n) == c
  {
    var cuts: seq<string> := [];
    var i := 0;
    while i < |names|
      invariant 0 <= i <= |names|
      invariant forall n :: n in names[..i] ==> n in descs && "type" in descs[n]
      invariant forall c :: c in cuts <==> exists n :: n in names[..i] && IsLibrary(descs, n) && Cut(n) == c
    {
      var n := names[i];
      assert names[..i + 1] == names[..i] + [n];
      if !(n in descs && "type" in descs[n]) {
        return None;
      }
      if IsLibrary(descs, n) {
        cuts := cuts + [Cut(n)];
      }
      i := i + 1;
    }
    assert names[..i] == names;
    return Some(cuts);
  }

  ghost predicate IsExported(descs: map<string, Desc>, roots: seq<string>, k: string) {
    k in ReachedFrom(descs, false, roots) && IsLibrary(descs, k)
  }

  // The record written for library k.
  ghost predicate IsRecord(descs: map<string, Desc>, k: string, d: Desc) {
    && k in descs
    && (forall a :: a != "deps" ==> IsUnionAt(descs, true, descs[k], ReachedFrom(descs, true, Deps(descs, k)), d, a))
    && HasList(d, "deps") && NoDuplicates(d["deps"].items) && SortedBy(LexLower, d["deps"].items)
    && forall c :: c in d["deps"].items <==> exists n :: DependsOnLibrary(descs, k, n) && Cut(n) == c
  }

  // Everything a library depends on is a library of the output too.
  lemma DependenciesAreExported(descs: map<string, Desc>, roots: seq<string>, k: string, n: string)
    requires IsExported(descs, roots, k) && DependsOnLibrary(descs, k, n)
    ensures IsExported(descs, roots, n)
  {
    var succ := FlattenWalk(descs, false, map[]).succ;
    var p :| LibraryPath(descs, p, k, n);
    var r :| r in roots && Reaches(succ, r, k);
    FollowPath(descs, roots, p);
  }

  lemma {:induction false} FollowPath(descs: map<string, Desc>, roots: seq<string>, p: seq<string>)
    requires |p| > 0 && p[0] in ReachedFrom(descs, false, roots)
    requires forall i :: 0 <= i < |p| - 1 ==> p[i + 1] in Deps(descs, p[i])
    ensures p[|p| - 1] in ReachedFrom(descs, false, roots)
  {
    if |p| > 1 {
      var succ := FlattenWalk(descs, false, map[]).succ;
      var r :| r in roots && Reaches(succ, r, p[0]);
      assert p[0 + 1] in Deps(descs, p[0]);
      ReachesStep(succ, r, p[0], p[1]);
      forall i | 0 <= i < |p[1..]| - 1 ensures p[1..][i + 1] in Deps(descs, p[1..][i]) {
        assert p[(i + 1) + 1] in Deps(descs, p[i + 1]);
      }
      FollowPath(descs, roots, p[1..]);
    }
  }

  lemma MergedDepsAreTyped(descs: map<string, Desc>, target: string, d: Desc, n: string)
    requires HasDepList(descs, target) && !FlattenRaises(descs, true, target)
    requires IsUnion(descs, true, descs[target], ReachedFrom(descs, true, descs[target]["deps"].items), d)
    requires HasList(d, "deps") && n in d["deps"].items
    ensures n in descs && "type" in descs[n]
  {
    MergedDeps(descs, target, d, n);
    assert !Malformed(descs, true, descs[target], n);
  }

  // out[k] before the output loop reaches it.
  ghost predicate IsFlat(descs: map<string, Desc>, k: string, d: Desc) {
    && IsLibrary(descs, k) && HasDepList(descs, k) && !FlattenRaises(descs, true, k)
    && IsUnion(descs, true, descs[k], ReachedFrom(descs, true, descs[k]["deps"].items), d)
  }

  // One turn of the output loop.
  method RewriteDeps(descs: map<string, Desc>, k: string, flat: Desc) returns (d: Desc)
    requires IsFlat(descs, k, flat)
    ensures IsRecord(descs, k, d)
  {
    hide ReachedFrom, FlattenRaises, IsUnionAt, DependsOnLibrary;
    MergedDeps(descs, k, flat, "");
    var names := flat["deps"].items;
    forall n | n in names ensures n in descs && "type" in descs[n] { MergedDepsAreTyped(descs, k, flat, n); }
    var cuts := CutLibraries(descs, names);
    d := flat["deps" := List(SortedSet(cuts.value))];
    SortedSetCorrect(cuts.value);
    forall c ensures c in d["deps"].items <==> exists n :: DependsOnLibrary(descs, k, n) && Cut(n) == c {
      forall n ensures n in names && IsLibrary(descs, n) <==> DependsOnLibrary(descs, k, n) {
        MergedDeps(descs, k, flat, n);
        DependsIffReached(descs, k, n);
      }
    }
    forall a | a != "deps" ensures IsUnionAt(descs, true, descs[k], ReachedFrom(descs, true, Deps(descs, k)), d, a) {
      UnionAtOther(descs, true, descs[k], ReachedFrom(descs, true, Deps(descs, k)), flat, d, a);
    }
  }

  lemma UnionAtOther(descs: map<string, Desc>, stopAtLib: bool, base: Desc, ks: iset<string>, d: Desc, e: Desc,
                     a: string)
    requires IsUnionAt(descs, stopAtLib, base, ks, d, a)
    requires (a in d <==> a in e) && (a in d ==> d[a] == e[a])
    ensures IsUnionAt(descs, stopAtLib, base, ks, e, a)
  {}

  // A target as the object it is in the script: a dictionary that can be assigned to.
  class Target {
    var attrs: Desc

    constructor (attrs: Desc)
      ensures this.attrs == attrs
    {
      this.attrs := attrs;
    }
  }

  function Values(targets: map<string, Target>): map<string, Desc>
    reads targets.Values
  {
    map k | k in targets :: targets[k].attrs
  }

  // Each name has an object of its own.
  ghost predicate Apart(out: map<string, Target>) { forall j, k :: j in out && k in out && j != k ==> out[j] != out[k] }

  // The first output loop: a copy of its description for each library, or a failure on one of them.
  method Flatten(libraries: set<string>, descs: map<string, Desc>) returns (r: Option<map<string, Target>>)
    requires forall k :: k in libraries ==> IsLibrary(descs, k)
    ensures r.None? <==> exists k :: k in libraries && FlattenRaises(descs, true, k)
    ensures r.Some? ==> r.value.Keys == libraries && Apart(r.value)
    ensures r.Some? ==> forall k :: k in libraries ==> fresh(r.value[k]) && IsFlat(descs, k, r.value[k].attrs)
  {
    hide IsLibrary, FlattenRaises, IsUnion, IsFlat, ReachedFrom;
    var out: map<string, Target> := map[];
    var rest := libraries;
    while rest != {}
      invariant rest <= libraries
      invariant out.Keys == libraries - rest && Apart(out) && forall k :: k in out ==> fresh(out[k])
      invariant forall k :: k in out ==> IsFlat(descs, k, out[k].attrs)
    {
      var k :| k in rest;
      var flat := FlattenedTarget(k, descs, true);
      if flat.None? {
        return None;
      }
      FlatReads(descs, k, flat.value);
      var flattened := new Target(flat.value);
      out := out[k := flattened];
      rest := rest - {k};
    }
    forall k | k in libraries ensures !FlattenRaises(descs, true, k) {
      FlatDidNotRaise(descs, k, out[k].attrs);
    }
    return Some(out);
  }

  // The second: the deps of each are assigned anew, and no other object is touched.
  method RewriteAll(out: map<string, Target>, descs: map<string, Desc>)
    requires Apart(out) && forall k :: k in out ==> IsFlat(descs, k, out[k].attrs)
    modifies out.Values
    ensures forall k :: k in out ==> IsRecord(descs, k, out[k].attrs)
  {
    hide IsRecord, IsFlat;
    var rest := out.Keys;
    while rest != {}
      invariant rest <= out.Keys
      invariant forall k :: k in rest ==> IsFlat(descs, k, out[k].attrs)
      invariant forall k :: k in out && k !in rest ==> IsRecord(descs, k, out[k].attrs)
    {
      var k :| k in rest;
      var desc := out[k];
      desc.attrs := RewriteDeps(descs, k, desc.attrs);
      rest := rest - {k};
    }
  }

  // The output targets are new objects, each a copy of its description to begin with, so that assigning to their deps
  // leaves the descriptions as they were.
  method Export(roots: seq<string>, targets: map<string, Target>, includesOk: string -> bool)
      returns (r: Option<map<string, Target>>)
    ensures var descs := Values(targets);
            && descs == old(Values(targets))
            && (r.None? <==>
              GatherRaises(descs, includesOk, roots)
              || exists k :: IsExported(descs, roots, k) && FlattenRaises(descs, true, k))
            && (r.Some? ==>
              && (forall k :: k in r.value <==> IsExported(descs, roots, k))
              && (forall k :: k in r.value ==> fresh(r.value[k]) && IsRecord(descs, k, r.value[k].attrs))
              && (forall k, n :: k in r.value && DependsOnLibrary(descs, k, n) ==> n in r.value))
  {
    hide IsRecord, FlattenRaises, IsFlat, GatherRaises, DependsOnLibrary, ReachedFrom, IsExported, IsLibrary;
    var descs := Values(targets);
    var libraries := GatherLibraries(roots, descs, includesOk);
    if libraries.None? {
      return None;
    }
    AllExported(descs, roots, libraries.value);
    r := Flatten(libraries.value, descs);
    if r.None? {
      return;
    }
    RewriteAll(r.value, descs);
    forall k, n | k in r.value && DependsOnLibrary(descs, k, n) ensures n in r.value {
      DependenciesAreExported(descs, roots, k, n);
    }
    assert Values(targets) == descs;
  }

  lemma AllExported(descs: map<string, Desc>, roots: seq<string>, libraries: set<string>)
    requires forall k :: k in libraries <==> k in ReachedFrom(descs, false, roots) && IsLibrary(descs, k)
    ensures forall k :: k in libraries <==> IsExported(descs, roots, k)
    ensures forall k :: k in libraries ==> IsLibrary(descs, k)
  {}

  lemma FlatReads(descs: map<string, Desc>, k: string, d: Desc)
    requires IsLibrary(descs, k) && !FlattenRaises(descs, true, k)
    requires HasDepList(descs, k) ==>
      IsUnion(descs, true, descs[k], ReachedFrom(descs, true, descs[k]["deps"].items), d)
    ensures IsFlat(descs, k, d)
  {}

  lemma FlatDidNotRaise(descs: map<string, Desc>, k: string, d: Desc)
    requires IsFlat(descs, k, d)
    ensures !FlattenRaises(descs, true, k)
  {}
}
