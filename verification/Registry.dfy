/** Which feature or extension each command of a Khronos registry belongs to: GLCommandNames and RegistryXML of
    registry_xml.py. */
module Registry {
  import opened Sorting
  import Text

  // ---- GLCommandNames ----

  // A dictionary from versions to lists, with its keys.
  datatype Names = Names(versions: seq<string>, lists: map<string, seq<string>>)
  {
    ghost predicate Valid() { NoDuplicates(versions) && forall v :: v in versions <==> v in lists }

    function Get(v: string): seq<string> { if v in lists then lists[v] else [] }

    function Added(v: string, commands: seq<string>): Names {
      Names(if v in lists then versions else versions + [v], lists[v := Get(v) + commands])
    }

    // All the lists, in the order of the versions.
    function All(): seq<string> { Concat(Sort(Lex, versions), this) }
  }

  function Concat(versions: seq<string>, n: Names): seq<string> {
    if versions == [] then []
    else Concat(versions[..|versions| - 1], n) + n.Get(versions[|versions| - 1])
  }

  class GLCommandNames {
    var names: Names

    constructor ()
      ensures names == Names([], map[])
    {
      names := Names([], map[]);
    }

    method GetAllCommands() returns (cmdNames: seq<string>)
      ensures cmdNames == names.All()
    {
      cmdNames := [];
      var versions := Sort(Lex, names.versions);
      for i := 0 to |versions|
        invariant cmdNames == Concat(versions[..i], names)
      {
        assert versions[..i + 1][..i] == versions[..i];
        cmdNames := cmdNames + names.Get(versions[i]);
      }
      assert versions[..|versions|] == versions;
    }

    method AddCommands(version: string, commands: seq<string>)
      modifies this
      ensures names == old(names).Added(version, commands)
    {
      if version !in names.lists {
        names := Names(names.versions + [version], names.lists[version := []]);
      }
      names := names.(lists := names.lists[version := names.lists[version] + commands]);
      assert names.lists == old(names).Added(version, commands).lists;
    }
  }

  // ---- Lists with the commands already there taken out ----

  function Without(s: seq<string>, all: seq<string>): seq<string> {
    if s == [] then [] else (if s[0] in all then [] else [s[0]]) + Without(s[1..], all)
  }

  function Within(s: seq<string>, all: seq<string>): seq<string> {
    if s == [] then [] else (if s[0] in all then [s[0]] else []) + Within(s[1..], all)
  }

  // list.remove
  function RemoveFirst(s: seq<string>, x: string): seq<string> {
    if s == [] then [] else if s[0] == x then s[1..] else [s[0]] + RemoveFirst(s[1..], x)
  }

  function RemoveEach(s: seq<string>, xs: seq<string>): seq<string>
    decreases |xs|
  {
    if xs == [] then s else RemoveEach(RemoveFirst(s, xs[0]), xs[1..])
  }

  lemma {:induction false} SplitCounts(s: seq<string>, all: seq<string>, c: string)
    ensures multiset(Without(s, all))[c] == if c in all then 0 else multiset(s)[c]
    ensures multiset(Within(s, all))[c] == if c in all then multiset(s)[c] else 0
  {
    if s != [] {
      SplitCounts(s[1..], all, c);
      assert s == [s[0]] + s[1..];
    }
  }

  lemma {:induction false} RemoveBehind(x: string, s: seq<string>, xs: seq<string>)
    requires x !in xs
    ensures RemoveEach([x] + s, xs) == [x] + RemoveEach(s, xs)
    decreases |xs|
  {
    if xs != [] {
      assert ([x] + s)[1..] == s;
      RemoveBehind(x, RemoveFirst(s, xs[0]), xs[1..]);
    }
  }

  lemma {:induction false} NotWithin(s: seq<string>, all: seq<string>, x: string)
    requires x !in all
    ensures x !in Within(s, all)
  {
    if s != [] { NotWithin(s[1..], all, x); }
  }

  // Removing the duplicates one by one leaves the others, in order.
  lemma {:induction false} RemoveWithin(s: seq<string>, all: seq<string>)
    ensures RemoveEach(s, Within(s, all)) == Without(s, all)
  {
    if s != [] {
      var t := Within(s[1..], all);
      RemoveWithin(s[1..], all);
      if s[0] in all {
        assert Within(s, all) == [s[0]] + t;
        assert RemoveFirst(s, s[0]) == s[1..] && ([s[0]] + t)[1..] == t;
      } else {
        NotWithin(s[1..], all, s[0]);
        assert Within(s, all) == t && Without(s, all) == [s[0]] + Without(s[1..], all);
        RemoveBehind(s[0], s[1..], t);
        assert s == [s[0]] + s[1..];
      }
    }
  }

  // ---- Additions ----

  datatype Addition = Addition(annotation: string, commands: seq<string>)

  // The dictionary after each list has been added without the commands there before it.
  function State(adds: seq<Addition>): Names {
    if adds == [] then Names([], map[])
    else
      var n, a := State(adds[..|adds| - 1]), adds[|adds| - 1];
      n.Added(a.annotation, Without(a.commands, n.All()))
  }

  // The first list with the command, or |adds| if there is none.
  function Owner(adds: seq<Addition>, c: string): (i: nat)
    ensures i <= |adds|
    ensures i < |adds| ==> c in adds[i].commands
    ensures forall j :: 0 <= j < i ==> c !in adds[j].commands
  {
    if adds == [] then 0
    else
      var i := Owner(adds[..|adds| - 1], c);
      if i < |adds| - 1 || c in adds[|adds| - 1].commands then i else |adds|
  }

  function CountIn(adds: seq<Addition>, c: string): nat {
    var i := Owner(adds, c);
    if i < |adds| then multiset(adds[i].commands)[c] else 0
  }

  lemma {:induction false} StateValid(adds: seq<Addition>)
    ensures State(adds).Valid()
  {
    if adds != [] { StateValid(adds[..|adds| - 1]); }
  }

  lemma {:induction false} ConcatCount(vs: seq<string>, n: Names, v: string, c: string)
    requires NoDuplicates(vs)
    requires forall w :: w != v ==> multiset(n.Get(w))[c] == 0
    ensures multiset(Concat(vs, n))[c] == if v in vs then multiset(n.Get(v))[c] else 0
  {
    if vs != [] {
      var init, w := vs[..|vs| - 1], vs[|vs| - 1];
      ConcatCount(init, n, v, c);
      assert vs == init + [w];
      assert multiset(Concat(vs, n))[c] == multiset(Concat(init, n))[c] + multiset(n.Get(w))[c];
    }
  }

  lemma AllCount(n: Names, v: string, c: string)
    requires n.Valid()
    requires forall w :: w != v ==> multiset(n.Get(w))[c] == 0
    ensures multiset(n.All())[c] == multiset(n.Get(v))[c]
  {
    LexIsOrder();
    var vs := Sort(Lex, n.versions);
    SortSorts(Lex, n.versions);
    NoDuplicatesByMultiset(n.versions, vs);
    ConcatCount(vs, n, v, c);
    assert v in vs <==> v in multiset(vs);
    assert v in n.versions <==> v in multiset(n.versions);
  }

  // Every command is listed under the annotation of the first addition that has it, as often as that has it, and
  // nowhere else.
  lemma {:induction false} OwnerHasIt(adds: seq<Addition>, c: string)
    ensures forall v :: multiset(State(adds).Get(v))[c] ==
                    if Owner(adds, c) < |adds| && adds[Owner(adds, c)].annotation == v then CountIn(adds, c) else 0
    ensures multiset(State(adds).All())[c] == CountIn(adds, c)
  {
    if adds == [] {
      assert Sort(Lex, []) == [];
    } else {
      var init, a := adds[..|adds| - 1], adds[|adds| - 1];
      OwnerHasIt(init, c);
      OwnerIn(init, c);
      OwnerStep(adds, c);
      hide Owner, Names.All;
      var n, i := State(init), Owner(adds, c);
      forall v ensures multiset(State(adds).Get(v))[c] ==
                     if i < |adds| && adds[i].annotation == v then CountIn(adds, c) else 0 {
        AddedCount(n, a, v, c);
      }
      StateValid(adds);
      AllCount(State(adds), if i < |adds| then adds[i].annotation else "", c);
    }
  }

  lemma AddedCount(n: Names, a: Addition, v: string, c: string)
    ensures multiset(n.Added(a.annotation, Without(a.commands, n.All())).Get(v))[c] ==
            multiset(n.Get(v))[c] + if v == a.annotation && c !in n.All() then multiset(a.commands)[c] else 0
  {
    hide Names.All;
    var extra := Without(a.commands, n.All());
    SplitCounts(a.commands, n.All(), c);
    var m := n.Added(a.annotation, extra);
    if v == a.annotation { assert m.Get(v) == n.Get(v) + extra; } else { assert m.Get(v) == n.Get(v); }
  }

  lemma OwnerStep(adds: seq<Addition>, c: string)
    requires adds != []
    ensures var init, i := adds[..|adds| - 1], Owner(adds, c);
            && (Owner(init, c) < |init| ==> i == Owner(init, c) && adds[i] == init[i])
            && (Owner(init, c) == |init| ==> i == if c in adds[|adds| - 1].commands then |init| else |adds|)
            && (c in adds[|adds| - 1].commands <==> multiset(adds[|adds| - 1].commands)[c] > 0)
  {}

  lemma OwnerIn(adds: seq<Addition>, c: string)
    requires multiset(State(adds).All())[c] == CountIn(adds, c)
    ensures c in State(adds).All() <==> Owner(adds, c) < |adds|
  {
    assert c in State(adds).All() <==> multiset(State(adds).All())[c] > 0;
    var i := Owner(adds, c);
    if i < |adds| { assert c in multiset(adds[i].commands); }
  }

  // The combined list covers every command listed and nothing else, and has none twice if no addition does.
  lemma CombinedList(adds: seq<Addition>)
    ensures forall c :: c in State(adds).All() <==> exists i :: 0 <= i < |adds| && c in adds[i].commands
    ensures (forall i :: 0 <= i < |adds| ==> NoDuplicates(adds[i].commands)) ==> NoDuplicates(State(adds).All())
  {
    var all := State(adds).All();
    forall c ensures c in all <==> exists i :: 0 <= i < |adds| && c in adds[i].commands {
      OwnerHasIt(adds, c);
      OwnerIn(adds, c);
    }
    if forall i :: 0 <= i < |adds| ==> NoDuplicates(adds[i].commands) {
      forall c ensures multiset(all)[c] <= 1 {
        OwnerHasIt(adds, c);
        if Owner(adds, c) < |adds| { OnceInMultiset(adds[Owner(adds, c)].commands, c); }
      }
      NoneTwice(all);
    }
  }

  lemma NoneTwice(s: seq<string>)
    requires forall c :: multiset(s)[c] <= 1
    ensures NoDuplicates(s)
  {
    forall i, j | 0 <= i < j < |s| ensures s[i] != s[j] {
      if s[i] == s[j] { TwiceInMultiset(s, i, j); }
    }
  }

  function Kept(adds: seq<Addition>, i: nat): seq<string>
    requires i < |adds|
  {
    Without(adds[i].commands, State(adds[..i]).All())
  }

  function Dupes(adds: seq<Addition>, i: nat): seq<string>
    requires i < |adds|
  {
    Within(adds[i].commands, State(adds[..i]).All())
  }

  // An addition keeps just the commands it owns; what it keeps and what it drops make up what it lists.
  lemma KeptAndDupes(adds: seq<Addition>, i: nat)
    requires i < |adds|
    ensures forall c :: c in Kept(adds, i) <==> Owner(adds, c) == i
    ensures multiset(Kept(adds, i)) + multiset(Dupes(adds, i)) == multiset(adds[i].commands)
  {
    hide State, Names.All, Owner, Without, Within;
    var s, all := adds[i].commands, State(adds[..i]).All();
    forall c ensures c in Kept(adds, i) <==> Owner(adds, c) == i
      ensures multiset(Kept(adds, i))[c] + multiset(Dupes(adds, i))[c] == multiset(s)[c]
    {
      SplitCounts(s, all, c);
      OwnerHasIt(adds[..i], c);
      OwnerIn(adds[..i], c);
      assert c in Kept(adds, i) <==> multiset(Kept(adds, i))[c] > 0;
      assert c in s <==> multiset(s)[c] > 0;
      OwnerOfPrefix(adds, i, c);
    }
  }

  lemma OwnerOfPrefix(adds: seq<Addition>, i: nat, c: string)
    requires i < |adds|
    ensures Owner(adds, c) == i <==> Owner(adds[..i], c) == i && c in adds[i].commands
  {
    var o, p := Owner(adds, c), Owner(adds[..i], c);
    if p < i { assert adds[..i][p] == adds[p]; }
    if o < i { assert adds[..i][o] == adds[o]; }
  }

  // ---- The registry ----

  datatype Require = Require(api: Text.Option<string>, comment: Text.Option<string>, commands: seq<string>)

  datatype Extension = Extension(name: string, supported: string, requires_: seq<Require>)

  const FILTER_OUT_COMMENT := "Supported only if GL_EXT_direct_state_access is supported"

  // None where the script fails its assertion.
  function ClassifySupport(supported: string): Text.Option<string> {
    if Text.Has(supported, "gles2") then Text.Some("gl2ext")
    else if Text.Has(supported, "gles1") then Text.Some("glext")
    else if Text.Has(supported, "egl") then Text.Some("eglext")
    else if Text.Has(supported, "wgl") then Text.Some("wglext")
    else Text.None
  }

  // Some api of a list separated by bars has the name in its own.
  ghost predicate Supports(supported: string, api: string) { Text.InSome(Text.Split(supported, '|'), api) }

  // The first of the four kinds that is supported decides, whatever else is.
  lemma ClassifyIff(supported: string)
    ensures var c := ClassifySupport(supported);
            && (c == Text.Some("gl2ext") <==> Supports(supported, "gles2"))
            && (c == Text.Some("glext") <==> Supports(supported, "gles1") && !Supports(supported, "gles2"))
            && (c == Text.Some("eglext") <==>
                 Supports(supported, "egl") && !Supports(supported, "gles1") && !Supports(supported, "gles2"))
            && (c.Some? <==>
                 || Supports(supported, "gles2") || Supports(supported, "gles1")
                 || Supports(supported, "egl") || Supports(supported, "wgl"))
  {
    var a, b, c, d := "gles2", "gles1", "egl", "wgl";
    assert '|' !in a && '|' !in b && '|' !in c && '|' !in d;
    Text.PartsContain(supported, '|', a);
    Text.PartsContain(supported, '|', b);
    Text.PartsContain(supported, '|', c);
    Text.PartsContain(supported, '|', d);
  }

  // A require that counts: for no api in particular or one of those asked for, and not the special case.
  ghost predicate Counts(r: Require, apis: seq<string>) {
    (r.api.None? || r.api.value in apis) && r.comment != Text.Some(FILTER_OUT_COMMENT)
  }

  ghost predicate Requires(rs: seq<Require>, apis: seq<string>, c: string) {
    exists r :: r in rs && Counts(r, apis) && c in r.commands
  }

  // The commands of the requires that count, in order and as often as they are listed there, and no others.
  lemma CommandsAre(rs: seq<Require>, more: seq<Require>, r: Require, apis: seq<string>)
    ensures CommandsOf(rs + more, apis) == CommandsOf(rs, apis) + CommandsOf(more, apis)
    ensures CommandsOf([r], apis) == if Counts(r, apis) then r.commands else []
    ensures forall c :: c in CommandsOf(rs, apis) <==> Requires(rs, apis, c)
  {
    CommandsOfOne(r, apis);
    hide FILTER_OUT_COMMENT, CommandsOf, Counts, Requires;
    CommandsConcat(rs, more, apis);
    CollectedIff(rs, apis);
  }

  lemma CommandsOfOne(r: Require, apis: seq<string>)
    ensures CommandsOf([r], apis) == if Counts(r, apis) then r.commands else []
  {
    hide FILTER_OUT_COMMENT;
    assert [r][..0] == [];
  }

  lemma {:induction false} CommandsConcat(rs: seq<Require>, more: seq<Require>, apis: seq<string>)
    ensures CommandsOf(rs + more, apis) == CommandsOf(rs, apis) + CommandsOf(more, apis)
  {
    hide CommandsOf, Counts;
    NoCommands(apis);
    if more == [] {
      assert rs + more == rs;
    } else {
      var init, r := more[..|more| - 1], more[|more| - 1];
      CommandsConcat(rs, init, apis);
      CommandsSnoc(rs + init, r, apis);
      CommandsSnoc(init, r, apis);
      SplitLast(rs, more);
      var a, b, c := CommandsOf(rs, apis), CommandsOf(init, apis), if Counts(r, apis) then r.commands else [];
      assert (a + b) + c == a + (b + c);
    }
  }

  lemma SplitLast(rs: seq<Require>, more: seq<Require>)
    requires more != []
    ensures rs + more == rs + more[..|more| - 1] + [more[|more| - 1]] && more == more[..|more| - 1] + [more[|more| - 1]]
  {}

  lemma NoCommands(apis: seq<string>)
    ensures CommandsOf([], apis) == []
  {}

  lemma CommandsSnoc(rs: seq<Require>, r: Require, apis: seq<string>)
    ensures CommandsOf(rs + [r], apis) == CommandsOf(rs, apis) + if Counts(r, apis) then r.commands else []
  {
    hide FILTER_OUT_COMMENT;
    assert (rs + [r])[..|rs|] == rs;
  }

  lemma {:induction false} CollectedIff(rs: seq<Require>, apis: seq<string>)
    ensures forall c :: c in CommandsOf(rs, apis) <==> Requires(rs, apis, c)
  {
    hide FILTER_OUT_COMMENT;
    if rs != [] {
      var init, r := rs[..|rs| - 1], rs[|rs| - 1];
      assert rs == init + [r];
      CollectedIff(init, apis);
      forall c ensures Requires(rs, apis, c) <==> Requires(init, apis, c) || (Counts(r, apis) && c in r.commands) {
        if q :| q in rs && Counts(q, apis) && c in q.commands { assert q in init || q == r; }
        if Counts(r, apis) && c in r.commands { assert r in rs; }
      }
    }
  }

  function CommandsOf(rs: seq<Require>, apis: seq<string>): seq<string> {
    if rs == [] then []
    else
      var r, rest := rs[|rs| - 1], CommandsOf(rs[..|rs| - 1], apis);
      if r.api.Some? && r.api.value !in apis then rest
      else if r.comment == Text.Some(FILTER_OUT_COMMENT) then rest
      else rest + r.commands
  }

  function AdditionOf(e: Extension, apis: seq<string>): Addition {
    var c := ClassifySupport(e.supported);
    Addition(if c.Some? then c.value else "unknown", Sort(Lex, CommandsOf(e.requires_, apis)))
  }

  // The extensions wanted by name, the last of a name counting: as a dictionary, with its keys.
  datatype Wanted = Wanted(names: seq<string>, found: map<string, Extension>)

  function WantedOf(exts: seq<Extension>, supported: seq<string>): Wanted {
    if exts == [] then Wanted([], map[])
    else
      var w, e := WantedOf(exts[..|exts| - 1], supported), exts[|exts| - 1];
      if e.name !in supported then w
      else Wanted(if e.name in w.found then w.names else w.names + [e.name], w.found[e.name := e])
  }

  lemma {:induction false} WantedValid(exts: seq<Extension>, supported: seq<string>)
    ensures var w := WantedOf(exts, supported);
            && NoDuplicates(w.names)
            && (forall n :: n in w.names <==> n in w.found)
            && (forall n :: n in w.found ==> w.found[n] in exts && w.found[n].name == n && n in supported)
            && (forall e :: e in exts && e.name in supported ==> e.name in w.found)
  {
    if exts != [] { WantedValid(exts[..|exts| - 1], supported); }
  }

  // Wanted by name, and the last in the file of that name.
  ghost predicate IsWanted(exts: seq<Extension>, supported: seq<string>, e: Extension) {
    e.name in supported && exists i :: LastAt(exts, e, i)
  }

  ghost predicate LastAt(exts: seq<Extension>, e: Extension, i: int) {
    0 <= i < |exts| && exts[i] == e && forall j :: i < j < |exts| ==> exts[j].name != e.name
  }

  lemma LastOfMore(exts: seq<Extension>, last: Extension, e: Extension)
    ensures (exists i :: LastAt(exts + [last], e, i)) <==>
      e == last || (last.name != e.name && exists i :: LastAt(exts, e, i))
  {
    var more := exts + [last];
    assert more[|exts|] == last;
    if i :| LastAt(more, e, i) {
      if i < |exts| {
        forall j | i < j < |exts| ensures exts[j].name != e.name { assert exts[j] == more[j]; }
        assert LastAt(exts, e, i);
      }
    }
    if last.name != e.name {
      if i :| LastAt(exts, e, i) { assert LastAt(more, e, i); }
    }
    if e == last { assert LastAt(more, e, |exts|); }
  }

  lemma {:induction false} WantedIff(exts: seq<Extension>, supported: seq<string>, e: Extension)
    ensures IsWanted(exts, supported, e) <==>
      e.name in WantedOf(exts, supported).found && WantedOf(exts, supported).found[e.name] == e
  {
    hide LastAt;
    if exts == [] {
      NoneLast(e);
    } else {
      var init, last := exts[..|exts| - 1], exts[|exts| - 1];
      assert exts == init + [last];
      WantedIff(init, supported, e);
      LastOfMore(init, last, e);
    }
  }

  lemma NoneLast(e: Extension)
    ensures !exists i :: LastAt([], e, i)
  {}

  // What the extensions add, in the order of their names.
  function AdditionsFor(names: seq<string>, found: map<string, Extension>, apis: seq<string>): seq<Addition> {
    if names == [] then []
    else
      var n := names[|names| - 1];
      AdditionsFor(names[..|names| - 1], found, apis)
        + [if n in found then AdditionOf(found[n], apis) else Addition("", [])]
  }

  ghost predicate UniqueNames(exts: seq<Extension>) {
    forall i, j :: 0 <= i < j < |exts| ==> exts[i].name != exts[j].name
  }

  lemma WantedIs(exts: seq<Extension>, supported: seq<string>, e: Extension)
    requires UniqueNames(exts) && e in exts && e.name in supported
    ensures e.name in WantedOf(exts, supported).found && WantedOf(exts, supported).found[e.name] == e
  {
    WantedValid(exts, supported);
    var f := WantedOf(exts, supported).found[e.name];
    var i, j :| 0 <= i < |exts| && 0 <= j < |exts| && exts[i] == e && exts[j] == f;
    assert i == j;
  }

  // With unique names the order of the extensions in the file does not matter to what is wanted.
  lemma SameSelection(exts: seq<Extension>, exts': seq<Extension>, supported: seq<string>)
    requires UniqueNames(exts) && UniqueNames(exts') && multiset(exts) == multiset(exts')
    ensures WantedOf(exts, supported).found == WantedOf(exts', supported).found
    ensures Sort(Lex, WantedOf(exts, supported).names) == Sort(Lex, WantedOf(exts', supported).names)
    ensures AllClassified(exts, supported) <==> AllClassified(exts', supported)
  {
    var w, w' := WantedOf(exts, supported), WantedOf(exts', supported);
    SameWanted(exts, exts', supported);
    SameWanted(exts', exts, supported);
    assert w.found == w'.found;
    WantedValid(exts, supported);
    WantedValid(exts', supported);
    SameKeys(w.names, w'.names);
    SameClassified(exts, exts', supported);
    LexIsOrder();
    hide Sort, TotalPreorder, AntiSymmetric, AdditionsFor, WantedOf, AllClassified;
    SortOfPermutation(Lex, w.names, w'.names);
  }

  lemma SameClassified(exts: seq<Extension>, exts': seq<Extension>, supported: seq<string>)
    requires multiset(exts) == multiset(exts')
    ensures AllClassified(exts, supported) <==> AllClassified(exts', supported)
  {
    hide ClassifySupport;
    forall e ensures e in exts <==> e in exts' {
      assert e in exts <==> e in multiset(exts);
      assert e in exts' <==> e in multiset(exts');
    }
  }

  lemma SameWanted(exts: seq<Extension>, exts': seq<Extension>, supported: seq<string>)
    requires UniqueNames(exts') && multiset(exts) == multiset(exts')
    ensures forall n :: n in WantedOf(exts, supported).found ==>
      n in WantedOf(exts', supported).found && WantedOf(exts', supported).found[n] == WantedOf(exts, supported).found[n]
  {
    var w := WantedOf(exts, supported);
    WantedValid(exts, supported);
    hide WantedOf, UniqueNames;
    forall n | n in w.found
      ensures n in WantedOf(exts', supported).found && WantedOf(exts', supported).found[n] == w.found[n]
    {
      assert w.found[n] in multiset(exts');
      WantedIs(exts', supported, w.found[n]);
    }
  }

  lemma SameKeys(a: seq<string>, b: seq<string>)
    requires NoDuplicates(a) && NoDuplicates(b) && forall x :: x in a <==> x in b
    ensures multiset(a) == multiset(b)
  {
    forall x ensures multiset(a)[x] == multiset(b)[x] {
      OnceInMultiset(a, x);
      OnceInMultiset(b, x);
      assert x in a <==> x in multiset(a);
      assert x in b <==> x in multiset(b);
    }
  }

  // ---- RegistryXML ----

  // Where the loop over the names is once the first k have been dealt with.
  ghost predicate Dealt(names: seq<string>, k: nat, w: Wanted, apis: seq<string>, before: seq<Addition>,
                        adds: seq<Addition>, extData: map<string, seq<string>>, extDupes: map<string, seq<string>>)
  {
    && k <= |names|
    && adds == before + AdditionsFor(names[..k], w.found, apis)
    && Entries(names, k, w, apis, before, extData, extDupes)
  }

  // What the dictionaries of the extensions hold then.
  ghost predicate Entries(names: seq<string>, k: nat, w: Wanted, apis: seq<string>, before: seq<Addition>,
                          extData: map<string, seq<string>>, extDupes: map<string, seq<string>>)
    requires k <= |names|
  {
    && (forall n :: n in names <==> n in extData)
    && (forall n :: n in names[..k] <==> n in extDupes)
    && (forall i :: 0 <= i < k ==> names[i] in names[..k])
    && (forall i :: 0 <= i < k ==> extData[names[i]] == Sort(Lex, KeptFrom(before, names, i, w, apis)))
    && (forall i :: 0 <= i < k ==> extDupes[names[i]] == DupesFrom(before, names, i, w, apis))
    && (forall i :: k <= i < |names| ==> extData[names[i]] == ListOf(w, names[i], apis))
  }

  lemma EntriesNext(names: seq<string>, k: nat, w: Wanted, apis: seq<string>, before: seq<Addition>,
                    extData: map<string, seq<string>>, extDupes: map<string, seq<string>>)
    requires k < |names| && NoDuplicates(names) && Entries(names, k, w, apis, before, extData, extDupes)
    ensures Entries(names, k + 1, w, apis, before,
                    extData[names[k] := Sort(Lex, KeptFrom(before, names, k, w, apis))],
                    extDupes[names[k] := DupesFrom(before, names, k, w, apis)])
  {
    hide Sort, KeptFrom, DupesFrom, ListOf;
    assert names[..k + 1] == names[..k] + [names[k]];
  }

  // The sorted commands of a name.
  function ListOf(w: Wanted, name: string, apis: seq<string>): seq<string> {
    if name in w.found then AdditionOf(w.found[name], apis).commands else []
  }

  // The commands listed before the ith extension.
  ghost function Listed(before: seq<Addition>, names: seq<string>, i: nat, w: Wanted, apis: seq<string>): seq<string>
    requires i <= |names|
  {
    State(before + AdditionsFor(names[..i], w.found, apis)).All()
  }

  ghost function KeptFrom(before: seq<Addition>, names: seq<string>, i: nat, w: Wanted, apis: seq<string>): seq<string>
    requires i < |names|
  {
    Without(ListOf(w, names[i], apis), Listed(before, names, i, w, apis))
  }

  ghost function DupesFrom(before: seq<Addition>, names: seq<string>, i: nat, w: Wanted, apis: seq<string>): seq<string>
    requires i < |names|
  {
    Within(ListOf(w, names[i], apis), Listed(before, names, i, w, apis))
  }

  lemma {:induction false} AdditionsForLength(names: seq<string>, w: Wanted, apis: seq<string>)
    ensures |AdditionsFor(names, w.found, apis)| == |names|
    ensures forall i :: 0 <= i < |names| ==> AdditionsFor(names, w.found, apis)[i].commands == ListOf(w, names[i], apis)
    ensures forall i :: 0 <= i < |names| && names[i] in w.found ==>
      AdditionsFor(names, w.found, apis)[i] == AdditionOf(w.found[names[i]], apis)
  {
    hide AdditionOf;
    if names != [] {
      AdditionsForLength(names[..|names| - 1], w, apis);
    }
  }

  lemma {:induction false} AdditionsForPrefix(names: seq<string>, i: nat, w: Wanted, apis: seq<string>)
    requires i <= |names|
    ensures i <= |AdditionsFor(names, w.found, apis)|
    ensures AdditionsFor(names, w.found, apis)[..i] == AdditionsFor(names[..i], w.found, apis)
    decreases |names|
  {
    AdditionsForLength(names, w, apis);
    AdditionsForLength(names[..i], w, apis);
    if i < |names| {
      var init := names[..|names| - 1];
      AdditionsForLength(init, w, apis);
      AdditionsForPrefix(init, i, w, apis);
      assert init[..i] == names[..i];
    } else {
      assert names[..i] == names;
    }
  }

  // So the lists kept and dropped are those of the additions as a whole.
  lemma KeptOfAdditions(before: seq<Addition>, names: seq<string>, i: nat, w: Wanted, apis: seq<string>)
    requires i < |names|
    ensures var adds := before + AdditionsFor(names, w.found, apis);
            && |before| + i < |adds|
            && KeptFrom(before, names, i, w, apis) == Kept(adds, |before| + i)
            && DupesFrom(before, names, i, w, apis) == Dupes(adds, |before| + i)
  {
    var rest := AdditionsFor(names, w.found, apis);
    AdditionsForLength(names, w, apis);
    AdditionsForPrefix(names, i, w, apis);
    assert (before + rest)[..|before| + i] == before + rest[..i];
    assert (before + rest)[|before| + i] == rest[i];
  }

  lemma DealtNext(names: seq<string>, k: nat, w: Wanted, apis: seq<string>, before: seq<Addition>, adds: seq<Addition>,
                  extData: map<string, seq<string>>, extDupes: map<string, seq<string>>)
    requires k < |names| && NoDuplicates(names) && names[k] in w.found
    requires Dealt(names, k, w, apis, before, adds, extData, extDupes)
    ensures names[k] in extData && extData[names[k]] == ListOf(w, names[k], apis)
    ensures var all, n := State(adds).All(), names[k];
            var kept, dupes := Without(extData[n], all), Within(extData[n], all);
            && Dealt(names, k + 1, w, apis, before, adds + [AdditionOf(w.found[n], apis)],
                     extData[n := Sort(Lex, kept)], extDupes[n := dupes])
            && State(adds + [AdditionOf(w.found[n], apis)]) ==
                 State(adds).Added(AdditionOf(w.found[n], apis).annotation, kept)
  {
    EntriesNext(names, k, w, apis, before, extData, extDupes);
    AdditionsNext(names, k, w, apis, before);
    hide Names.All, AdditionOf, Sort, Names.Added, NoDuplicates;
    var a := AdditionOf(w.found[names[k]], apis);
    assert (adds + [a])[..|adds|] == adds;
    assert extData[names[k]] == ListOf(w, names[k], apis) == a.commands;
    assert Listed(before, names, k, w, apis) == State(adds).All();
    hide Entries, State;
  }

  lemma AdditionsNext(names: seq<string>, k: nat, w: Wanted, apis: seq<string>, before: seq<Addition>)
    requires k < |names| && names[k] in w.found
    ensures before + AdditionsFor(names[..k + 1], w.found, apis)
         == before + AdditionsFor(names[..k], w.found, apis) + [AdditionOf(w.found[names[k]], apis)]
  {
    hide AdditionOf;
    assert names[..k + 1][..k] == names[..k];
  }

  class RegistryXML {
    const features: string -> seq<string>
    const extensions: seq<Extension>
    const allCmdNames: GLCommandNames
    var commands: map<string, seq<string>>
    var extData: map<string, seq<string>>
    var extDupes: map<string, seq<string>>
    ghost var adds: seq<Addition>

    // The dictionary is what the additions made so far come to.
    ghost predicate Valid()
      reads this, allCmdNames
    {
      allCmdNames.names == State(adds)
    }

    constructor (features: string -> seq<string>, extensions: seq<Extension>)
      ensures Valid() && adds == [] && fresh(allCmdNames)
      ensures this.features == features && this.extensions == extensions
    {
      this.features, this.extensions := features, extensions;
      allCmdNames := new GLCommandNames();
      commands, extData, extDupes, adds := map[], map[], map[], [];
    }

    method AddCommands(featureName: string, annotation: string)
      requires Valid()
      modifies this`commands, this`adds, allCmdNames
      ensures Valid()
      ensures adds == old(adds) + [Addition(annotation, features(featureName))]
      ensures commands == old(commands)[annotation := Kept(adds, |adds| - 1)]
    {
      var currentCmds := allCmdNames.GetAllCommands();
      var cmds := Without(features(featureName), currentCmds);
      allCmdNames.AddCommands(annotation, cmds);
      adds := adds + [Addition(annotation, features(featureName))];
      assert adds[..|adds| - 1] == old(adds);
      commands := commands[annotation := cmds];
    }

    // The commands an extension requires under one of the apis.
    method CollectCommands(requires_: seq<Require>, apis: seq<string>) returns (extCmdNames: seq<string>)
      ensures extCmdNames == CommandsOf(requires_, apis)
    {
      hide FILTER_OUT_COMMENT;
      extCmdNames := [];
      for i := 0 to |requires_|
        invariant extCmdNames == CommandsOf(requires_[..i], apis)
      {
        var r := requires_[i];
        assert requires_[..i + 1][..i] == requires_[..i];
        if r.api.Some? && r.api.value !in apis {
          continue;
        }
        if r.comment == Text.Some(FILTER_OUT_COMMENT) {
          continue;
        }
        extCmdNames := extCmdNames + r.commands;
      }
      assert requires_[..|requires_|] == requires_;
    }

    // The wanted extensions, with the sorted commands of each; false if the support of one cannot be told.
    method CollectExtensions(supported: seq<string>, apis: seq<string>)
        returns (ok: bool, names: seq<string>, annotations: map<string, string>)
      modifies this`extData
      ensures ok <==> AllClassified(extensions, supported)
      ensures ok ==> names == WantedOf(extensions, supported).names
      ensures ok ==> Collected(WantedOf(extensions, supported), apis, annotations, extData)
    {
      hide ClassifySupport, AdditionOf, Collected, AllClassified, WantedOf, Sort;
      extData, names, annotations, ok := map[], [], map[], true;
      NoneCollected(supported, apis);
      var i := 0;
      while i < |extensions|
        invariant 0 <= i <= |extensions|
        invariant AllClassified(extensions[..i], supported)
        invariant names == WantedOf(extensions[..i], supported).names
        invariant Collected(WantedOf(extensions[..i], supported), apis, annotations, extData)
      {
        var e := extensions[i];
        CollectedNext(extensions[..i], e, supported, apis, annotations, extData);
        assert extensions[..i + 1] == extensions[..i] + [e];
        i := i + 1;
        if e.name !in supported {
          continue;
        }
        var support := ClassifySupport(e.supported);
        if support.None? {
          NotClassified(extensions, i - 1, supported);
          return false, names, annotations;
        }
        annotations := annotations[e.name := support.value];
        var extCmdNames := CollectCommands(e.requires_, apis);
        if e.name !in extData { names := names + [e.name]; }
        extData := extData[e.name := Sort(Lex, extCmdNames)];
      }
      assert extensions[..i] == extensions;
    }

    // The commands already listed are noted, and then taken out one by one.
    method FilterDuplicates(cmds: seq<string>) returns (extCmdNames: seq<string>, dupes: seq<string>)
      ensures dupes == Within(cmds, allCmdNames.names.All())
      ensures extCmdNames == Without(cmds, allCmdNames.names.All())
    {
      hide Names.All, Within, RemoveFirst;
      extCmdNames, dupes := cmds, [];
      ghost var all := allCmdNames.names.All();
      NothingWithin(all);
      for i := 0 to |cmds|
        invariant dupes == Within(cmds[..i], all)
      {
        WithinSnoc(cmds[..i], cmds[i], all);
        assert cmds[..i + 1] == cmds[..i] + [cmds[i]];
        var current := allCmdNames.GetAllCommands();
        if cmds[i] in current { dupes := dupes + [cmds[i]]; }
      }
      assert cmds[..|cmds|] == cmds;
      for i := 0 to |dupes|
        invariant RemoveEach(extCmdNames, dupes[i..]) == RemoveEach(cmds, dupes)
      {
        assert dupes[i..][1..] == dupes[i + 1..];
        extCmdNames := RemoveFirst(extCmdNames, dupes[i]);
      }
      RemoveWithin(cmds, all);
    }

    // The wanted extensions are added in the order of their names; what each keeps and drops is recorded.
    method AddExtensionCommands(supported: seq<string>, apis: seq<string>) returns (ok: bool)
      requires Valid()
      modifies this`extData, this`extDupes, this`adds, allCmdNames
      ensures Valid()
      ensures Outcome(extensions, supported, apis, old(adds), ok, adds, extData, extDupes)
      ensures ok ==> forall c :: c in allCmdNames.names.All() <==>
        c in old(allCmdNames.names.All()) || exists e :: Demands(extensions, supported, apis, e, c)
      ensures ok ==> forall c :: c in allCmdNames.names.All() && c !in old(allCmdNames.names.All()) ==>
        exists e :: Demands(extensions, supported, apis, e, c)
          && c in allCmdNames.names.Get(AdditionOf(e, apis).annotation)
    {
      hide Outcome, Demands, Dealt, Collected, Sort, WantedOf, AllClassified, AdditionOf, Names.Added, Names.All;
      hide Within, Without;
      extDupes := map[];
      var wanted, annotations;
      ok, wanted, annotations := CollectExtensions(supported, apis);
      if !ok {
        OutcomeIs(extensions, supported, apis, adds, false, adds, extData, extDupes);
        return;
      }
      ghost var w := WantedOf(extensions, supported);
      var names := Sort(Lex, wanted);
      SortedNames(extensions, supported, names);
      NoneDealt(names, w, apis, adds, annotations, extData);
      ghost var before, collected := adds, extData;
      for k := 0 to |names|
        invariant Valid()
        invariant Dealt(names, k, w, apis, before, adds, extData, extDupes)
      {
        var name := names[k];
        DealtNext(names, k, w, apis, before, adds, extData, extDupes);
        AnnotationOf(w, apis, annotations, collected, name);
        var extCmdNames, dupes := FilterDuplicates(extData[name]);
        extData := extData[name := Sort(Lex, extCmdNames)];
        extDupes := extDupes[name := dupes];
        allCmdNames.AddCommands(annotations[name], extCmdNames);
        adds := adds + [AdditionOf(w.found[name], apis)];
      }
      OutcomeIs(extensions, supported, apis, before, true, adds, extData, extDupes);
      ListedAfter(extensions, supported, apis, before, adds, extData, extDupes);
    }
  }

  // ---- Steps of the loops ----

  ghost predicate AllClassified(exts: seq<Extension>, supported: seq<string>) {
    forall e :: e in exts && e.name in supported ==> ClassifySupport(e.supported).Some?
  }

  ghost predicate Collected(w: Wanted, apis: seq<string>, annotations: map<string, string>,
                            extData: map<string, seq<string>>) {
    && annotations.Keys == extData.Keys == w.found.Keys
    && forall n :: n in w.found ==>
      extData[n] == ListOf(w, n, apis) && annotations[n] == AdditionOf(w.found[n], apis).annotation
  }

  lemma NoneCollected(supported: seq<string>, apis: seq<string>)
    ensures AllClassified([], supported) && WantedOf([], supported) == Wanted([], map[])
    ensures Collected(WantedOf([], supported), apis, map[], map[])
  {}

  lemma CollectedNext(exts: seq<Extension>, e: Extension, supported: seq<string>, apis: seq<string>,
                      annotations: map<string, string>, extData: map<string, seq<string>>)
    requires Collected(WantedOf(exts, supported), apis, annotations, extData)
    ensures
      var w, support, w' := WantedOf(exts, supported), ClassifySupport(e.supported), WantedOf(exts + [e], supported);
      if e.name !in supported then w' == w
      else
        && w'.names == (if e.name in extData then w.names else w.names + [e.name])
        && (support.Some? ==>
          Collected(w', apis, annotations[e.name := support.value],
                    extData[e.name := Sort(Lex, CommandsOf(e.requires_, apis))]))
    ensures AllClassified(exts, supported) && (e.name in supported ==> ClassifySupport(e.supported).Some?) ==>
              AllClassified(exts + [e], supported)
  {
    hide ClassifySupport, Sort, CommandsOf;
    assert (exts + [e])[..|exts|] == exts;
  }

  lemma NotClassified(exts: seq<Extension>, i: nat, supported: seq<string>)
    requires i < |exts| && exts[i].name in supported && ClassifySupport(exts[i].supported).None?
    ensures !AllClassified(exts, supported)
  {
    assert exts[i] in exts;
  }

  lemma NothingWithin(all: seq<string>)
    ensures Within([], all) == []
  {}

  lemma {:induction false} WithinSnoc(s: seq<string>, x: string, all: seq<string>)
    ensures Within(s + [x], all) == Within(s, all) + if x in all then [x] else []
  {
    if s == [] {
      assert s + [x] == [x];
    } else {
      assert (s + [x])[1..] == s[1..] + [x];
      WithinSnoc(s[1..], x, all);
    }
  }

  lemma SortedNames(exts: seq<Extension>, supported: seq<string>, names: seq<string>)
    requires names == Sort(Lex, WantedOf(exts, supported).names)
    ensures NoDuplicates(names) && forall n :: n in names <==> n in WantedOf(exts, supported).found
  {
    var w := WantedOf(exts, supported);
    WantedValid(exts, supported);
    LexIsOrder();
    hide Sort, WantedOf;
    SortSorts(Lex, w.names);
    NoDuplicatesByMultiset(w.names, names);
    assert forall n :: n in names <==> n in multiset(names);
    assert forall n :: n in w.names <==> n in multiset(w.names);
  }

  lemma NoneDealt(names: seq<string>, w: Wanted, apis: seq<string>, adds: seq<Addition>,
                  annotations: map<string, string>, extData: map<string, seq<string>>)
    requires Collected(w, apis, annotations, extData) && forall n :: n in names <==> n in w.found
    ensures Dealt(names, 0, w, apis, adds, adds, extData, map[])
  {
    hide Sort, AdditionOf;
    assert names[..0] == [];
    assert adds + [] == adds;
  }

  lemma AnnotationOf(w: Wanted, apis: seq<string>, annotations: map<string, string>, extData: map<string, seq<string>>,
                     n: string)
    requires Collected(w, apis, annotations, extData) && n in w.found
    ensures n in annotations && annotations[n] == AdditionOf(w.found[n], apis).annotation
  {}

  // ---- The order of the file ----

  // How AddExtensionCommands may end.
  ghost predicate Outcome(exts: seq<Extension>, supported: seq<string>, apis: seq<string>, before: seq<Addition>,
                          ok: bool, adds: seq<Addition>, extData: map<string, seq<string>>,
                          extDupes: map<string, seq<string>>)
  {
    && (ok <==> AllClassified(exts, supported))
    && (!ok ==> adds == before)
    && var w := WantedOf(exts, supported);
      ok ==> Dealt(Sort(Lex, w.names), |Sort(Lex, w.names)|, w, apis, before, adds, extData, extDupes)
  }

  lemma OutcomeIs(exts: seq<Extension>, supported: seq<string>, apis: seq<string>, before: seq<Addition>,
                  ok: bool, adds: seq<Addition>, extData: map<string, seq<string>>,
                  extDupes: map<string, seq<string>>)
    requires ok <==> AllClassified(exts, supported)
    requires !ok ==> adds == before
    requires ok ==>
      var names, w := Sort(Lex, WantedOf(exts, supported).names), WantedOf(exts, supported);
      Dealt(names, |names|, w, apis, before, adds, extData, extDupes)
    ensures Outcome(exts, supported, apis, before, ok, adds, extData, extDupes)
  {}

  // An extension is wanted and has a require that counts and lists the command.
  ghost predicate Demands(exts: seq<Extension>, supported: seq<string>, apis: seq<string>, e: Extension, c: string) {
    IsWanted(exts, supported, e) && Requires(e.requires_, apis, c)
  }

  lemma ListedBy(exts: seq<Extension>, supported: seq<string>, apis: seq<string>, n: string, c: string)
    ensures var w := WantedOf(exts, supported);
      c in ListOf(w, n, apis) <==> n in w.found && Requires(w.found[n].requires_, apis, c)
  {
    var w := WantedOf(exts, supported);
    if n in w.found {
      var rs := w.found[n].requires_;
      CollectedIff(rs, apis);
      LexIsOrder();
      hide Sort, CommandsOf, Requires, TotalPreorder;
      SortSorts(Lex, CommandsOf(rs, apis));
      assert c in Sort(Lex, CommandsOf(rs, apis)) <==> c in multiset(Sort(Lex, CommandsOf(rs, apis)));
      assert c in CommandsOf(rs, apis) <==> c in multiset(CommandsOf(rs, apis));
    }
  }

  // The extensions the additions are made for are those wanted.
  lemma DemandedAt(exts: seq<Extension>, supported: seq<string>, apis: seq<string>, names: seq<string>, c: string)
    requires names == Sort(Lex, WantedOf(exts, supported).names)
    ensures var w := WantedOf(exts, supported);
      && (forall i :: 0 <= i < |names| && c in ListOf(w, names[i], apis) ==>
            names[i] in w.found && Demands(exts, supported, apis, w.found[names[i]], c))
      && (forall e :: Demands(exts, supported, apis, e, c) ==>
            exists i :: 0 <= i < |names| && c in ListOf(w, names[i], apis))
  {
    var w := WantedOf(exts, supported);
    WantedValid(exts, supported);
    SortedNames(exts, supported, names);
    hide Sort, WantedOf, ListOf, IsWanted, Requires;
    forall i | 0 <= i < |names| && c in ListOf(w, names[i], apis)
      ensures names[i] in w.found && Demands(exts, supported, apis, w.found[names[i]], c)
    {
      ListedBy(exts, supported, apis, names[i], c);
      WantedIff(exts, supported, w.found[names[i]]);
    }
    forall e | Demands(exts, supported, apis, e, c)
      ensures exists i :: 0 <= i < |names| && c in ListOf(w, names[i], apis)
    {
      WantedIff(exts, supported, e);
      ListedBy(exts, supported, apis, e.name, c);
      assert e.name in names;
    }
  }

  // Afterwards a command is listed exactly if it was before or a wanted extension demands it, and a new one under the
  // annotation of such an extension.
  lemma ListedAfter(exts: seq<Extension>, supported: seq<string>, apis: seq<string>, before: seq<Addition>,
                    adds: seq<Addition>, extData: map<string, seq<string>>, extDupes: map<string, seq<string>>)
    requires Outcome(exts, supported, apis, before, true, adds, extData, extDupes)
    ensures forall c :: c in State(adds).All() <==>
      c in State(before).All() || exists e :: Demands(exts, supported, apis, e, c)
    ensures forall c :: c in State(adds).All() && c !in State(before).All() ==>
      exists e :: Demands(exts, supported, apis, e, c) && c in State(adds).Get(AdditionOf(e, apis).annotation)
  {
    var w, names := WantedOf(exts, supported), Sort(Lex, WantedOf(exts, supported).names);
    assert names[..|names|] == names;
    assert adds == before + AdditionsFor(names, w.found, apis);
    hide Sort, WantedOf, State, Dealt, Outcome, Demands, Names.Get, Names.All, AdditionOf;
    forall c
      ensures c in State(adds).All() <==>
        c in State(before).All() || exists e :: Demands(exts, supported, apis, e, c)
      ensures c in State(adds).All() && c !in State(before).All() ==>
        exists e :: Demands(exts, supported, apis, e, c) && c in State(adds).Get(AdditionOf(e, apis).annotation)
    {
      ListedOne(exts, supported, apis, before, adds, names, c);
    }
  }

  lemma ListedOne(exts: seq<Extension>, supported: seq<string>, apis: seq<string>, before: seq<Addition>,
                  adds: seq<Addition>, names: seq<string>, c: string)
    requires names == Sort(Lex, WantedOf(exts, supported).names)
    requires adds == before + AdditionsFor(names, WantedOf(exts, supported).found, apis)
    ensures c in State(adds).All() <==>
      c in State(before).All() || exists e :: Demands(exts, supported, apis, e, c)
    ensures c in State(adds).All() && c !in State(before).All() ==>
      exists e :: Demands(exts, supported, apis, e, c) && c in State(adds).Get(AdditionOf(e, apis).annotation)
  {
    var w := WantedOf(exts, supported);
    CombinedList(adds);
    CombinedList(before);
    AdditionsForLength(names, w, apis);
    DemandedAt(exts, supported, apis, names, c);
    hide Sort, WantedOf, State, Demands, Names.All, ListOf, AdditionOf, AdditionsFor;
    var rest := AdditionsFor(names, w.found, apis);
    if e :| Demands(exts, supported, apis, e, c) {
      var i :| 0 <= i < |names| && c in ListOf(w, names[i], apis);
      assert adds[|before| + i] == rest[i];
    }
    if c in State(before).All() {
      var i :| 0 <= i < |before| && c in before[i].commands;
      assert adds[i] == before[i];
    }
    if c in State(adds).All() && c !in State(before).All() {
      var i := NewOwner(w, names, apis, before, adds, c);
      assert Demands(exts, supported, apis, w.found[names[i]], c);
    }
  }

  lemma NewOwner(w: Wanted, names: seq<string>, apis: seq<string>, before: seq<Addition>, adds: seq<Addition>,
                 c: string) returns (i: nat)
    requires adds == before + AdditionsFor(names, w.found, apis)
    requires c in State(adds).All() && c !in State(before).All()
    ensures i < |names| && names[i] in w.found && c in ListOf(w, names[i], apis) && Under(w, names[i], apis, adds, c)
  {
    var rest := AdditionsFor(names, w.found, apis);
    AdditionsForLength(names, w, apis);
    var o := OwnerAfter(before, rest, c);
    hide State, Names.All, AdditionOf, AdditionsFor, Names.Get, ListOf;
    i := o - |before|;
    assert adds[|before| + i] == rest[i];
    ListedNames(w, names[i], apis, c);
  }

  lemma OwnerAfter(before: seq<Addition>, rest: seq<Addition>, c: string) returns (o: nat)
    requires c in State(before + rest).All() && c !in State(before).All()
    ensures |before| <= o < |before + rest| && c in (before + rest)[o].commands
    ensures c in State(before + rest).Get((before + rest)[o].annotation)
  {
    CombinedList(before);
    OwnerHasIt(before + rest, c);
    OwnerIn(before + rest, c);
    hide State, Names.All, Names.Get, CountIn;
    OwnerBeyond(before, rest, c);
    OwnersCount(before + rest, c);
    o := Owner(before + rest, c);
  }

  lemma ListedNames(w: Wanted, n: string, apis: seq<string>, c: string)
    requires c in ListOf(w, n, apis)
    ensures n in w.found
  {}

  lemma OwnerBeyond(before: seq<Addition>, rest: seq<Addition>, c: string)
    requires forall i :: 0 <= i < |before| ==> c !in before[i].commands
    ensures Owner(before + rest, c) >= |before|
  {
    assert forall i :: 0 <= i < |before| ==> (before + rest)[i] == before[i];
  }

  lemma OwnersCount(adds: seq<Addition>, c: string)
    requires Owner(adds, c) < |adds|
    requires multiset(State(adds).Get(adds[Owner(adds, c)].annotation))[c] == CountIn(adds, c)
    ensures c in State(adds).Get(adds[Owner(adds, c)].annotation)
  {
    hide State, Names.Get;
    var o := Owner(adds, c);
    assert c in multiset(adds[o].commands);
    assert c in multiset(State(adds).Get(adds[o].annotation));
  }

  ghost predicate Under(w: Wanted, n: string, apis: seq<string>, adds: seq<Addition>, c: string)
    requires n in w.found
  {
    c in State(adds).Get(AdditionOf(w.found[n], apis).annotation)
  }

  // From the same additions, two files with the same extensions under unique names end alike: they fail alike, and add
  // the same commands, keep the same and drop the same.
  lemma OrderDoesNotMatter(exts: seq<Extension>, exts': seq<Extension>, supported: seq<string>, apis: seq<string>,
                           before: seq<Addition>, ok: bool, ok': bool, adds: seq<Addition>, adds': seq<Addition>,
                           extData: map<string, seq<string>>, extData': map<string, seq<string>>,
                           extDupes: map<string, seq<string>>, extDupes': map<string, seq<string>>)
    requires UniqueNames(exts) && UniqueNames(exts') && multiset(exts) == multiset(exts')
    requires Outcome(exts, supported, apis, before, ok, adds, extData, extDupes)
    requires Outcome(exts', supported, apis, before, ok', adds', extData', extDupes')
    ensures ok == ok' && adds == adds'
    ensures ok ==> extData == extData' && extDupes == extDupes'
  {
    SameSelection(exts, exts', supported);
    hide Sort, WantedOf, AllClassified, Dealt;
    if ok {
      var w, w' := WantedOf(exts, supported), WantedOf(exts', supported);
      DealtOfSame(Sort(Lex, w.names), w, w', apis, before, adds', extData', extDupes');
      DealtDetermines(Sort(Lex, w.names), w, apis, before, adds, adds', extData, extData', extDupes, extDupes');
    }
  }

  // The list of names is not used, but the table is.
  lemma DealtOfSame(names: seq<string>, w: Wanted, w': Wanted, apis: seq<string>, before: seq<Addition>,
                    adds: seq<Addition>, extData: map<string, seq<string>>, extDupes: map<string, seq<string>>)
    requires w.found == w'.found && Dealt(names, |names|, w', apis, before, adds, extData, extDupes)
    ensures Dealt(names, |names|, w, apis, before, adds, extData, extDupes)
  {
    hide Sort, State, Names.All, Within, Without;
  }

  lemma DealtDetermines(names: seq<string>, w: Wanted, apis: seq<string>, before: seq<Addition>,
                        adds: seq<Addition>, adds': seq<Addition>,
                        extData: map<string, seq<string>>, extData': map<string, seq<string>>,
                        extDupes: map<string, seq<string>>, extDupes': map<string, seq<string>>)
    requires Dealt(names, |names|, w, apis, before, adds, extData, extDupes)
    requires Dealt(names, |names|, w, apis, before, adds', extData', extDupes')
    ensures adds == adds' && extData == extData' && extDupes == extDupes'
  {
    hide Sort, KeptFrom, DupesFrom, ListOf, AdditionsFor;
    assert names[..|names|] == names;
    forall n | n in extData ensures extData[n] == extData'[n] && extDupes[n] == extDupes'[n] {
      var i :| 0 <= i < |names| && names[i] == n;
    }
    assert extData.Keys == extData'.Keys && extDupes.Keys == extDupes'.Keys;
  }
}
