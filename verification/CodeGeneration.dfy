/** run_code_generation.py: when the stored hashes agree with the files, and when a run makes them agree. */
module CodeGeneration {
  import opened Text

  type Files = map<string, string>
  type Hashes = map<string, string>

  // An entry of the generators table, with what auto_script reports for its script.
  datatype Generator = Generator(name: string, script: string, inputs: seq<string>, outputs: seq<string>)

  function Listed(g: Generator): seq<string> { g.inputs + g.outputs + [g.script] }

  // ---- get_hash_file_name ----

  function Mangle(name: string): string {
    seq(|name|, i requires 0 <= i < |name| => if name[i] == ' ' || name[i] == '/' then '_' else name[i])
  }

  function HashFileName(name: string): string { Mangle(name) + ".json" }

  // Two generators share a hash file exactly when their names differ only among space, slash and underscore.
  lemma HashFileNamesCollide(a: string, b: string)
    ensures HashFileName(a) == HashFileName(b) <==>
      |a| == |b| && forall i :: 0 <= i < |a| ==> a[i] == b[i] || (a[i] in " /_" && b[i] in " /_")
  {
    var x, y := HashFileName(a), HashFileName(b);
    assert x[..|x| - 5] == Mangle(a) && y[..|y| - 5] == Mangle(b);
    if |a| == |b| && forall i :: 0 <= i < |a| ==> a[i] == b[i] || (a[i] in " /_" && b[i] in " /_") {
      assert Mangle(a) == Mangle(b);
    }
    if x == y {
      assert Mangle(a) == Mangle(b);
      forall i | 0 <= i < |a| ensures a[i] == b[i] || (a[i] in " /_" && b[i] in " /_") {
        assert Mangle(a)[i] == Mangle(b)[i];
      }
    }
  }

  // The hash file is one file in the directory, whose name differs from the generator's in those characters only.
  lemma HashFileIsPlain(name: string)
    ensures '/' !in HashFileName(name) && ' ' !in HashFileName(name)
    ensures HashFileName(name) == name + ".json" <==> '/' !in name && ' ' !in name
  {
    var h := HashFileName(name);
    var end := ".json";
    assert '/' !in end && ' ' !in end;
    assert h[..|name|] == Mangle(name) && (name + end)[..|name|] == name;
    if h == name + end { assert Mangle(name) == name; }
    if '/' !in name && ' ' !in name { assert Mangle(name) == name; }
  }

  ghost predicate DistinctHashFiles(gens: seq<Generator>) {
    forall i, j :: 0 <= i < j < |gens| ==> HashFileName(gens[i].name) != HashFileName(gens[j].name)
  }

  // ---- Digests of the files ----

  function Digests(md5: string -> string, files: Files, names: seq<string>): Hashes {
    map f | f in names && f in files :: md5(files[f])
  }

  ghost predicate Stale(md5: string -> string, files: Files, names: seq<string>, stored: Hashes) {
    exists f :: f in names && (f !in files || f !in stored || stored[f] != md5(files[f]))
  }

  // all_new_hashes when every generator is checked against the same files; a later generator replaces
  // the table of an earlier one with the same hash file.
  function FreshTable(md5: string -> string, files: Files, gens: seq<Generator>): map<string, Hashes> {
    if gens == [] then map[]
    else
      var g := gens[|gens| - 1];
      FreshTable(md5, files, gens[..|gens| - 1])[HashFileName(g.name) := Digests(md5, files, Listed(g))]
  }

  function TableAt(stored: map<string, Hashes>, h: string): Hashes { if h in stored then stored[h] else map[] }

  // What --verify-no-dirty accepts.
  ghost predicate Clean(md5: string -> string, files: Files, stored: map<string, Hashes>, gens: seq<Generator>) {
    && (forall g :: g in gens ==> !Stale(md5, files, Listed(g), TableAt(stored, HashFileName(g.name))))
    && (forall h :: h in stored ==>
          h in FreshTable(md5, files, gens) && stored[h].Keys <= FreshTable(md5, files, gens)[h].Keys)
  }

  lemma {:induction false} FreshTableKeys(md5: string -> string, files: Files, gens: seq<Generator>)
    ensures forall h :: h in FreshTable(md5, files, gens) ==>
      exists g :: g in gens && HashFileName(g.name) == h
        && FreshTable(md5, files, gens)[h] == Digests(md5, files, Listed(g))
    ensures forall g :: g in gens ==> HashFileName(g.name) in FreshTable(md5, files, gens)
  {
    if gens != [] {
      var init, g := gens[..|gens| - 1], gens[|gens| - 1];
      assert gens == init + [g];
      FreshTableKeys(md5, files, init);
    }
  }

  lemma NotStale(md5: string -> string, files: Files, names: seq<string>, stored: Hashes)
    ensures !Stale(md5, files, names, stored) <==>
      (forall f :: f in names ==> f in files) && (forall f :: f in Digests(md5, files, names) ==>
        f in stored && stored[f] == Digests(md5, files, names)[f])
  {
    if (forall f :: f in names ==> f in files)
      && (forall f :: f in Digests(md5, files, names) ==> f in stored && stored[f] == Digests(md5, files, names)[f])
    {
      forall f | f in names ensures f in files && f in stored && stored[f] == md5(files[f]) {
        assert f in Digests(md5, files, names);
      }
    }
  }

  ghost predicate NoneMissing(files: Files, gens: seq<Generator>) {
    forall g, f :: g in gens && f in Listed(g) ==> f in files
  }

  // Generators that share a hash file list only files found in the stored table.
  ghost predicate SharedTablesAgree(md5: string -> string, files: Files, stored: map<string, Hashes>,
                                    gens: seq<Generator>) {
    forall g :: g in gens ==> Digests(md5, files, Listed(g)).Keys <= TableAt(stored, HashFileName(g.name)).Keys
  }

  lemma CleanImpliesEqual(md5: string -> string, files: Files, stored: map<string, Hashes>, gens: seq<Generator>)
    requires Clean(md5, files, stored, gens)
    ensures NoneMissing(files, gens) && stored == FreshTable(md5, files, gens)
      && SharedTablesAgree(md5, files, stored, gens)
  {
    hide Stale, Listed, HashFileName, Digests, FreshTable;
    var table := FreshTable(md5, files, gens);
    FreshTableKeys(md5, files, gens);
    forall g | g in gens {
      NotStale(md5, files, Listed(g), TableAt(stored, HashFileName(g.name)));
    }
    forall h | h in table ensures h in stored && stored[h] == table[h] {
      var g :| g in gens && HashFileName(g.name) == h && table[h] == Digests(md5, files, Listed(g));
      ScriptIsListed(md5, files, g);
      NotStale(md5, files, Listed(g), TableAt(stored, h));
      assert h in stored;
      assert stored[h].Keys == table[h].Keys;
    }
  }

  lemma ScriptIsListed(md5: string -> string, files: Files, g: Generator)
    ensures g.script in Listed(g)
    ensures g.script in files ==> g.script in Digests(md5, files, Listed(g))
  {}

  lemma EqualImpliesClean(md5: string -> string, files: Files, stored: map<string, Hashes>, gens: seq<Generator>)
    requires NoneMissing(files, gens) && stored == FreshTable(md5, files, gens)
      && SharedTablesAgree(md5, files, stored, gens)
    ensures Clean(md5, files, stored, gens)
  {
    FreshTableKeys(md5, files, gens);
    forall g | g in gens ensures !Stale(md5, files, Listed(g), TableAt(stored, HashFileName(g.name))) {
      var h := HashFileName(g.name);
      var g' :| g' in gens && HashFileName(g'.name) == h && stored[h] == Digests(md5, files, Listed(g'));
      forall f | f in Listed(g) ensures f in files && f in stored[h] && stored[h][f] == md5(files[f]) {
        assert f in Digests(md5, files, Listed(g));
      }
    }
  }

  // Verification accepts exactly when no listed file is missing and the stored tables are the fresh
  // ones key for key.
  lemma CleanIffEqual(md5: string -> string, files: Files, stored: map<string, Hashes>, gens: seq<Generator>)
    ensures Clean(md5, files, stored, gens) <==>
      NoneMissing(files, gens) && stored == FreshTable(md5, files, gens) && SharedTablesAgree(md5, files, stored, gens)
    ensures DistinctHashFiles(gens) ==>
      (Clean(md5, files, stored, gens) <==> NoneMissing(files, gens) && stored == FreshTable(md5, files, gens))
  {
    hide Clean, FreshTable;
    if Clean(md5, files, stored, gens) {
      CleanImpliesEqual(md5, files, stored, gens);
    }
    if NoneMissing(files, gens) && stored == FreshTable(md5, files, gens) {
      if DistinctHashFiles(gens) {
        FreshTableKeys(md5, files, gens);
      }
      if SharedTablesAgree(md5, files, stored, gens) {
        EqualImpliesClean(md5, files, stored, gens);
      }
    }
  }

  // Once it accepts, it goes on accepting exactly as long as no input, output or script of a generator is lost or gets
  // another hash, whatever happens to other files.
  lemma VerificationSees(md5: string -> string, files: Files, files': Files, stored: map<string, Hashes>,
                         gens: seq<Generator>)
    requires Clean(md5, files, stored, gens)
    ensures Clean(md5, files', stored, gens) <==>
      forall g, f :: g in gens && (f in g.inputs || f in g.outputs || f == g.script) ==>
        f in files && f in files' && md5(files'[f]) == md5(files[f])
  {
    ListedOf(gens);
    if SameListed(md5, files, files', gens) { StaysClean(md5, files, files', stored, gens); }
    if Clean(md5, files', stored, gens) {
      hide Listed, HashFileName, FreshTable, Stale;
      forall g, f | g in gens && f in Listed(g)
        ensures f in files && f in files' && md5(files'[f]) == md5(files[f])
      {
        StoredHash(md5, files, Listed(g), TableAt(stored, HashFileName(g.name)), f);
        StoredHash(md5, files', Listed(g), TableAt(stored, HashFileName(g.name)), f);
      }
    }
    hide Clean, Listed;
  }

  ghost predicate SameListed(md5: string -> string, files: Files, files': Files, gens: seq<Generator>) {
    forall g, f :: g in gens && f in Listed(g) ==> f in files && f in files' && md5(files'[f]) == md5(files[f])
  }

  lemma ListedOf(gens: seq<Generator>)
    ensures forall g, f :: g in gens ==> (f in Listed(g) <==> f in g.inputs || f in g.outputs || f == g.script)
  {}

  lemma StaysClean(md5: string -> string, files: Files, files': Files, stored: map<string, Hashes>,
                   gens: seq<Generator>)
    requires Clean(md5, files, stored, gens) && SameListed(md5, files, files', gens)
    ensures Clean(md5, files', stored, gens)
  {
    hide Listed, HashFileName, FreshTable, Stale;
    SameFresh(md5, files, files', gens);
    forall g | g in gens ensures !Stale(md5, files', Listed(g), TableAt(stored, HashFileName(g.name))) {
      NotStaleBySame(md5, files, files', Listed(g), TableAt(stored, HashFileName(g.name)));
    }
  }

  lemma NotStaleBySame(md5: string -> string, files: Files, files': Files, names: seq<string>, stored: Hashes)
    requires !Stale(md5, files, names, stored)
    requires forall f :: f in names ==> f in files && f in files' && md5(files'[f]) == md5(files[f])
    ensures !Stale(md5, files', names, stored)
  {}

  lemma StoredHash(md5: string -> string, files: Files, names: seq<string>, stored: Hashes, f: string)
    requires !Stale(md5, files, names, stored) && f in names
    ensures f in files && f in stored && stored[f] == md5(files[f])
  {}

  lemma {:induction false} SameFresh(md5: string -> string, files: Files, files': Files, gens: seq<Generator>)
    requires forall g, f :: g in gens && f in Listed(g) ==> f in files && f in files' && md5(files'[f]) == md5(files[f])
    ensures FreshTable(md5, files, gens) == FreshTable(md5, files', gens)
  {
    hide Listed, HashFileName;
    if gens != [] {
      var g := gens[|gens| - 1];
      assert g in gens;
      SameFresh(md5, files, files', gens[..|gens| - 1]);
      assert Digests(md5, files, Listed(g)) == Digests(md5, files', Listed(g));
    }
  }

  // ---- The loops over the dictionaries ----

  lemma CheckOneMore(md5: string -> string, files: Files, names: seq<string>, stored: Hashes, f: string)
    ensures Stale(md5, files, names + [f], stored) <==>
      Stale(md5, files, names, stored) || f !in files || f !in stored || stored[f] != md5(files[f])
    ensures Digests(md5, files, names + [f]) ==
      if f in files then Digests(md5, files, names)[f := md5(files[f])] else Digests(md5, files, names)
  {}

  lemma CheckNone(md5: string -> string, files: Files, stored: Hashes)
    ensures !Stale(md5, files, [], stored) && Digests(md5, files, []) == map[]
  {}

  method AnyHashDirty(md5: string -> string, files: Files, filenames: seq<string>, oldHashes: Hashes)
    returns (dirty: bool, newHashes: Hashes)
    ensures dirty <==> Stale(md5, files, filenames, oldHashes)
    ensures newHashes == Digests(md5, files, filenames)
  {
    CheckNone(md5, files, oldHashes);
    hide Stale, Digests;
    dirty, newHashes := false, map[];
    var i := 0;
    while i < |filenames|
      invariant 0 <= i <= |filenames|
      invariant dirty <==> Stale(md5, files, filenames[..i], oldHashes)
      invariant newHashes == Digests(md5, files, filenames[..i])
    {
      var f := filenames[i];
      assert filenames[..i + 1] == filenames[..i] + [f];
      CheckOneMore(md5, files, filenames[..i], oldHashes, f);
      if f !in files {
        dirty := true;
      } else {
        newHashes := newHashes[f := md5(files[f])];
        if f !in oldHashes || oldHashes[f] != newHashes[f] {
          dirty := true;
        }
      }
      i := i + 1;
    }
    assert filenames[..i] == filenames;
  }

  ghost predicate KeyMissing(allNew: map<string, Hashes>, h: string, oldHashes: Hashes) {
    h !in allNew || exists f :: f in oldHashes && f !in allNew[h]
  }

  method AnyOldHashMissing(allNew: map<string, Hashes>, allOld: map<string, Hashes>) returns (missing: bool)
    ensures missing <==> exists h :: h in allOld && KeyMissing(allNew, h, allOld[h])
  {
    missing := false;
    var rest := allOld.Keys;
    while rest != {}
      invariant rest <= allOld.Keys
      invariant missing <==> exists h :: h in allOld.Keys - rest && KeyMissing(allNew, h, allOld[h])
    {
      var h :| h in rest;
      ghost var before := allOld.Keys - rest;
      rest := rest - {h};
      assert allOld.Keys - rest == before + {h};
      if h !in allNew {
        missing := true;
      } else {
        var names := allOld[h].Keys;
        while names != {}
          invariant names <= allOld[h].Keys
          invariant missing <==> ((exists g :: g in before && KeyMissing(allNew, g, allOld[g]))
                                  || exists f :: f in allOld[h].Keys - names && f !in allNew[h])
        {
          var f :| f in names;
          if f !in allNew[h] {
            missing := true;
          }
          names := names - {f};
        }
      }
    }
  }

  function WithOutputs(md5: string -> string, files: Files, outputs: seq<string>, hashes: Hashes): Hashes {
    hashes + Digests(md5, files, outputs)
  }

  lemma WithOneMore(md5: string -> string, files: Files, outputs: seq<string>, hashes: Hashes, o: string)
    requires o in files
    ensures WithOutputs(md5, files, outputs + [o], hashes) ==
      WithOutputs(md5, files, outputs, hashes)[o := md5(files[o])]
  {}

  lemma WithNone(md5: string -> string, files: Files, hashes: Hashes)
    ensures WithOutputs(md5, files, [], hashes) == hashes
  {}

  // False when an output is missing, where the script exits with status 1.
  method UpdateOutputHashes(md5: string -> string, files: Files, outputs: seq<string>, newHashes: Hashes)
    returns (ok: bool, updated: Hashes)
    ensures ok <==> forall o :: o in outputs ==> o in files
    ensures ok ==> updated == WithOutputs(md5, files, outputs, newHashes)
  {
    hide WithOutputs;
    WithNone(md5, files, newHashes);
    updated := newHashes;
    var i := 0;
    while i < |outputs|
      invariant 0 <= i <= |outputs|
      invariant forall o :: o in outputs[..i] ==> o in files
      invariant updated == WithOutputs(md5, files, outputs[..i], newHashes)
    {
      assert outputs[..i + 1] == outputs[..i] + [outputs[i]];
      if outputs[i] !in files {
        return false, updated;
      }
      WithOneMore(md5, files, outputs[..i], newHashes, outputs[i]);
      updated := updated[outputs[i] := md5(files[outputs[i]])];
      i := i + 1;
    }
    assert outputs[..i] == outputs;
    return true, updated;
  }

  // ---- main ----

  ghost predicate StaleAt(md5: string -> string, gens: seq<Generator>, stored: map<string, Hashes>, snaps: seq<Files>,
                          i: nat)
    requires i < |gens| && i < |snaps|
  {
    Stale(md5, snaps[i], Listed(gens[i]), TableAt(stored, HashFileName(gens[i].name)))
  }

  // Generator i is checked against the files snaps[i]; unless only verifying, a stale one is run
  // before the next is checked.
  ghost predicate IsTrace(md5: string -> string, generate: (Generator, Files) -> Option<Files>, verifyOnly: bool,
                          gens: seq<Generator>, stored: map<string, Hashes>, snaps: seq<Files>)
  {
    && 0 < |snaps| <= |gens| + 1
    && forall i :: 0 <= i < |snaps| - 1 ==>
         if StaleAt(md5, gens, stored, snaps, i) && !verifyOnly
         then generate(gens[i], snaps[i]) == Some(snaps[i + 1])
         else snaps[i + 1] == snaps[i]
  }

  // all_new_hashes after the first loop.
  function CheckedTable(md5: string -> string, gens: seq<Generator>, snaps: seq<Files>): map<string, Hashes>
    requires |gens| <= |snaps|
  {
    if gens == [] then map[]
    else
      var n := |gens| - 1;
      CheckedTable(md5, gens[..n], snaps)[HashFileName(gens[n].name) := Digests(md5, snaps[n], Listed(gens[n]))]
  }

  // all_new_hashes after update_output_hashes has been applied for every generator.
  function UpdatedTable(md5: string -> string, gens: seq<Generator>, files: Files,
                        table: map<string, Hashes>): map<string, Hashes>
  {
    if gens == [] then table
    else
      var n := |gens| - 1;
      var t, h := UpdatedTable(md5, gens[..n], files, table), HashFileName(gens[n].name);
      t[h := WithOutputs(md5, files, gens[n].outputs, TableAt(t, h))]
  }

  // The dictionaries of the first loop after i generators.
  ghost predicate CheckedSoFar(md5: string -> string, gens: seq<Generator>, stored: map<string, Hashes>,
                               snaps: seq<Files>, i: nat, anyDirty: bool, allOld: map<string, Hashes>,
                               allNew: map<string, Hashes>)
    requires i <= |gens| && i < |snaps|
  {
    && allNew == CheckedTable(md5, gens[..i], snaps)
    && (anyDirty <==> exists j :: 0 <= j < i && StaleAt(md5, gens, stored, snaps, j))
    && OldSoFar(gens, stored, i, allOld)
  }

  ghost predicate OldSoFar(gens: seq<Generator>, stored: map<string, Hashes>, i: nat, allOld: map<string, Hashes>)
    requires i <= |gens|
  {
    && (forall h :: h in allOld <==> h in stored || exists j :: 0 <= j < i && h == HashFileName(gens[j].name))
    && (forall h :: h in allOld ==> allOld[h] == TableAt(stored, h))
  }

  lemma OldStep(gens: seq<Generator>, stored: map<string, Hashes>, i: nat, allOld: map<string, Hashes>)
    requires i < |gens| && OldSoFar(gens, stored, i, allOld)
    ensures var h := HashFileName(gens[i].name); OldSoFar(gens, stored, i + 1, allOld[h := TableAt(stored, h)])
  {
    hide HashFileName;
  }

  lemma CheckStep(md5: string -> string, gens: seq<Generator>, stored: map<string, Hashes>, snaps: seq<Files>,
                  next: Files, i: nat, anyDirty: bool, allOld: map<string, Hashes>, allNew: map<string, Hashes>)
    requires i < |gens| && |snaps| == i + 1
    requires CheckedSoFar(md5, gens, stored, snaps, i, anyDirty, allOld, allNew)
    ensures var h := HashFileName(gens[i].name);
            CheckedSoFar(md5, gens, stored, snaps + [next], i + 1, anyDirty || StaleAt(md5, gens, stored, snaps, i),
                         allOld[h := TableAt(stored, h)], allNew[h := Digests(md5, snaps[i], Listed(gens[i]))])
  {
    hide Stale, HashFileName, Digests, Listed, OldSoFar;
    assert gens[..i + 1] == gens[..i] + [gens[i]];
    OldStep(gens, stored, i, allOld);
    CheckedTableSnoc(md5, gens[..i], snaps, next);
    CheckedTableStep(md5, gens[..i], gens[i], snaps + [next]);
    assert forall j :: 0 <= j <= i ==>
      (StaleAt(md5, gens, stored, snaps + [next], j) <==> StaleAt(md5, gens, stored, snaps, j));
  }

  lemma TraceStep(md5: string -> string, generate: (Generator, Files) -> Option<Files>, verifyOnly: bool,
                  gens: seq<Generator>, stored: map<string, Hashes>, snaps: seq<Files>, next: Files)
    requires IsTrace(md5, generate, verifyOnly, gens, stored, snaps) && |snaps| <= |gens|
    requires var i := |snaps| - 1;
             if StaleAt(md5, gens, stored, snaps, i) && !verifyOnly then generate(gens[i], snaps[i]) == Some(next)
               else next == snaps[i]
    ensures IsTrace(md5, generate, verifyOnly, gens, stored, snaps + [next])
  {
    var more := snaps + [next];
    forall i | 0 <= i < |more| - 1
      ensures if StaleAt(md5, gens, stored, more, i) && !verifyOnly
              then generate(gens[i], more[i]) == Some(more[i + 1]) else more[i + 1] == more[i]
    {
      assert StaleAt(md5, gens, stored, more, i) <==> StaleAt(md5, gens, stored, snaps, i);
    }
  }

  class Workspace {
    const gens: seq<Generator>
    const md5: string -> string
    const generate: (Generator, Files) -> Option<Files>
    const format: Files -> Files
    var files: Files
    var stored: map<string, Hashes>

    constructor (gens: seq<Generator>, md5: string -> string, generate: (Generator, Files) -> Option<Files>,
                 format: Files -> Files, files: Files, stored: map<string, Hashes>)
      ensures this.gens == gens && this.md5 == md5 && this.generate == generate && this.format == format
      ensures this.files == files && this.stored == stored
    {
      this.gens, this.md5, this.generate, this.format, this.files, this.stored :=
        gens, md5, generate, format, files, stored;
    }

    // The first loop of main. It fails when a generator does.
    method CheckAll(verifyOnly: bool)
      returns (ok: bool, anyDirty: bool, allOld: map<string, Hashes>, allNew: map<string, Hashes>,
               ghost snaps: seq<Files>)
      modifies this`files
      ensures IsTrace(md5, generate, verifyOnly, gens, stored, snaps) && snaps[0] == old(files)
      ensures verifyOnly ==> ok
      ensures files == snaps[|snaps| - 1]
      ensures ok ==> |snaps| == |gens| + 1
      ensures !ok ==> GeneratorFails(md5, generate, gens, stored, snaps)
      ensures ok ==> CheckedSoFar(md5, gens, stored, snaps, |gens|, anyDirty, allOld, allNew)
    {
      hide Listed, HashFileName, Stale, Digests, CheckedSoFar, IsTrace;
      anyDirty, allOld, allNew, snaps := false, stored, map[], [files];
      NothingChecked(verifyOnly);
      var i := 0;
      while i < |gens|
        invariant 0 <= i <= |gens| && |snaps| == i + 1 && files == snaps[i] && snaps[0] == old(files)
        invariant IsTrace(md5, generate, verifyOnly, gens, stored, snaps)
        invariant CheckedSoFar(md5, gens, stored, snaps, i, anyDirty, allOld, allNew)
      {
        var g := gens[i];
        var h := HashFileName(g.name);
        OldTables(md5, gens, stored, snaps, i, anyDirty, allOld, allNew);
        ghost var checked, before := files, allOld;
        if h !in allOld {
          allOld := allOld[h := map[]];
        }
        var dirty, newHashes := AnyHashDirty(md5, files, Listed(g), allOld[h]);
        if dirty && !verifyOnly {
          var result := generate(g, files);
          if result.None? {
            StaleNow(stored, snaps, i, files, dirty);
            return false, true, allOld, allNew, snaps;
          }
          files := result.value;
        }
        assert allOld == before[h := TableAt(stored, h)];
        TraceStep(md5, generate, verifyOnly, gens, stored, snaps, files);
        CheckStep(md5, gens, stored, snaps, files, i, anyDirty, before, allNew);
        anyDirty, allNew, snaps := anyDirty || dirty, allNew[h := newHashes], snaps + [files];
        i := i + 1;
      }
      ok := true;
    }

    // main, with the exit status. Verification and failure leave the stored hashes alone. A normal run that finds
    // something dirty completes or is stopped, by a generator that fails or an output that is missing, and that is
    // decided by the state it starts from.
    method Run(verifyOnly: bool) returns (status: int, ghost snaps: seq<Files>)
      modifies this`files, this`stored
      ensures status == 0 || status == 1
      ensures verifyOnly ==> files == old(files) && (status == 0 <==> Clean(md5, files, stored, gens))
      ensures verifyOnly || status == 1 ==> stored == old(stored)
      ensures !verifyOnly && status == 0 && Clean(md5, old(files), old(stored), gens) ==>
        files == old(files) && stored == old(stored)
      ensures !verifyOnly && status == 0 && !Clean(md5, old(files), old(stored), gens) ==>
        Completed(md5, generate, format, gens, old(files), old(stored), snaps, files, stored)
      ensures !verifyOnly && status == 1 ==>
        && !Clean(md5, old(files), old(stored), gens)
        && Stopped(md5, generate, format, gens, old(files), old(stored), snaps, files)
      ensures !verifyOnly ==>
        (status == 0 <==>
          || Clean(md5, old(files), old(stored), gens)
          || exists run :: Completes(md5, generate, format, gens, old(files), old(stored), run))
    {
      hide Stopped, GeneratorFails, Completed, Completes;
      hide Clean, CheckedSoFar, IsTrace, Digests, FreshTable, CheckedTable, UpdatedTable, KeyMissing;
      var ok, anyDirty, allOld, allNew;
      ok, anyDirty, allOld, allNew, snaps := CheckAll(verifyOnly);
      if !ok {
        if !verifyOnly {
          StoppedByGenerator(md5, generate, format, gens, old(files), stored, snaps);
        }
        return 1, snaps;
      }
      var missing := AnyOldHashMissing(allNew, allOld);
      DirtyIffNotClean(md5, generate, verifyOnly, gens, stored, snaps, anyDirty, allOld, allNew);
      TableChecked(snaps, anyDirty, allOld, allNew);
      anyDirty := anyDirty || missing;
      if verifyOnly {
        return if anyDirty then 1 else 0, snaps;
      }
      if anyDirty {
        files := format(files);
        var updated;
        ok, updated := UpdateAll(allNew);
        if !ok {
          StoppedByOutput(md5, generate, format, gens, old(files), stored, snaps);
          return 1, snaps;
        }
        stored := stored + updated;
        CompletedIf(md5, generate, format, gens, old(files), old(stored), snaps, files, stored);
      }
      return 0, snaps;
    }

    // The second loop over the generators.
    method UpdateAll(allNew: map<string, Hashes>) returns (ok: bool, updated: map<string, Hashes>)
      ensures ok <==> forall g, o :: g in gens && o in g.outputs ==> o in files
      ensures ok ==> updated == UpdatedTable(md5, gens, files, allNew)
    {
      hide Digests, WithOutputs;
      updated := allNew;
      var i := 0;
      while i < |gens|
        invariant 0 <= i <= |gens|
        invariant forall g, o :: g in gens[..i] && o in g.outputs ==> o in files
        invariant updated == UpdatedTable(md5, gens[..i], files, allNew)
      {
        var g := gens[i];
        assert gens[..i + 1] == gens[..i] + [g] && gens[..i + 1][..i] == gens[..i];
        var h := HashFileName(g.name);
        var done, hashes := UpdateOutputHashes(md5, files, g.outputs, TableAt(updated, h));
        if !done {
          return false, updated;
        }
        updated := updated[h := hashes];
        i := i + 1;
      }
      assert gens[..i] == gens;
      ok := true;
    }

    lemma TableChecked(snaps: seq<Files>, anyDirty: bool, allOld: map<string, Hashes>, allNew: map<string, Hashes>)
      requires |snaps| == |gens| + 1
      requires CheckedSoFar(md5, gens, stored, snaps, |gens|, anyDirty, allOld, allNew)
      ensures allNew == CheckedTable(md5, gens, snaps)
    {
      assert gens[..|gens|] == gens;
    }

    lemma StaleNow(stored: map<string, Hashes>, snaps: seq<Files>, i: nat, files: Files, dirty: bool)
      requires i < |gens| && |snaps| == i + 1 && snaps[i] == files && generate(gens[i], files).None?
      requires Stale(md5, files, Listed(gens[i]), TableAt(stored, HashFileName(gens[i].name)))
      ensures GeneratorFails(md5, generate, gens, stored, snaps)
    {}

    lemma NothingChecked(verifyOnly: bool)
      ensures CheckedSoFar(md5, gens, stored, [files], 0, false, stored, map[])
      ensures IsTrace(md5, generate, verifyOnly, gens, stored, [files])
    {}
  }

  lemma OldTables(md5: string -> string, gens: seq<Generator>, stored: map<string, Hashes>, snaps: seq<Files>, i: nat,
                  anyDirty: bool, allOld: map<string, Hashes>, allNew: map<string, Hashes>)
    requires i < |gens| && i < |snaps|
    requires CheckedSoFar(md5, gens, stored, snaps, i, anyDirty, allOld, allNew)
    ensures forall h :: h in allOld ==> allOld[h] == TableAt(stored, h)
    ensures forall h :: h in stored ==> h in allOld
  {}

  lemma CheckedTableStep(md5: string -> string, gens: seq<Generator>, g: Generator, snaps: seq<Files>)
    requires |gens| < |snaps|
    ensures CheckedTable(md5, gens + [g], snaps)
         == CheckedTable(md5, gens, snaps)[HashFileName(g.name) := Digests(md5, snaps[|gens|], Listed(g))]
  {
    assert (gens + [g])[..|gens|] == gens;
  }

  lemma {:induction false} CheckedTableSnoc(md5: string -> string, gens: seq<Generator>, snaps: seq<Files>,
                                            files: Files)
    requires |gens| <= |snaps|
    ensures CheckedTable(md5, gens, snaps + [files]) == CheckedTable(md5, gens, snaps)
  {
    if gens != [] {
      CheckedTableSnoc(md5, gens[..|gens| - 1], snaps, files);
    }
  }

  // A run that found something dirty and finished.
  ghost predicate Completed(md5: string -> string, generate: (Generator, Files) -> Option<Files>,
                            format: Files -> Files, gens: seq<Generator>, files: Files, stored: map<string, Hashes>,
                            snaps: seq<Files>, files': Files, stored': map<string, Hashes>)
  {
    && IsTrace(md5, generate, false, gens, stored, snaps) && |snaps| == |gens| + 1 && snaps[0] == files
    && files' == format(snaps[|gens|])
    && (forall g, o :: g in gens && o in g.outputs ==> o in files')
    && stored' == stored + UpdatedTable(md5, gens, files', CheckedTable(md5, gens, snaps))
  }

  // The generator of the last snapshot is stale, and fails.
  ghost predicate GeneratorFails(md5: string -> string, generate: (Generator, Files) -> Option<Files>,
                                 gens: seq<Generator>, stored: map<string, Hashes>, snaps: seq<Files>)
  {
    var i := |snaps| - 1;
    0 <= i < |gens| && StaleAt(md5, gens, stored, snaps, i) && generate(gens[i], snaps[i]).None?
  }

  // A run that found something dirty and was stopped: by a generator, or by an output missing after formatting.
  ghost predicate Stopped(md5: string -> string, generate: (Generator, Files) -> Option<Files>,
                          format: Files -> Files, gens: seq<Generator>, files: Files, stored: map<string, Hashes>,
                          snaps: seq<Files>, files': Files)
  {
    && IsTrace(md5, generate, false, gens, stored, snaps) && snaps[0] == files
    && if |snaps| <= |gens| then GeneratorFails(md5, generate, gens, stored, snaps) && files' == snaps[|snaps| - 1]
       else files' == format(snaps[|gens|]) && exists g, o :: g in gens && o in g.outputs && o !in files'
  }

  // How a completed run goes and ends.
  datatype Course = Course(snaps: seq<Files>, files': Files, stored': map<string, Hashes>)

  ghost predicate Completes(md5: string -> string, generate: (Generator, Files) -> Option<Files>,
                            format: Files -> Files, gens: seq<Generator>, files: Files, stored: map<string, Hashes>,
                            run: Course)
  {
    Completed(md5, generate, format, gens, files, stored, run.snaps, run.files', run.stored')
  }

  lemma CompletedIf(md5: string -> string, generate: (Generator, Files) -> Option<Files>, format: Files -> Files,
                    gens: seq<Generator>, files: Files, stored: map<string, Hashes>, snaps: seq<Files>, files': Files,
                    stored': map<string, Hashes>)
    requires IsTrace(md5, generate, false, gens, stored, snaps) && |snaps| == |gens| + 1 && snaps[0] == files
    requires files' == format(snaps[|gens|]) && forall g, o :: g in gens && o in g.outputs ==> o in files'
    requires stored' == stored + UpdatedTable(md5, gens, files', CheckedTable(md5, gens, snaps))
    ensures Completed(md5, generate, format, gens, files, stored, snaps, files', stored')
    ensures exists run :: Completes(md5, generate, format, gens, files, stored, run)
  {
    hide IsTrace, UpdatedTable, CheckedTable;
    assert Completes(md5, generate, format, gens, files, stored, Course(snaps, files', stored'));
  }

  lemma StoppedByGenerator(md5: string -> string, generate: (Generator, Files) -> Option<Files>,
                           format: Files -> Files, gens: seq<Generator>, files: Files, stored: map<string, Hashes>,
                           snaps: seq<Files>)
    requires IsTrace(md5, generate, false, gens, stored, snaps) && snaps[0] == files
    requires GeneratorFails(md5, generate, gens, stored, snaps)
    ensures Stopped(md5, generate, format, gens, files, stored, snaps, snaps[|snaps| - 1])
    ensures !Clean(md5, files, stored, gens)
    ensures forall run :: !Completes(md5, generate, format, gens, files, stored, run)
  {
    FailureIsDirty(md5, generate, gens, stored, snaps);
    NotBoth(md5, generate, format, gens, files, stored, snaps, snaps[|snaps| - 1]);
  }

  lemma StoppedByOutput(md5: string -> string, generate: (Generator, Files) -> Option<Files>, format: Files -> Files,
                        gens: seq<Generator>, files: Files, stored: map<string, Hashes>, snaps: seq<Files>)
    requires IsTrace(md5, generate, false, gens, stored, snaps) && |snaps| == |gens| + 1 && snaps[0] == files
    requires exists g, o :: g in gens && o in g.outputs && o !in format(snaps[|gens|])
    ensures Stopped(md5, generate, format, gens, files, stored, snaps, format(snaps[|gens|]))
    ensures forall run :: !Completes(md5, generate, format, gens, files, stored, run)
  {
    NotBoth(md5, generate, format, gens, files, stored, snaps, format(snaps[|gens|]));
  }

  lemma FailureIsDirty(md5: string -> string, generate: (Generator, Files) -> Option<Files>, gens: seq<Generator>,
                       stored: map<string, Hashes>, snaps: seq<Files>)
    requires IsTrace(md5, generate, false, gens, stored, snaps) && GeneratorFails(md5, generate, gens, stored, snaps)
    ensures !Clean(md5, snaps[0], stored, gens)
  {
    hide Stale, IsTrace;
    var i := |snaps| - 1;
    if exists j :: 0 <= j < i && StaleAt(md5, gens, stored, snaps, j) {
      i := FirstStale(md5, generate, false, gens, stored, snaps, i);
    } else {
      QuietTrace(md5, generate, false, gens, stored, snaps, i);
    }
    assert gens[i] in gens;
  }

  // Two traces from the same state are the same as far as both go.
  lemma {:induction false} SameTrace(md5: string -> string, generate: (Generator, Files) -> Option<Files>,
                                     gens: seq<Generator>, stored: map<string, Hashes>, s: seq<Files>, t: seq<Files>,
                                     i: nat)
    requires IsTrace(md5, generate, false, gens, stored, s) && IsTrace(md5, generate, false, gens, stored, t)
    requires s[0] == t[0] && i < |s| && i < |t|
    ensures s[i] == t[i]
  {
    if i > 0 {
      SameTrace(md5, generate, gens, stored, s, t, i - 1);
      assert StaleAt(md5, gens, stored, s, i - 1) <==> StaleAt(md5, gens, stored, t, i - 1);
      assert if StaleAt(md5, gens, stored, s, i - 1) && !false
             then generate(gens[i - 1], s[i - 1]) == Some(s[i - 1 + 1]) else s[i - 1 + 1] == s[i - 1];
      assert if StaleAt(md5, gens, stored, t, i - 1) && !false
             then generate(gens[i - 1], t[i - 1]) == Some(t[i - 1 + 1]) else t[i - 1 + 1] == t[i - 1];
    }
  }

  lemma GeneratorRan(md5: string -> string, generate: (Generator, Files) -> Option<Files>, gens: seq<Generator>,
                     stored: map<string, Hashes>, snaps: seq<Files>, i: nat)
    requires IsTrace(md5, generate, false, gens, stored, snaps) && i < |snaps| - 1
    ensures StaleAt(md5, gens, stored, snaps, i) ==> generate(gens[i], snaps[i]).Some?
  {
    assert if StaleAt(md5, gens, stored, snaps, i) && !false
           then generate(gens[i], snaps[i]) == Some(snaps[i + 1]) else snaps[i + 1] == snaps[i];
  }

  // From where a run is stopped none completes.
  lemma NotBoth(md5: string -> string, generate: (Generator, Files) -> Option<Files>, format: Files -> Files,
                gens: seq<Generator>, files: Files, stored: map<string, Hashes>, snaps: seq<Files>, files': Files)
    requires Stopped(md5, generate, format, gens, files, stored, snaps, files')
    ensures forall run :: !Completes(md5, generate, format, gens, files, stored, run)
  {
    hide Stale, UpdatedTable, CheckedTable, IsTrace;
    forall run ensures !Completes(md5, generate, format, gens, files, stored, run) {
      var i, t := |snaps| - 1, run.snaps;
      if IsTrace(md5, generate, false, gens, stored, t) && |t| == |gens| + 1 && t[0] == files {
        TraceLength(md5, generate, gens, stored, snaps);
        SameTrace(md5, generate, gens, stored, snaps, t, i);
        if i < |gens| { GeneratorRan(md5, generate, gens, stored, t, i); }
      }
    }
  }

  lemma TraceLength(md5: string -> string, generate: (Generator, Files) -> Option<Files>, gens: seq<Generator>,
                    stored: map<string, Hashes>, snaps: seq<Files>)
    requires IsTrace(md5, generate, false, gens, stored, snaps)
    ensures 0 < |snaps| <= |gens| + 1
  {}

  lemma {:induction false} QuietTrace(md5: string -> string, generate: (Generator, Files) -> Option<Files>,
                                      verifyOnly: bool, gens: seq<Generator>, stored: map<string, Hashes>,
                                      snaps: seq<Files>, i: nat)
    requires IsTrace(md5, generate, verifyOnly, gens, stored, snaps) && i < |snaps|
    requires verifyOnly || forall j :: 0 <= j < i ==> !StaleAt(md5, gens, stored, snaps, j)
    ensures snaps[i] == snaps[0]
  {
    if i > 0 {
      QuietTrace(md5, generate, verifyOnly, gens, stored, snaps, i - 1);
      assert snaps[(i - 1) + 1] == snaps[i - 1];
    }
  }

  lemma {:induction false} QuietTable(md5: string -> string, gens: seq<Generator>, snaps: seq<Files>)
    requires |gens| <= |snaps| && forall i :: 0 <= i < |snaps| ==> snaps[i] == snaps[0]
    ensures |snaps| > 0 ==> CheckedTable(md5, gens, snaps) == FreshTable(md5, snaps[0], gens)
  {
    if gens != [] { QuietTable(md5, gens[..|gens| - 1], snaps); }
  }

  // The first stale generator is checked against the files the run started with.
  lemma {:induction false} FirstStale(md5: string -> string, generate: (Generator, Files) -> Option<Files>,
                                      verifyOnly: bool, gens: seq<Generator>, stored: map<string, Hashes>,
                                      snaps: seq<Files>, n: nat)
    returns (i: nat)
    requires IsTrace(md5, generate, verifyOnly, gens, stored, snaps) && n <= |gens| && n < |snaps|
    requires exists j :: 0 <= j < n && StaleAt(md5, gens, stored, snaps, j)
    ensures i < n && StaleAt(md5, gens, stored, snaps, i) && snaps[i] == snaps[0]
  {
    if exists j :: 0 <= j < n - 1 && StaleAt(md5, gens, stored, snaps, j) {
      i := FirstStale(md5, generate, verifyOnly, gens, stored, snaps, n - 1);
    } else {
      i := n - 1;
      QuietTrace(md5, generate, verifyOnly, gens, stored, snaps, i);
    }
  }

  lemma MissingIffNotCovered(md5: string -> string, files: Files, gens: seq<Generator>, stored: map<string, Hashes>,
                             snaps: seq<Files>, allOld: map<string, Hashes>, allNew: map<string, Hashes>)
    requires |snaps| == |gens| + 1 && allNew == FreshTable(md5, files, gens)
    requires CheckedSoFar(md5, gens, stored, snaps, |gens|, false, allOld, allNew)
    ensures (exists h :: h in allOld && KeyMissing(allNew, h, allOld[h])) <==>
      !forall h :: h in stored ==> h in allNew && stored[h].Keys <= allNew[h].Keys
  {
    hide Stale, Listed, HashFileName, Digests, FreshTable;
    FreshTableKeys(md5, files, gens);
    if h :| h in stored && !(h in allNew && stored[h].Keys <= allNew[h].Keys) {
      assert h in allOld && KeyMissing(allNew, h, allOld[h]);
    }
    if h :| h in allOld && KeyMissing(allNew, h, allOld[h]) {
      if h !in stored {
        var j :| 0 <= j < |gens| && h == HashFileName(gens[j].name);
        assert gens[j] in gens;
      }
    }
  }

  // What main has computed as any_dirty when it looks at verify_only.
  lemma DirtyIffNotClean(md5: string -> string, generate: (Generator, Files) -> Option<Files>, verifyOnly: bool,
                         gens: seq<Generator>, stored: map<string, Hashes>, snaps: seq<Files>, anyDirty: bool,
                         allOld: map<string, Hashes>, allNew: map<string, Hashes>)
    requires IsTrace(md5, generate, verifyOnly, gens, stored, snaps) && |snaps| == |gens| + 1
    requires CheckedSoFar(md5, gens, stored, snaps, |gens|, anyDirty, allOld, allNew)
    ensures anyDirty || (exists h :: h in allOld && KeyMissing(allNew, h, allOld[h])) <==>
      !Clean(md5, snaps[0], stored, gens)
    ensures verifyOnly || !anyDirty ==> snaps[|gens|] == snaps[0]
  {
    hide Stale, Digests, Listed, KeyMissing, FreshTable, CheckedTable, HashFileName, IsTrace;
    if verifyOnly || !anyDirty {
      forall i | 0 <= i < |snaps| ensures snaps[i] == snaps[0] {
        QuietTrace(md5, generate, verifyOnly, gens, stored, snaps, i);
      }
    }
    if anyDirty {
      var i := FirstStale(md5, generate, verifyOnly, gens, stored, snaps, |gens|);
      assert gens[i] in gens;
    } else {
      assert gens[..|gens|] == gens;
      QuietTable(md5, gens, snaps);
      MissingIffNotCovered(md5, snaps[0], gens, stored, snaps, allOld, allNew);
      forall g | g in gens ensures !Stale(md5, snaps[0], Listed(g), TableAt(stored, HashFileName(g.name))) {
        var i :| 0 <= i < |gens| && gens[i] == g;
        assert !StaleAt(md5, gens, stored, snaps, i);
      }
    }
  }

  // ---- The fixpoint ----

  // What a completed run stores for a generator whose hash file is its own.
  lemma {:induction false} StoredFor(md5: string -> string, gens: seq<Generator>, snaps: seq<Files>, files: Files,
                                     i: nat)
    requires |gens| <= |snaps| && i < |gens| && DistinctHashFiles(gens)
    ensures var h := HashFileName(gens[i].name);
      && h in CheckedTable(md5, gens, snaps)
      && CheckedTable(md5, gens, snaps)[h] == Digests(md5, snaps[i], Listed(gens[i]))
  {
    hide Digests, HashFileName, Listed;
    if i < |gens| - 1 {
      StoredFor(md5, gens[..|gens| - 1], snaps, files, i);
    }
  }

  lemma {:induction false} UpdatedFor(md5: string -> string, gens: seq<Generator>, files: Files,
                                      table: map<string, Hashes>, g: Generator)
    requires DistinctHashFiles(gens)
    ensures var t := UpdatedTable(md5, gens, files, table); var h := HashFileName(g.name);
      if g in gens then h in t && t[h] == WithOutputs(md5, files, g.outputs, TableAt(table, h))
      else if forall k :: k in gens ==> HashFileName(k.name) != h then TableAt(t, h) == TableAt(table, h) else true
  {
    hide Digests, HashFileName, WithOutputs;
    if gens != [] {
      var init, last := gens[..|gens| - 1], gens[|gens| - 1];
      assert gens == init + [last];
      UpdatedFor(md5, init, files, table, g);
      if g == last {
        assert forall k :: k in init ==> HashFileName(k.name) != HashFileName(g.name);
        assert g !in init;
      }
    }
  }

  lemma {:induction false} UpdatedKeys(md5: string -> string, gens: seq<Generator>, files: Files,
                                       table: map<string, Hashes>)
    ensures UpdatedTable(md5, gens, files, table).Keys == table.Keys + set g | g in gens :: HashFileName(g.name)
  {
    if gens != [] {
      UpdatedKeys(md5, gens[..|gens| - 1], files, table);
      assert gens == gens[..|gens| - 1] + [gens[|gens| - 1]];
    }
  }

  lemma {:induction false} CheckedKeys(md5: string -> string, gens: seq<Generator>, snaps: seq<Files>)
    requires |gens| <= |snaps|
    ensures CheckedTable(md5, gens, snaps).Keys == set g | g in gens :: HashFileName(g.name)
  {
    if gens != [] {
      CheckedKeys(md5, gens[..|gens| - 1], snaps);
      assert gens == gens[..|gens| - 1] + [gens[|gens| - 1]];
    }
  }

  // No hash file of a generator that is gone.
  ghost predicate NoLeftover(gens: seq<Generator>, stored: map<string, Hashes>) {
    forall h :: h in stored ==> exists g :: g in gens && HashFileName(g.name) == h
  }

  // Each input and script that the generator does not itself write is at the end what it was when checked.
  ghost predicate Settled(md5: string -> string, g: Generator, snap: Files, files: Files) {
    forall f :: f in Listed(g) && f !in g.outputs ==> f in snap && f in files && md5(snap[f]) == md5(files[f])
  }

  lemma TableSettled(md5: string -> string, g: Generator, snap: Files, files: Files, table: Hashes)
    requires table == WithOutputs(md5, files, g.outputs, Digests(md5, snap, Listed(g)))
    requires forall o :: o in g.outputs ==> o in files
    ensures !Stale(md5, files, Listed(g), table) <==> Settled(md5, g, snap, files)
    ensures !Stale(md5, files, Listed(g), table) ==> table.Keys <= Digests(md5, files, Listed(g)).Keys
  {}

  // The table stored for g: hashes taken when it was checked, and of its outputs at the end.
  ghost predicate StoredTable(md5: string -> string, g: Generator, snap: Files, files: Files,
                              stored: map<string, Hashes>) {
    TableAt(stored, HashFileName(g.name)) == WithOutputs(md5, files, g.outputs, Digests(md5, snap, Listed(g)))
  }

  lemma StoredAfterRun(md5: string -> string, generate: (Generator, Files) -> Option<Files>, format: Files -> Files,
                       gens: seq<Generator>, files: Files, stored: map<string, Hashes>, snaps: seq<Files>,
                       files': Files, stored': map<string, Hashes>)
    requires DistinctHashFiles(gens)
    requires Completed(md5, generate, format, gens, files, stored, snaps, files', stored')
    ensures forall h :: h in stored' <==> h in stored || exists g :: g in gens && HashFileName(g.name) == h
    ensures forall i :: 0 <= i < |gens| ==> StoredTable(md5, gens[i], snaps[i], files', stored')
  {
    hide HashFileName, FreshTable, CheckedTable, UpdatedTable, IsTrace, Digests, Listed, WithOutputs;
    var checked := CheckedTable(md5, gens, snaps);
    CheckedKeys(md5, gens, snaps); UpdatedKeys(md5, gens, files', checked);
    forall i | 0 <= i < |gens|
      ensures StoredTable(md5, gens[i], snaps[i], files', stored')
    {
      StoredFor(md5, gens, snaps, files', i);
      UpdatedFor(md5, gens, files', checked, gens[i]);
    }
  }

  lemma CleanImpliesSettled(md5: string -> string, gens: seq<Generator>, stored: map<string, Hashes>, snaps: seq<Files>,
                            files: Files, i: nat)
    requires i < |gens| && i < |snaps| && Clean(md5, files, stored, gens)
    requires forall o :: o in gens[i].outputs ==> o in files
    requires StoredTable(md5, gens[i], snaps[i], files, stored)
    ensures Settled(md5, gens[i], snaps[i], files)
  {
    hide HashFileName, Digests, Listed, WithOutputs, Stale, Settled;
    assert gens[i] in gens;
    TableSettled(md5, gens[i], snaps[i], files, TableAt(stored, HashFileName(gens[i].name)));
  }

  lemma SettledImpliesClean(md5: string -> string, gens: seq<Generator>, stored: map<string, Hashes>, snaps: seq<Files>,
                            files: Files)
    requires |gens| <= |snaps|
    requires forall g, o :: g in gens && o in g.outputs ==> o in files
    requires forall i :: 0 <= i < |gens| ==> Settled(md5, gens[i], snaps[i], files)
    requires forall i :: 0 <= i < |gens| ==> StoredTable(md5, gens[i], snaps[i], files, stored)
    requires NoLeftover(gens, stored)
    ensures Clean(md5, files, stored, gens)
  {
    hide HashFileName, FreshTable, Digests, Listed, WithOutputs, Stale, Settled;
    FreshTableKeys(md5, files, gens);
    var table := FreshTable(md5, files, gens);
    forall g | g in gens
      ensures !Stale(md5, files, Listed(g), TableAt(stored, HashFileName(g.name)))
      ensures TableAt(stored, HashFileName(g.name)).Keys <= Digests(md5, files, Listed(g)).Keys
    {
      var i :| 0 <= i < |gens| && gens[i] == g;
      TableSettled(md5, g, snaps[i], files, TableAt(stored, HashFileName(g.name)));
    }
    forall h | h in stored ensures h in table && stored[h].Keys <= table[h].Keys {
      var g :| g in gens && HashFileName(g.name) == h;
      var k :| k in gens && HashFileName(k.name) == h && table[h] == Digests(md5, files, Listed(k));
    }
  }

  lemma VerifyAfterRun(md5: string -> string, generate: (Generator, Files) -> Option<Files>, format: Files -> Files,
                       gens: seq<Generator>, files: Files, stored: map<string, Hashes>, snaps: seq<Files>,
                       files': Files, stored': map<string, Hashes>)
    requires DistinctHashFiles(gens)
    requires Completed(md5, generate, format, gens, files, stored, snaps, files', stored')
    ensures Clean(md5, files', stored', gens) <==>
      NoLeftover(gens, stored) && forall i :: 0 <= i < |gens| ==> Settled(md5, gens[i], snaps[i], files')
  {
    hide HashFileName, FreshTable, CheckedTable, UpdatedTable, IsTrace, Digests, Listed, WithOutputs, Stale, Settled;
    StoredAfterRun(md5, generate, format, gens, files, stored, snaps, files', stored');
    if Clean(md5, files', stored', gens) {
      FreshTableKeys(md5, files', gens);
      forall h | h in stored ensures exists g :: g in gens && HashFileName(g.name) == h {
        assert h in stored';
      }
      forall i | 0 <= i < |gens| ensures Settled(md5, gens[i], snaps[i], files') {
        assert gens[i] in gens;
        CleanImpliesSettled(md5, gens, stored', snaps, files', i);
      }
    }
    if NoLeftover(gens, stored) && forall i :: 0 <= i < |gens| ==> Settled(md5, gens[i], snaps[i], files') {
      SettledImpliesClean(md5, gens, stored', snaps, files');
    }
  }

  // Running generators and formatting write outputs only, and no output is a source of a generator
  // that does not itself write it.
  ghost predicate WritesOutputsOnly(generate: (Generator, Files) -> Option<Files>, format: Files -> Files,
                                    gens: seq<Generator>) {
    && (forall g, files, f :: g in gens && f in files && f !in g.outputs && generate(g, files).Some? ==>
          f in generate(g, files).value && generate(g, files).value[f] == files[f])
    && (forall files, f :: f in files && (forall g :: g in gens ==> f !in g.outputs) ==>
          f in format(files) && format(files)[f] == files[f])
  }

  ghost predicate SourcesAreNotOutputs(gens: seq<Generator>) {
    forall g, f, k :: g in gens && k in gens && f in Listed(g) && f !in g.outputs ==> f !in k.outputs
  }

  lemma {:induction false} SourceUntouched(md5: string -> string, generate: (Generator, Files) -> Option<Files>,
                                           format: Files -> Files, gens: seq<Generator>, stored: map<string, Hashes>,
                                           snaps: seq<Files>, i: nat, f: string)
    requires IsTrace(md5, generate, false, gens, stored, snaps) && i < |snaps|
    requires WritesOutputsOnly(generate, format, gens)
    requires f in snaps[0] && forall g :: g in gens ==> f !in g.outputs
    ensures f in snaps[i] && snaps[i][f] == snaps[0][f]
  {
    if i > 0 {
      SourceUntouched(md5, generate, format, gens, stored, snaps, i - 1, f);
      assert gens[i - 1] in gens;
      assert if StaleAt(md5, gens, stored, snaps, i - 1) && !false
             then generate(gens[i - 1], snaps[i - 1]) == Some(snaps[i - 1 + 1]) else snaps[i - 1 + 1] == snaps[i - 1];
    }
  }

  // Under those conditions one completed run is enough.
  lemma RunThenVerify(md5: string -> string, generate: (Generator, Files) -> Option<Files>, format: Files -> Files,
                      gens: seq<Generator>, files: Files, stored: map<string, Hashes>, snaps: seq<Files>, files': Files,
                      stored': map<string, Hashes>)
    requires DistinctHashFiles(gens) && NoLeftover(gens, stored)
    requires WritesOutputsOnly(generate, format, gens) && SourcesAreNotOutputs(gens)
    requires forall g, f :: g in gens && f in Listed(g) && f !in g.outputs ==> f in files
    requires Completed(md5, generate, format, gens, files, stored, snaps, files', stored')
    ensures Clean(md5, files', stored', gens)
  {
    forall i | 0 <= i < |gens| ensures Settled(md5, gens[i], snaps[i], files') {
      forall f | f in Listed(gens[i]) && f !in gens[i].outputs
        ensures f in snaps[i] && f in files' && md5(snaps[i][f]) == md5(files'[f])
      {
        assert gens[i] in gens;
        SourceUntouched(md5, generate, format, gens, stored, snaps, i, f);
        SourceUntouched(md5, generate, format, gens, stored, snaps, |gens|, f);
      }
    }
    VerifyAfterRun(md5, generate, format, gens, files, stored, snaps, files', stored');
  }

  // ---- When one run is enough ----

  // A completed run, with the generators and the formatter it ran.
  datatype CompletedRun = CompletedRun(generate: (Generator, Files) -> Option<Files>, format: Files -> Files,
                                       files: Files, stored: map<string, Hashes>, snaps: seq<Files>,
                                       files': Files, stored': map<string, Hashes>)

  // Generators and formatter wrote outputs only, no hash file was left over, and the sources were there.
  ghost predicate Orderly(md5: string -> string, gens: seq<Generator>, run: CompletedRun) {
    && WritesOutputsOnly(run.generate, run.format, gens) && NoLeftover(gens, run.stored)
    && (forall g, f :: g in gens && f in Listed(g) && f !in g.outputs ==> f in run.files)
    && Completed(md5, run.generate, run.format, gens, run.files, run.stored, run.snaps, run.files', run.stored')
  }

  ghost predicate EndsClean(md5: string -> string, gens: seq<Generator>, run: CompletedRun) {
    Clean(md5, run.files', run.stored', gens)
  }

  // One run is enough, whatever the generators and the formatter write to the outputs, exactly when no output is a
  // source of another generator.
  lemma OneRunIsEnoughIff(md5: string -> string, gens: seq<Generator>, a: string, b: string)
    requires DistinctHashFiles(gens) && md5(a) != md5(b)
    ensures (forall run :: Orderly(md5, gens, run) ==> EndsClean(md5, gens, run)) <==> SourcesAreNotOutputs(gens)
  {
    hide DistinctHashFiles, SourcesAreNotOutputs, WritesOutputsOnly, Completed, Clean, Reformatting;
    if SourcesAreNotOutputs(gens) {
      forall run | Orderly(md5, gens, run) ensures EndsClean(md5, gens, run) {
        RunThenVerify(md5, run.generate, run.format, gens, run.files, run.stored, run.snaps, run.files', run.stored');
      }
    } else {
      ReformattingIsOrderly(md5, gens, a, b);
      ReformattingEndsDirty(md5, gens, a, b);
    }
  }

  ghost function Outputs(gens: seq<Generator>): set<string> { set g, f | g in gens && f in g.outputs :: f }

  ghost function AllListed(gens: seq<Generator>): set<string> { set g, f | g in gens && f in Listed(g) :: f }

  // A formatter that writes b to every output.
  ghost function Overwritten(outputs: set<string>, b: string, files: Files): Files {
    map f | f in files.Keys + outputs :: if f in outputs then b else files[f]
  }

  // The run of that formatter, and of generators that change nothing, from files that all hold a.
  ghost function Reformatting(md5: string -> string, gens: seq<Generator>, a: string, b: string): CompletedRun {
    var files := map f | f in AllListed(gens) :: a;
    var outputs := Outputs(gens);
    var files' := Overwritten(outputs, b, files);
    var snaps := seq(|gens| + 1, _ => files);
    CompletedRun((_, now) => Some(now), now => Overwritten(outputs, b, now), files, map[], snaps, files',
                 UpdatedTable(md5, gens, files', CheckedTable(md5, gens, snaps)))
  }

  lemma ReformattingWrites(md5: string -> string, gens: seq<Generator>, a: string, b: string)
    ensures var run := Reformatting(md5, gens, a, b); WritesOutputsOnly(run.generate, run.format, gens)
  {
    hide UpdatedTable, CheckedTable, AllListed;
    var run := Reformatting(md5, gens, a, b);
    forall files, f | f in files && (forall g :: g in gens ==> f !in g.outputs)
      ensures f in run.format(files) && run.format(files)[f] == files[f]
    {
      assert f !in Outputs(gens);
      assert run.format(files) == Overwritten(Outputs(gens), b, files);
    }
  }

  lemma ReformattingTrace(md5: string -> string, gens: seq<Generator>, a: string, b: string)
    ensures var run := Reformatting(md5, gens, a, b);
      IsTrace(md5, run.generate, false, gens, run.stored, run.snaps)
  {
    hide UpdatedTable, CheckedTable, AllListed, Outputs, Overwritten, StaleAt;
  }

  lemma ReformattingCompletes(md5: string -> string, gens: seq<Generator>, a: string, b: string)
    ensures var run := Reformatting(md5, gens, a, b);
      Completed(md5, run.generate, run.format, gens, run.files, run.stored, run.snaps, run.files', run.stored')
  {
    hide UpdatedTable, CheckedTable, AllListed, IsTrace;
    var run := Reformatting(md5, gens, a, b);
    ReformattingTrace(md5, gens, a, b);
    forall g, o | g in gens && o in g.outputs ensures o in run.files' { assert o in Outputs(gens); }
    assert map[] + UpdatedTable(md5, gens, run.files', CheckedTable(md5, gens, run.snaps)) == run.stored';
  }

  lemma ReformattingIsOrderly(md5: string -> string, gens: seq<Generator>, a: string, b: string)
    ensures Orderly(md5, gens, Reformatting(md5, gens, a, b))
  {
    ReformattingWrites(md5, gens, a, b);
    ReformattingCompletes(md5, gens, a, b);
    hide UpdatedTable, CheckedTable, Outputs, Overwritten, Completed, WritesOutputsOnly, Listed;
    var run := Reformatting(md5, gens, a, b);
    forall g, f | g in gens && f in Listed(g) ensures f in run.files { assert f in AllListed(gens); }
  }

  // Its formatter changes an output after a generator that reads it was checked.
  lemma ReformattingUnsettles(md5: string -> string, gens: seq<Generator>, a: string, b: string) returns (i: nat)
    requires md5(a) != md5(b) && !SourcesAreNotOutputs(gens)
    ensures i < |gens|
    ensures var run := Reformatting(md5, gens, a, b); !Settled(md5, gens[i], run.snaps[i], run.files')
  {
    hide UpdatedTable, CheckedTable, Listed;
    var g, f, k :| g in gens && k in gens && f in Listed(g) && f !in g.outputs && f in k.outputs;
    i :| 0 <= i < |gens| && gens[i] == g;
    assert f in Outputs(gens) && f in AllListed(gens);
  }

  lemma ReformattingEndsDirty(md5: string -> string, gens: seq<Generator>, a: string, b: string)
    requires DistinctHashFiles(gens) && md5(a) != md5(b) && !SourcesAreNotOutputs(gens)
    ensures !EndsClean(md5, gens, Reformatting(md5, gens, a, b))
  {
    ReformattingCompletes(md5, gens, a, b);
    var i := ReformattingUnsettles(md5, gens, a, b);
    hide DistinctHashFiles, SourcesAreNotOutputs, Completed, Clean, Settled, Reformatting;
    var run := Reformatting(md5, gens, a, b);
    VerifyAfterRun(md5, run.generate, run.format, gens, run.files, run.stored, run.snaps, run.files', run.stored');
  }

  // ---- Convergence ----

  // A generator whose source another one writes ranks above that one.
  ghost predicate Ranked(rank: Generator -> nat, gens: seq<Generator>) {
    forall g, f, k :: g in gens && k in gens && f in Listed(g) && f !in g.outputs && f in k.outputs ==>
      rank(k) < rank(g)
  }

  ghost predicate OwnOutputs(gens: seq<Generator>) {
    forall g, k, f :: g in gens && k in gens && f in g.outputs && f in k.outputs ==> g == k
  }

  // Formatting treats each output by itself, neither making nor removing any, and a second time changes nothing.
  ghost predicate FormatsFiles(format: Files -> Files, formatted: string -> string, gens: seq<Generator>) {
    && (forall text :: formatted(formatted(text)) == formatted(text))
    && (forall files, g, f :: g in gens && f in g.outputs ==>
          (f in format(files) <==> f in files) && (f in files ==> format(files)[f] == formatted(files[f])))
  }

  // The generators of a rank below r find nothing to do.
  ghost predicate QuietBelow(rank: Generator -> nat, r: nat, md5: string -> string, gens: seq<Generator>, files: Files,
                             stored: map<string, Hashes>)
  {
    forall g :: g in gens && rank(g) < r ==> !Stale(md5, files, Listed(g), TableAt(stored, HashFileName(g.name)))
  }

  // Only generators of a rank below r write f.
  ghost predicate WrittenBelow(rank: Generator -> nat, r: nat, gens: seq<Generator>, f: string) {
    forall k :: k in gens && f in k.outputs ==> rank(k) < r
  }

  // What a generator lists is written by others of a lower rank, or by itself.
  lemma ListedBelow(rank: Generator -> nat, gens: seq<Generator>, g: Generator, f: string)
    requires Ranked(rank, gens) && OwnOutputs(gens) && g in gens && f in Listed(g)
    ensures WrittenBelow(rank, rank(g) + 1, gens, f)
    ensures f !in g.outputs ==> WrittenBelow(rank, rank(g), gens, f)
  {}

  lemma StaleBySameFiles(md5: string -> string, files: Files, files': Files, names: seq<string>, stored: Hashes)
    requires !Stale(md5, files, names, stored)
    requires forall f :: f in names && f in files ==> f in files' && files'[f] == files[f]
    ensures !Stale(md5, files', names, stored)
  {}

  // While the generators below r are quiet, nothing that only they write changes.
  lemma {:induction false} QuietUntouched(rank: Generator -> nat, r: nat, md5: string -> string,
                                          generate: (Generator, Files) -> Option<Files>, format: Files -> Files,
                                          gens: seq<Generator>, stored: map<string, Hashes>, snaps: seq<Files>, i: nat)
    requires IsTrace(md5, generate, false, gens, stored, snaps) && i < |snaps|
    requires WritesOutputsOnly(generate, format, gens) && Ranked(rank, gens) && OwnOutputs(gens)
    requires QuietBelow(rank, r, md5, gens, snaps[0], stored)
    ensures forall f :: f in snaps[0] && WrittenBelow(rank, r, gens, f) ==> f in snaps[i] && snaps[i][f] == snaps[0][f]
  {
    if i > 0 {
      QuietUntouched(rank, r, md5, generate, format, gens, stored, snaps, i - 1);
      var g := gens[i - 1];
      assert g in gens;
      assert if StaleAt(md5, gens, stored, snaps, i - 1) && !false
             then generate(g, snaps[i - 1]) == Some(snaps[i - 1 + 1]) else snaps[i - 1 + 1] == snaps[i - 1];
      hide Stale, IsTrace, Listed, HashFileName, Ranked, OwnOutputs, WrittenBelow;
      if rank(g) < r {
        QuietStays(rank, r, md5, gens, stored, snaps[0], snaps[i - 1], g);
      } else {
        forall f | f in snaps[0] && WrittenBelow(rank, r, gens, f)
          ensures f in snaps[i] && snaps[i][f] == snaps[i - 1][f]
        {
          NotWrittenBy(rank, r, gens, f, g);
        }
      }
    }
  }

  lemma NotWrittenBy(rank: Generator -> nat, r: nat, gens: seq<Generator>, f: string, g: Generator)
    requires WrittenBelow(rank, r, gens, f) && g in gens && rank(g) >= r
    ensures f !in g.outputs
  {}

  lemma QuietStays(rank: Generator -> nat, r: nat, md5: string -> string, gens: seq<Generator>,
                   stored: map<string, Hashes>, files: Files, files': Files, g: Generator)
    requires Ranked(rank, gens) && OwnOutputs(gens) && g in gens && rank(g) < r
    requires QuietBelow(rank, r, md5, gens, files, stored)
    requires forall f :: f in files && WrittenBelow(rank, r, gens, f) ==> f in files' && files'[f] == files[f]
    ensures !Stale(md5, files', Listed(g), TableAt(stored, HashFileName(g.name)))
  {
    hide HashFileName, Listed, Ranked, OwnOutputs;
    forall f | f in Listed(g) && f in files ensures f in files' && files'[f] == files[f] {
      ListedBelow(rank, gens, g, f);
    }
    StaleBySameFiles(md5, files, files', Listed(g), TableAt(stored, HashFileName(g.name)));
  }

  // What holds between runs: the sources that are nobody's output exist and no hash file is left over; and after the
  // first run, of which first is false, the outputs exist and are formatted.
  ghost predicate BetweenRuns(gens: seq<Generator>, formatted: string -> string, first: bool, files: Files,
                              stored: map<string, Hashes>)
  {
    && NoLeftover(gens, stored)
    && (forall g, f :: g in gens && f in Listed(g) && (forall k :: k in gens ==> f !in k.outputs) ==> f in files)
    && (!first ==> forall g, f :: g in gens && f in g.outputs ==> f in files && formatted(files[f]) == files[f])
  }

  // One more run makes one more rank quiet.
  lemma OneRun(rank: Generator -> nat, r: nat, md5: string -> string, generate: (Generator, Files) -> Option<Files>,
               format: Files -> Files, formatted: string -> string, gens: seq<Generator>, files: Files,
               stored: map<string, Hashes>, snaps: seq<Files>, files': Files, stored': map<string, Hashes>)
    requires DistinctHashFiles(gens) && WritesOutputsOnly(generate, format, gens)
    requires Ranked(rank, gens) && OwnOutputs(gens) && FormatsFiles(format, formatted, gens)
    requires BetweenRuns(gens, formatted, r == 0, files, stored) && QuietBelow(rank, r, md5, gens, files, stored)
    requires Completed(md5, generate, format, gens, files, stored, snaps, files', stored')
    ensures BetweenRuns(gens, formatted, false, files', stored') && QuietBelow(rank, r + 1, md5, gens, files', stored')
    ensures forall i :: 0 <= i < |gens| && rank(gens[i]) <= r ==> Settled(md5, gens[i], snaps[i], files')
  {
    hide Settled, QuietBelow, Completed, BetweenRuns, StoredTable, DistinctHashFiles, WritesOutputsOnly, Ranked;
    hide OwnOutputs, FormatsFiles, HashFileName, Stale, Listed;
    OutputsExist(md5, generate, format, gens, files, stored, snaps, files', stored');
    StoredAfterRun(md5, generate, format, gens, files, stored, snaps, files', stored');
    forall i | 0 <= i < |gens| && rank(gens[i]) <= r ensures Settled(md5, gens[i], snaps[i], files') {
      SettledInRun(rank, r, md5, generate, format, formatted, gens, files, stored, snaps, files', stored', i);
    }
    SettledIsQuiet(rank, r, md5, gens, snaps, files', stored');
    BetweenAgain(md5, generate, format, formatted, gens, r, files, stored, snaps, files', stored');
  }

  lemma OutputsExist(md5: string -> string, generate: (Generator, Files) -> Option<Files>, format: Files -> Files,
                     gens: seq<Generator>, files: Files, stored: map<string, Hashes>, snaps: seq<Files>, files': Files,
                     stored': map<string, Hashes>)
    requires Completed(md5, generate, format, gens, files, stored, snaps, files', stored')
    ensures |snaps| == |gens| + 1 && forall g, o :: g in gens && o in g.outputs ==> o in files'
  {}

  lemma SettledIsQuiet(rank: Generator -> nat, r: nat, md5: string -> string, gens: seq<Generator>, snaps: seq<Files>,
                       files: Files, stored: map<string, Hashes>)
    requires |gens| <= |snaps| && forall g, o :: g in gens && o in g.outputs ==> o in files
    requires forall i :: 0 <= i < |gens| ==> StoredTable(md5, gens[i], snaps[i], files, stored)
    requires forall i :: 0 <= i < |gens| && rank(gens[i]) <= r ==> Settled(md5, gens[i], snaps[i], files)
    ensures QuietBelow(rank, r + 1, md5, gens, files, stored)
  {
    hide Settled, Stale, HashFileName, Digests, WithOutputs, Listed;
    forall g | g in gens && rank(g) < r + 1
      ensures !Stale(md5, files, Listed(g), TableAt(stored, HashFileName(g.name)))
    {
      var i :| 0 <= i < |gens| && gens[i] == g;
      TableSettled(md5, g, snaps[i], files, TableAt(stored, HashFileName(g.name)));
    }
  }

  // No source of a generator of rank r or below changes between its check and the end of the run.
  lemma SettledInRun(rank: Generator -> nat, r: nat, md5: string -> string,
                     generate: (Generator, Files) -> Option<Files>, format: Files -> Files, formatted: string -> string,
                     gens: seq<Generator>, files: Files, stored: map<string, Hashes>, snaps: seq<Files>, files': Files,
                     stored': map<string, Hashes>, i: nat)
    requires WritesOutputsOnly(generate, format, gens) && Ranked(rank, gens) && OwnOutputs(gens)
    requires FormatsFiles(format, formatted, gens)
    requires BetweenRuns(gens, formatted, r == 0, files, stored) && QuietBelow(rank, r, md5, gens, files, stored)
    requires Completed(md5, generate, format, gens, files, stored, snaps, files', stored')
    requires i < |gens| && rank(gens[i]) <= r
    ensures Settled(md5, gens[i], snaps[i], files')
  {
    var g, n := gens[i], |gens|;
    assert g in gens;
    QuietUntouched(rank, r, md5, generate, format, gens, stored, snaps, i);
    QuietUntouched(rank, r, md5, generate, format, gens, stored, snaps, n);
    forall f | f in Listed(g) && f !in g.outputs
      ensures f in snaps[i] && f in files' && md5(snaps[i][f]) == md5(files'[f])
    {
      hide Listed, QuietBelow, IsTrace, Ranked, OwnOutputs, UpdatedTable, CheckedTable;
      ListedBelow(rank, gens, g, f);
      SourceExists(rank, r, formatted, gens, files, stored, g, f);
      if k :| k in gens && f in k.outputs {
        assert format(snaps[n])[f] == formatted(snaps[n][f]);
      }
    }
  }

  lemma SourceExists(rank: Generator -> nat, r: nat, formatted: string -> string, gens: seq<Generator>, files: Files,
                     stored: map<string, Hashes>, g: Generator, f: string)
    requires BetweenRuns(gens, formatted, r == 0, files, stored) && g in gens && f in Listed(g)
    requires WrittenBelow(rank, rank(g), gens, f) && rank(g) <= r
    ensures f in files && WrittenBelow(rank, r, gens, f)
    ensures forall k :: k in gens && f in k.outputs ==> formatted(files[f]) == files[f]
  {
    if k :| k in gens && f in k.outputs { assert rank(k) < r; }
  }

  lemma BetweenAgain(md5: string -> string, generate: (Generator, Files) -> Option<Files>, format: Files -> Files,
                     formatted: string -> string, gens: seq<Generator>, r: nat, files: Files,
                     stored: map<string, Hashes>, snaps: seq<Files>, files': Files, stored': map<string, Hashes>)
    requires WritesOutputsOnly(generate, format, gens) && FormatsFiles(format, formatted, gens)
    requires BetweenRuns(gens, formatted, r == 0, files, stored)
    requires Completed(md5, generate, format, gens, files, stored, snaps, files', stored')
    requires forall h :: h in stored' <==> h in stored || exists g :: g in gens && HashFileName(g.name) == h
    ensures BetweenRuns(gens, formatted, false, files', stored')
  {
    hide Listed, HashFileName, Completed, WritesOutputsOnly, FormatsFiles;
    SourcesRemain(md5, generate, format, formatted, gens, r, files, stored, snaps, files', stored');
    OutputsFormatted(md5, generate, format, formatted, gens, files, stored, snaps, files', stored');
  }

  lemma OutputsFormatted(md5: string -> string, generate: (Generator, Files) -> Option<Files>, format: Files -> Files,
                         formatted: string -> string, gens: seq<Generator>, files: Files, stored: map<string, Hashes>,
                         snaps: seq<Files>, files': Files, stored': map<string, Hashes>)
    requires FormatsFiles(format, formatted, gens)
    requires Completed(md5, generate, format, gens, files, stored, snaps, files', stored')
    ensures forall g, f :: g in gens && f in g.outputs ==> f in files' && formatted(files'[f]) == files'[f]
  {
    hide UpdatedTable, CheckedTable, IsTrace, FormatsFiles;
    forall g, f | g in gens && f in g.outputs ensures f in files' && formatted(files'[f]) == files'[f] {
      OutputFormatted(format, formatted, gens, snaps[|gens|], files', g, f);
    }
  }

  lemma SourcesRemain(md5: string -> string, generate: (Generator, Files) -> Option<Files>, format: Files -> Files,
                      formatted: string -> string, gens: seq<Generator>, r: nat, files: Files,
                      stored: map<string, Hashes>, snaps: seq<Files>, files': Files, stored': map<string, Hashes>)
    requires WritesOutputsOnly(generate, format, gens) && BetweenRuns(gens, formatted, r == 0, files, stored)
    requires Completed(md5, generate, format, gens, files, stored, snaps, files', stored')
    ensures forall g, f :: g in gens && f in Listed(g) && (forall k :: k in gens ==> f !in k.outputs) ==> f in files'
  {
    hide Listed, HashFileName, UpdatedTable, CheckedTable, IsTrace, NoLeftover;
    forall g, f | g in gens && f in Listed(g) && (forall k :: k in gens ==> f !in k.outputs) ensures f in files' {
      SourceUntouched(md5, generate, format, gens, stored, snaps, |gens|, f);
    }
  }

  lemma OutputFormatted(format: Files -> Files, formatted: string -> string, gens: seq<Generator>, files: Files,
                        files': Files, g: Generator, f: string)
    requires FormatsFiles(format, formatted, gens) && files' == format(files) && g in gens && f in g.outputs
      && f in files'
    ensures formatted(files'[f]) == files'[f]
  {
  }

  // The files and hash files between one run and the next.
  datatype Stage = Stage(files: Files, stored: map<string, Hashes>)

  ghost predicate RunOnce(md5: string -> string, generate: (Generator, Files) -> Option<Files>, format: Files -> Files,
                          gens: seq<Generator>, a: Stage, b: Stage)
  {
    exists snaps :: Completed(md5, generate, format, gens, a.files, a.stored, snaps, b.files, b.stored)
  }

  lemma {:induction false} RunsMakeQuiet(rank: Generator -> nat, md5: string -> string,
                                         generate: (Generator, Files) -> Option<Files>, format: Files -> Files,
                                         formatted: string -> string, gens: seq<Generator>, stages: seq<Stage>, r: nat)
    requires DistinctHashFiles(gens) && WritesOutputsOnly(generate, format, gens)
    requires Ranked(rank, gens) && OwnOutputs(gens) && FormatsFiles(format, formatted, gens)
    requires r < |stages| && BetweenRuns(gens, formatted, true, stages[0].files, stages[0].stored)
    requires forall i :: 0 <= i < r ==> RunOnce(md5, generate, format, gens, stages[i], stages[i + 1])
    ensures BetweenRuns(gens, formatted, r == 0, stages[r].files, stages[r].stored)
    ensures QuietBelow(rank, r, md5, gens, stages[r].files, stages[r].stored)
  {
    hide BetweenRuns, DistinctHashFiles, WritesOutputsOnly, Ranked, OwnOutputs, FormatsFiles, Completed, Stale;
    if r > 0 {
      RunsMakeQuiet(rank, md5, generate, format, formatted, gens, stages, r - 1);
      var a, b := stages[r - 1], stages[r - 1 + 1];
      assert RunOnce(md5, generate, format, gens, a, b);
      var snaps :| Completed(md5, generate, format, gens, a.files, a.stored, snaps, b.files, b.stored);
      OneRun(rank, r - 1, md5, generate, format, formatted, gens, a.files, a.stored, snaps, b.files, b.stored);
    }
  }

  // As many completed runs as there are ranks make verification clean, whatever the order of the generators.
  lemma RunsConverge(rank: Generator -> nat, md5: string -> string, generate: (Generator, Files) -> Option<Files>,
                     format: Files -> Files, formatted: string -> string, gens: seq<Generator>, stages: seq<Stage>)
    requires DistinctHashFiles(gens) && WritesOutputsOnly(generate, format, gens)
    requires Ranked(rank, gens) && OwnOutputs(gens) && FormatsFiles(format, formatted, gens)
    requires |stages| >= 2 && BetweenRuns(gens, formatted, true, stages[0].files, stages[0].stored)
    requires forall i :: 0 <= i < |stages| - 1 ==> RunOnce(md5, generate, format, gens, stages[i], stages[i + 1])
    requires forall g :: g in gens ==> rank(g) < |stages| - 1
    ensures Clean(md5, stages[|stages| - 1].files, stages[|stages| - 1].stored, gens)
  {
    var r := |stages| - 2;
    RunsMakeQuiet(rank, md5, generate, format, formatted, gens, stages, r);
    var a, b := stages[r], stages[r + 1];
    assert RunOnce(md5, generate, format, gens, a, b);
    var snaps :| Completed(md5, generate, format, gens, a.files, a.stored, snaps, b.files, b.stored);
    OneRun(rank, r, md5, generate, format, formatted, gens, a.files, a.stored, snaps, b.files, b.stored);
    hide Settled, DistinctHashFiles, WritesOutputsOnly, Ranked, OwnOutputs, FormatsFiles, Completed, Stale, Clean;
    forall i | 0 <= i < |gens| ensures Settled(md5, gens[i], snaps[i], b.files) { assert gens[i] in gens; }
    LeftoverOf(gens, formatted, r == 0, a.files, a.stored);
    VerifyAfterRun(md5, generate, format, gens, a.files, a.stored, snaps, b.files, b.stored);
  }

  lemma LeftoverOf(gens: seq<Generator>, formatted: string -> string, first: bool, files: Files,
                   stored: map<string, Hashes>)
    requires BetweenRuns(gens, formatted, first, files, stored)
    ensures NoLeftover(gens, stored)
  {}

  // When a later generator writes an input of an earlier one, one run is not enough.
  const CHAIN := [Generator("a", "a.py", ["x"], ["p"]), Generator("b", "b.py", ["q"], ["x"])]
  const CHAIN_FILES: Files := map["a.py" := "", "b.py" := "", "q" := "", "x" := "old", "p" := "old"]
  const CHAIN_RUN: seq<Files> := [CHAIN_FILES, CHAIN_FILES["p" := "new"], CHAIN_FILES["p" := "new"]["x" := "new"]]

  lemma NothingStored(md5: string -> string, gens: seq<Generator>, snaps: seq<Files>, i: nat)
    requires i < |gens| && i < |snaps|
    ensures StaleAt(md5, gens, map[], snaps, i)
  {
    assert gens[i].script in Listed(gens[i]);
  }

  lemma ChainTrace(md5: string -> string, generate: (Generator, Files) -> Option<Files>)
    requires forall g, f :: generate(g, f) == Some(if g.name == "a" then f["p" := "new"] else f["x" := "new"])
    ensures IsTrace(md5, generate, false, CHAIN, map[], CHAIN_RUN)
  {
    NothingStored(md5, CHAIN, CHAIN_RUN, 0);
    NothingStored(md5, CHAIN, CHAIN_RUN, 1);
  }

  lemma ChainApart()
    ensures DistinctHashFiles(CHAIN)
  {
    HashFileNamesCollide(CHAIN[0].name, CHAIN[1].name);
    assert CHAIN[0].name[0] == 'a' && CHAIN[1].name[0] == 'b';
    hide HashFileName;
  }

  lemma ChainWrites(generate: (Generator, Files) -> Option<Files>, format: Files -> Files)
    requires forall f :: format(f) == f
    requires forall g, f :: generate(g, f) == Some(if g.name == "a" then f["p" := "new"] else f["x" := "new"])
    ensures WritesOutputsOnly(generate, format, CHAIN)
  {
    forall g, files, f | g in CHAIN && f in files && f !in g.outputs
      ensures f in generate(g, files).value && generate(g, files).value[f] == files[f]
    {
      assert g == CHAIN[0] || g == CHAIN[1];
    }
  }

  lemma ChainCompletes(md5: string -> string, generate: (Generator, Files) -> Option<Files>, format: Files -> Files,
                       stored: map<string, Hashes>)
    requires IsTrace(md5, generate, false, CHAIN, map[], CHAIN_RUN) && format(CHAIN_RUN[2]) == CHAIN_RUN[2]
    requires stored == UpdatedTable(md5, CHAIN, CHAIN_RUN[2], CheckedTable(md5, CHAIN, CHAIN_RUN))
    ensures Completed(md5, generate, format, CHAIN, CHAIN_FILES, map[], CHAIN_RUN, CHAIN_RUN[2], stored)
  {
    ChainEnds();
    hide HashFileName, UpdatedTable, CheckedTable, IsTrace, CHAIN_FILES, CHAIN, CHAIN_RUN;
    assert map[] + stored == stored;
  }

  lemma ChainEnds()
    ensures |CHAIN| == 2 && |CHAIN_RUN| == 3 && CHAIN_RUN[0] == CHAIN_FILES
    ensures forall g, o :: g in CHAIN && o in g.outputs ==> o in CHAIN_RUN[2]
  {
    forall g, o | g in CHAIN && o in g.outputs ensures o in CHAIN_RUN[2] {
      assert g == CHAIN[0] || g == CHAIN[1];
    }
  }

  // The second generator writes x, which the first has read.
  lemma ChainUnsettled(md5: string -> string)
    requires forall s :: md5(s) == s
    ensures !Settled(md5, CHAIN[0], CHAIN_RUN[0], CHAIN_RUN[2])
  {
    assert "x" in Listed(CHAIN[0]) && CHAIN_RUN[0]["x"] != CHAIN_RUN[2]["x"];
  }

  lemma ChainNeedsSecondRun(md5: string -> string, generate: (Generator, Files) -> Option<Files>,
                            format: Files -> Files)
    returns (stored: map<string, Hashes>)
    requires forall s :: md5(s) == s
    requires forall f :: format(f) == f
    requires forall g, f :: generate(g, f) == Some(if g.name == "a" then f["p" := "new"] else f["x" := "new"])
    ensures DistinctHashFiles(CHAIN) && WritesOutputsOnly(generate, format, CHAIN)
    ensures Completed(md5, generate, format, CHAIN, CHAIN_FILES, map[], CHAIN_RUN, CHAIN_RUN[2], stored)
    ensures !Clean(md5, CHAIN_RUN[2], stored, CHAIN)
  {
    ChainWrites(generate, format);
    stored := UpdatedTable(md5, CHAIN, CHAIN_RUN[2], CheckedTable(md5, CHAIN, CHAIN_RUN));
    ChainTrace(md5, generate);
    ChainCompletes(md5, generate, format, stored);
    ChainUnsettled(md5);
    ChainEnds();
    ChainApart();
    hide DistinctHashFiles, UpdatedTable, CheckedTable, Clean, Completed, WritesOutputsOnly, Settled;
    hide CHAIN, CHAIN_FILES, CHAIN_RUN;
    VerifyAfterRun(md5, generate, format, CHAIN, CHAIN_FILES, map[], CHAIN_RUN, CHAIN_RUN[2], stored);
  }
}
