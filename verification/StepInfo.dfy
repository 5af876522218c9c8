/** get_step_info of generate_stats.py: reading test results out of a log into which another process
    has dropped messages in the middle of lines. */
module StepInfo {
  import opened Columns
  import opened Text

  const INFO_TAG := "*RESULT"
  // In parts, since the verifier settles that a character is not in a literal for short ones only.
  const NOTICE := "S" + "till waiting for the follo" + "wing processes to finish:"

  // ---- Undoing the interleaving ----

  // The tagged lines the loop gets to parse, from a saved <start_of_result> and a number of lines to skip.
  function Effective(saved: string, skip: nat, lines: seq<string>): seq<string>
    decreases |lines|
  {
    if lines == [] then []
    else if skip > 0 then Effective(saved, skip - 1, lines[1..])
    else
      var line := saved + lines[0];
      if !Has(line, INFO_TAG) then Effective("", 0, lines[1..])
      else if Has(line, NOTICE) then Effective(Before(line, NOTICE), 1, lines[1..])
      else [line] + Effective("", 0, lines[1..])
  }

  ghost predicate Tagged(lines: seq<string>) { forall l :: l in lines ==> Contains(l, INFO_TAG) }

  // The lines of a log that hold the tag.
  function TaggedLines(lines: seq<string>): seq<string> {
    if lines == [] then []
    else (if Has(lines[0], INFO_TAG) then [lines[0]] else []) + TaggedLines(lines[1..])
  }

  // Where no message was dropped, all the tagged lines are parsed, each once and in order.
  lemma {:induction false} CleanIsTagged(lines: seq<string>)
    requires forall l :: l in lines && Contains(l, INFO_TAG) ==> !Contains(l, NOTICE)
    ensures Effective("", 0, lines) == TaggedLines(lines)
  {
    hide NOTICE, INFO_TAG, Contains;
    if lines != [] {
      EffectiveStep("", 0, lines);
      assert "" + lines[0] == lines[0] && lines[0] in lines;
      CleanIsTagged(lines[1..]);
    }
  }

  // A message dropped into a line after piece: the notice, the rest of its line, and one line of its own.
  datatype Cut = Cut(piece: string, rest: string, message: string)

  // A line of the clean log, as the pieces before each cut and what follows the last.
  datatype Line = Line(cuts: seq<Cut>, tail: string)

  function Pieces(cuts: seq<Cut>): string {
    if cuts == [] then "" else cuts[0].piece + Pieces(cuts[1..])
  }

  function Clean(l: Line): string { Pieces(l.cuts) + l.tail }

  // What the log holds instead.
  function Broken(cuts: seq<Cut>, tail: string): seq<string> {
    if cuts == [] then [tail]
    else [cuts[0].piece + NOTICE + cuts[0].rest, cuts[0].message] + Broken(cuts[1..], tail)
  }

  function CleanLog(log: seq<Line>): seq<string> {
    if log == [] then [] else [Clean(log[0])] + CleanLog(log[1..])
  }

  function BrokenLog(log: seq<Line>): seq<string> {
    if log == [] then [] else Broken(log[0].cuts, log[0].tail) + BrokenLog(log[1..])
  }

  // The clean line does not hold the notice itself, and is cut, if at all, after the tag.
  ghost predicate CutAfterTag(l: Line) {
    && (Contains(Clean(l), INFO_TAG) ==> !Contains(Clean(l), NOTICE))
    && (l.cuts != [] ==> Contains(l.cuts[0].piece, INFO_TAG))
  }

  lemma NoticeHasOneCapital(k: nat)
    requires 0 < k < |NOTICE|
    ensures NOTICE[k] != 'S'
  {
    var a, b := "till waiting for the follo", "wing processes to finish:";
    assert 'S' !in a;
    assert 'S' !in b;
    assert NOTICE[k] == if k <= |a| then a[k - 1] else b[k - 1 - |a|];
  }

  // The notice starts with its only capital S, so it cannot begin inside the text before it.
  lemma NoticeIsFirst(s: string, rest: string)
    requires !Contains(s, NOTICE)
    ensures Contains(s + NOTICE + rest, NOTICE)
    ensures Before(s + NOTICE + rest, NOTICE) == s
  {
    var t := s + NOTICE + rest;
    assert t[|s|..|s| + |NOTICE|] == NOTICE;
    forall j | 0 <= j < |s| ensures !OccursAt(t, NOTICE, j) {
      if j + |NOTICE| <= |s| {
        assert s[j..j + |NOTICE|] == t[j..j + |NOTICE|];
        assert !OccursAt(s, NOTICE, j);
      } else if j + |NOTICE| <= |t| {
        assert t[j..j + |NOTICE|][|s| - j] == t[|s|] == 'S';
        NoticeHasOneCapital(|s| - j);
      }
    }
    assert OccursAt(t, NOTICE, |s|);
    FindIsFirst(t, NOTICE, |s|);
  }

  // One line read by the loop.
  lemma EffectiveStep(saved: string, skip: nat, lines: seq<string>)
    requires lines != []
    ensures Effective(saved, skip, lines) ==
      if skip > 0 then Effective(saved, skip - 1, lines[1..])
      else if !Has(saved + lines[0], INFO_TAG) then Effective("", 0, lines[1..])
      else if Has(saved + lines[0], NOTICE) then Effective(Before(saved + lines[0], NOTICE), 1, lines[1..])
      else [saved + lines[0]] + Effective("", 0, lines[1..])
  {}

  lemma SubstringFree(s: string, t: string, pat: string)
    requires !Contains(s + t, pat)
    ensures !Contains(s, pat)
  {
    if Contains(s, pat) { ContainsPrefix(s, t, pat); }
  }

  // Reading a broken line up to and including the dropped message.
  lemma ReadCut(saved: string, c: Cut, more: seq<string>)
    requires Contains(saved + c.piece, INFO_TAG) && !Contains(saved + c.piece, NOTICE)
    ensures Effective(saved, 0, [c.piece + NOTICE + c.rest, c.message] + more) == Effective(saved + c.piece, 0, more)
  {
    hide Effective, Before, NOTICE, INFO_TAG, Contains;
    var s := saved + c.piece;
    var lines := [c.piece + NOTICE + c.rest, c.message] + more;
    ContainsPrefix(s, NOTICE + c.rest, INFO_TAG);
    assert saved + lines[0] == s + NOTICE + c.rest == s + (NOTICE + c.rest);
    NoticeIsFirst(s, c.rest);
    EffectiveStep(saved, 0, lines);
    EffectiveStep(s, 1, lines[1..]);
    assert lines[1..][1..] == more;
  }

  lemma ReadTail(saved: string, tail: string, more: seq<string>)
    ensures Effective(saved, 0, [tail] + more) == Effective("", 0, [saved + tail] + more)
  {
    assert "" + (saved + tail) == saved + tail;
    assert ([tail] + more)[1..] == ([saved + tail] + more)[1..] == more;
  }

  lemma {:induction false} BrokenLineRebuilt(saved: string, cuts: seq<Cut>, tail: string, more: seq<string>)
    requires var whole := saved + Pieces(cuts) + tail; Contains(whole, INFO_TAG) ==> !Contains(whole, NOTICE)
    requires cuts != [] ==> Contains(saved + cuts[0].piece, INFO_TAG)
    ensures Effective(saved, 0, Broken(cuts, tail) + more) == Effective("", 0, [saved + Pieces(cuts) + tail] + more)
    decreases |cuts|
  {
    hide Contains, Effective;
    var whole := saved + Pieces(cuts) + tail;
    if cuts == [] {
      assert whole == saved + tail;
      ReadTail(saved, tail, more);
    } else {
      var c, s := cuts[0], saved + cuts[0].piece;
      assert s + (Pieces(cuts[1..]) + tail) == whole == s + Pieces(cuts[1..]) + tail;
      ContainsPrefix(s, Pieces(cuts[1..]) + tail, INFO_TAG);
      SubstringFree(s, Pieces(cuts[1..]) + tail, NOTICE);
      assert Broken(cuts, tail) + more == [c.piece + NOTICE + c.rest, c.message] + (Broken(cuts[1..], tail) + more);
      ReadCut(saved, c, Broken(cuts[1..], tail) + more);
      if |cuts| > 1 { ContainsPrefix(s, cuts[1].piece, INFO_TAG); }
      BrokenLineRebuilt(s, cuts[1..], tail, more);
    }
  }

  lemma {:induction false} EffectiveTail(line: string, a: seq<string>, b: seq<string>)
    requires Effective("", 0, a) == Effective("", 0, b)
    requires Contains(line, INFO_TAG) ==> !Contains(line, NOTICE)
    ensures Effective("", 0, [line] + a) == Effective("", 0, [line] + b)
  {
    assert "" + line == line;
  }

  // However the messages fall, cutting after the tag loses nothing.
  lemma {:induction false} BrokenLogRebuilt(log: seq<Line>)
    requires forall l :: l in log ==> CutAfterTag(l)
    ensures Effective("", 0, BrokenLog(log)) == Effective("", 0, CleanLog(log))
  {
    if log != [] {
      hide Effective, Contains, NOTICE, INFO_TAG;
      BrokenLogRebuilt(log[1..]);
      var l := log[0];
      assert l in log;
      assert "" + Pieces(l.cuts) + l.tail == Clean(l);
      if l.cuts != [] { assert "" + l.cuts[0].piece == l.cuts[0].piece; }
      BrokenLineRebuilt("", l.cuts, l.tail, BrokenLog(log[1..]));
      EffectiveTail(Clean(l), BrokenLog(log[1..]), CleanLog(log[1..]));
    }
  }

  // A cut is undone whatever the message and the rest of the notice's line are exactly when it falls after the tag.
  lemma CutUndoneIff(p: string, t: string)
    requires Contains(p + t, INFO_TAG) && !Contains(p + t, NOTICE)
    ensures (forall rest, message :: Effective("", 0, [p + NOTICE + rest, message, t]) == [p + t]) <==>
      Contains(p, INFO_TAG)
  {
    if Contains(p, INFO_TAG) {
      forall rest, message ensures Effective("", 0, [p + NOTICE + rest, message, t]) == [p + t] {
        var c := Cut(p, rest, message);
        assert "" + Pieces([c]) + t == p + t && "" + p == p;
        BrokenLineRebuilt("", [c], t, []);
        assert Broken([c], t) + [] == [p + NOTICE + rest, message, t];
        ReadWhole(p + t);
      }
    } else {
      var message := p + t + "!";
      ReadUntagged(p, message, t);
      ContainsPrefix(p + t, "!", INFO_TAG);
      NoticeNotAtEnd(p + t);
      var lines := [message, t];
      assert Effective("", 0, [p + NOTICE + "", message, t]) == Effective("", 0, lines);
      assert "" + lines[0] == message;
      assert Effective("", 0, lines)[0] == message != p + t;
    }
  }

  lemma ReadWhole(line: string)
    requires Contains(line, INFO_TAG) && !Contains(line, NOTICE)
    ensures Effective("", 0, [line] + []) == [line]
  {
    assert "" + line == line;
  }

  lemma NoticeNotAtEnd(s: string)
    requires !Contains(s, NOTICE)
    ensures !Contains(s + "!", NOTICE)
  {
    forall i ensures !OccursAt(s + "!", NOTICE, i) { NoticeNotAt(s, i); }
  }

  lemma NoticeNotAt(s: string, i: int)
    requires !Contains(s, NOTICE)
    ensures !OccursAt(s + "!", NOTICE, i)
  {
    var t := s + "!";
    if 0 <= i && i + |NOTICE| == |t| {
      assert t[i..i + |NOTICE|][|NOTICE| - 1] == '!';
    } else if 0 <= i && i + |NOTICE| <= |s| {
      assert s[i..i + |NOTICE|] == t[i..i + |NOTICE|];
      assert !OccursAt(s, NOTICE, i);
    }
  }

  // Neither the notice nor the join of an untagged piece with it holds the tag.
  lemma ReadUntagged(p: string, message: string, t: string)
    requires !Contains(p, INFO_TAG)
    ensures Effective("", 0, [p + NOTICE + "", message, t]) == Effective("", 0, [message, t])
  {
    var line := p + NOTICE + "";
    assert line == p + NOTICE;
    forall i ensures !OccursAt(line, INFO_TAG, i) { TagNotAt(p, i); }
    assert "" + line == line;
    assert [line, message, t][1..] == [message, t];
  }

  lemma TagNotAt(p: string, i: int)
    requires !Contains(p, INFO_TAG)
    ensures !OccursAt(p + NOTICE, INFO_TAG, i)
  {
    var t := p + NOTICE;
    if 0 <= i && i + 7 <= |p| {
      assert p[i..i + 7] == t[i..i + 7];
      assert !OccursAt(p, INFO_TAG, i);
    } else if 0 <= i && i + 7 <= |t| {
      var w := t[i..i + 7];
      if i >= |p| {
        assert w[0] == t[i] == NOTICE[i - |p|];
        NoticeHasNoStar(i - |p|);
      } else {
        assert w[|p| - i] == t[|p|] == 'S';
        assert NOTICE[1] == 't';
        assert |p| - i == 3 ==> w[4] == t[|p| + 1] == 't';
      }
    }
  }

  lemma NoticeHasNoStar(k: nat)
    requires k < |NOTICE|
    ensures NOTICE[k] != '*'
  {
    var a, b := "till waiting for the follo", "wing processes to finish:";
    assert '*' !in a;
    assert '*' !in b;
    assert NOTICE[k] == if k == 0 then 'S' else if k <= |a| then a[k - 1] else b[k - 1 - |a|];
  }

  // ---- Adding up the results ----

  datatype Value = Num(n: int) | Str(s: string)

  datatype Entry = Entry(key: string, value: Value)

  // '<tag>: <key>: <value>', where the value is a number if int() takes it.
  function EntryOf(parseInt: string -> Option<int>, line: string): Option<Entry>
    requires Contains(line, INFO_TAG)
  {
    var columns := Split(After(line, INFO_TAG), ':');
    if |columns| != 3 then None
    else
      var n := parseInt(columns[2]);
      Some(Entry(Strip(columns[1]), if n.Some? then Num(n.value) else Str(Strip(columns[2]))))
  }

  // A line with a result: what comes before the tag, up to the first colon, the key and the value.
  datatype Item = Item(prefix: string, title: string, key: string, value: string)
  {
    function Text(): string { title + ":" + key + ":" + value }

    function Printed(): string { prefix + INFO_TAG + Text() }

    // No colon in its parts, and no tag before the one printed.
    ghost predicate Valid() {
      && ':' !in title && ':' !in key && ':' !in value
      && forall i :: 0 <= i < |prefix| ==> !OccursAt(Printed(), INFO_TAG, i)
    }
  }

  // A value is a number if int() takes it, and otherwise the string without the spaces around it.
  function ReadValue(parseInt: string -> Option<int>, value: string): Value {
    var n := parseInt(value);
    if n.Some? then Num(n.value) else Str(Strip(value))
  }

  lemma PrintedTag(i: Item)
    requires i.Valid()
    ensures Contains(i.Printed(), INFO_TAG)
    ensures Before(i.Printed(), INFO_TAG) == i.prefix && After(i.Printed(), INFO_TAG) == i.Text()
  {
    var s, n := i.Printed(), |i.prefix|;
    assert s[n..n + |INFO_TAG|] == INFO_TAG;
    assert OccursAt(s, INFO_TAG, n);
    FindIsFirst(s, INFO_TAG, n);
    assert s[..n] == i.prefix && s[n + |INFO_TAG|..] == i.Text();
  }

  lemma SplitText(i: Item)
    requires ':' !in i.title && ':' !in i.key && ':' !in i.value
    ensures Split(i.Text(), ':') == [i.title, i.key, i.value]
  {
    assert i.Text() == i.title + [':'] + (i.key + [':'] + i.value);
    SplitFirst(i.title, i.key + [':'] + i.value, ':');
    SplitFirst(i.key, i.value, ':');
    SplitNone(i.value, ':');
  }

  // A printed line is read as its key and value, ...
  lemma EntryOfPrinted(parseInt: string -> Option<int>, i: Item)
    requires i.Valid()
    ensures Contains(i.Printed(), INFO_TAG)
    ensures EntryOf(parseInt, i.Printed()) == Some(Entry(Strip(i.key), ReadValue(parseInt, i.value)))
  {
    PrintedTag(i);
    SplitText(i);
    hide INFO_TAG, Contains, Item.Text, Item.Printed, After;
  }

  // ... and any other line with a tag is passed over.
  lemma EntryIff(parseInt: string -> Option<int>, line: string)
    requires Contains(line, INFO_TAG)
    ensures EntryOf(parseInt, line).Some? <==> exists i: Item :: i.Valid() && i.Printed() == line
  {
    if i: Item :| i.Valid() && i.Printed() == line { EntryOfPrinted(parseInt, i); }
    var columns := Split(After(line, INFO_TAG), ':');
    if |columns| == 3 {
      var i := Item(Before(line, INFO_TAG), columns[0], columns[1], columns[2]);
      JoinSplit(After(line, INFO_TAG), ':');
      ThreeJoined(columns);
      WholeLine(line);
      assert i.Printed() == line;
      assert columns[0] in columns && columns[1] in columns && columns[2] in columns;
      assert i.Valid();
    }
  }

  lemma ThreeJoined(columns: seq<string>)
    requires |columns| == 3
    ensures Join(columns, ':') == columns[0] + ":" + columns[1] + ":" + columns[2]
  {
    assert Join(columns[1..][1..], ':') == columns[2];
    assert Join(columns[1..], ':') == columns[1] + [':'] + columns[2];
    assert columns[0] + [':'] + (columns[1] + [':'] + columns[2]) == columns[0] + ":" + columns[1] + ":" + columns[2];
  }

  lemma WholeLine(line: string)
    requires Contains(line, INFO_TAG)
    ensures line == Before(line, INFO_TAG) + INFO_TAG + After(line, INFO_TAG)
    ensures forall i :: 0 <= i < |Before(line, INFO_TAG)| ==> !OccursAt(line, INFO_TAG, i)
  {
    var n := FindFrom(line, INFO_TAG, 0);
    assert OccursAt(line, INFO_TAG, n);
    assert line == line[..n] + line[n..n + |INFO_TAG|] + line[n + |INFO_TAG|..];
  }

  const CELL_LIMIT := 50000

  // None where the script raises: a number added to a string, or a string to a number.
  function AddEntry(info: map<string, Value>, e: Entry): Option<map<string, Value>> {
    match e.value
    case Num(n) =>
      if e.key !in info then Some(info[e.key := Num(n)])
      else if info[e.key].Str? then None
      else Some(info[e.key := Num(info[e.key].n + n)])
    case Str(s) =>
      if e.key !in info then Some(info[e.key := Str(s)])
      else if info[e.key].Num? then None
      else if |info[e.key].s| + |"\n" + s| < CELL_LIMIT then Some(info[e.key := Str(info[e.key].s + ("\n" + s))])
      else Some(info)
  }

  function AddAll(entries: seq<Entry>): Option<map<string, Value>> {
    if entries == [] then Some(map[])
    else
      var r := AddAll(entries[..|entries| - 1]);
      if r.None? then None else AddEntry(r.value, entries[|entries| - 1])
  }

  // The values given for a key, in order.
  function ValuesOf(entries: seq<Entry>, k: string): seq<Value> {
    if entries == [] then []
    else
      var e := entries[|entries| - 1];
      ValuesOf(entries[..|entries| - 1], k) + if e.key == k then [e.value] else []
  }

  function Sum(vs: seq<Value>): int {
    if vs == [] then 0
    else Sum(vs[..|vs| - 1]) + if vs[|vs| - 1].Num? then vs[|vs| - 1].n else 0
  }

  // The strings one below the other, leaving out any that would reach the limit of a cell.
  function Lines(vs: seq<Value>): string {
    if vs == [] || vs[|vs| - 1].Num? then ""
    else if |vs| == 1 then vs[0].s
    else
      var t, s := Lines(vs[..|vs| - 1]), vs[|vs| - 1].s;
      if |t| + 1 + |s| < CELL_LIMIT then t + "\n" + s else t
  }

  ghost predicate AllNum(vs: seq<Value>) { forall v :: v in vs ==> v.Num? }

  ghost predicate AllStr(vs: seq<Value>) { forall v :: v in vs ==> v.Str? }

  ghost predicate Mixed(vs: seq<Value>) { !AllNum(vs) && !AllStr(vs) }

  // A key with only numbers holds their sum, and one with only strings holds them joined.
  ghost predicate Summary(vs: seq<Value>, info: map<string, Value>, k: string) {
    && (k in info <==> vs != [])
    && (vs != [] ==> (AllNum(vs) && info[k] == Num(Sum(vs))) || (AllStr(vs) && info[k] == Str(Lines(vs))))
  }

  ghost predicate Summarises(entries: seq<Entry>, info: map<string, Value>) {
    forall k :: Summary(ValuesOf(entries, k), info, k)
  }

  lemma ValuesSnoc(init: seq<Entry>, e: Entry, k: string)
    ensures ValuesOf(init + [e], k) == if e.key == k then ValuesOf(init, k) + [e.value] else ValuesOf(init, k)
  {
    assert (init + [e])[..|init|] == init;
  }

  lemma MixedSnoc(vs: seq<Value>, v: Value)
    ensures AllNum(vs + [v]) <==> AllNum(vs) && v.Num?
    ensures AllStr(vs + [v]) <==> AllStr(vs) && v.Str?
  {
    assert forall x :: x in vs ==> x in vs + [v];
    assert v in vs + [v];
  }

  // One entry: it raises exactly when it is the first to make the values of its key mixed.
  lemma AddEntrySummarises(init: seq<Entry>, e: Entry, info: map<string, Value>)
    requires Summarises(init, info)
    ensures AddEntry(info, e).None? <==> Mixed(ValuesOf(init + [e], e.key))
    ensures AddEntry(info, e).Some? ==> Summarises(init + [e], AddEntry(info, e).value)
  {
    hide ValuesOf, Mixed, AddEntry, Summary;
    assert Summary(ValuesOf(init, e.key), info, e.key);
    ValuesSnoc(init, e, e.key);
    SummarySnoc(ValuesOf(init, e.key), info, e);
    if AddEntry(info, e).Some? {
      forall k ensures Summary(ValuesOf(init + [e], k), AddEntry(info, e).value, k) {
        ValuesSnoc(init, e, k);
        assert Summary(ValuesOf(init, k), info, k);
        if k != e.key { SummaryElsewhere(ValuesOf(init, k), info, e, k); }
      }
    }
  }

  lemma SummaryElsewhere(vs: seq<Value>, info: map<string, Value>, e: Entry, k: string)
    requires Summary(vs, info, k) && AddEntry(info, e).Some? && k != e.key
    ensures Summary(vs, AddEntry(info, e).value, k)
  {
    hide AllNum, AllStr, Sum, Lines;
  }

  lemma SummarySnoc(vs: seq<Value>, info: map<string, Value>, e: Entry)
    requires Summary(vs, info, e.key)
    ensures AddEntry(info, e).None? <==> Mixed(vs + [e.value])
    ensures AddEntry(info, e).Some? ==> Summary(vs + [e.value], AddEntry(info, e).value, e.key)
  {
    MixedSnoc(vs, e.value);
    var ws := vs + [e.value];
    assert ws[..|ws| - 1] == vs;
    if vs != [] { assert vs[0] in vs; }
  }

  // The script raises exactly when some key is given both numbers and strings.
  lemma {:induction false} AddAllSummarises(entries: seq<Entry>)
    ensures AddAll(entries).None? <==> exists k :: Mixed(ValuesOf(entries, k))
    ensures AddAll(entries).Some? ==> Summarises(entries, AddAll(entries).value)
  {
    hide Mixed, Summary;
    if entries == [] {
      NoValues();
    } else {
      var init, e := entries[..|entries| - 1], entries[|entries| - 1];
      assert entries == init + [e];
      AddAllSummarises(init);
      forall k ensures Mixed(ValuesOf(init, k)) ==> Mixed(ValuesOf(entries, k)) {
        ValuesSnoc(init, e, k);
        MixedGrows(ValuesOf(init, k), e.value);
      }
      if AddAll(init).None? {
        var k :| Mixed(ValuesOf(init, k));
        assert Mixed(ValuesOf(entries, k));
      } else {
        AddEntrySummarises(init, e, AddAll(init).value);
        if k :| Mixed(ValuesOf(entries, k)) {
          ValuesSnoc(init, e, k);
          assert k == e.key;
        }
      }
    }
  }

  lemma NoValues()
    ensures Summarises([], map[]) && forall k :: !Mixed(ValuesOf([], k))
  {}

  lemma MixedGrows(vs: seq<Value>, v: Value)
    ensures Mixed(vs) ==> Mixed(vs + [v])
  {
    MixedSnoc(vs, v);
  }

  // No cell passes the limit unless its first string does, and nothing is left out of one that stays below it.
  function Joined(vs: seq<Value>): string {
    if vs == [] || vs[|vs| - 1].Num? then ""
    else if |vs| == 1 then vs[0].s
    else Joined(vs[..|vs| - 1]) + "\n" + vs[|vs| - 1].s
  }

  lemma {:induction false} CellLimit(vs: seq<Value>)
    requires vs != [] && AllStr(vs)
    ensures |Lines(vs)| < CELL_LIMIT || Lines(vs) == vs[0].s
    ensures vs[0].s <= Lines(vs)
    ensures |Joined(vs)| < CELL_LIMIT ==> Lines(vs) == Joined(vs)
  {
    assert vs[|vs| - 1] in vs && vs[0] in vs;
    if |vs| > 1 {
      var init := vs[..|vs| - 1];
      assert forall v :: v in init ==> v in vs;
      CellLimit(init);
    }
  }

  // ---- get_step_info ----

  datatype StepResult = Raised | NoInfo | Info(info: map<string, Value>)

  // validate_step_info: an empty result is rejected, and checking the total raises on a column that is not a number.
  function Validated(parseInt: string -> Option<int>, info: map<string, Value>): StepResult {
    if info == map[] then NoInfo
    else if "Total" in info
      && exists k :: k in MAIN_RESULT_COLUMNS && k in info && info[k].Str? && parseInt(info[k].s).None? then Raised
    else Info(info)
  }

  function EntriesOf(parseInt: string -> Option<int>, lines: seq<string>): seq<Entry>
    requires Tagged(lines)
  {
    if lines == [] then []
    else
      var rest := EntriesOf(parseInt, lines[..|lines| - 1]);
      var e := EntryOf(parseInt, lines[|lines| - 1]);
      if e.Some? then rest + [e.value] else rest
  }

  lemma {:induction false} EffectiveAreTagged(saved: string, skip: nat, lines: seq<string>)
    ensures forall l :: l in Effective(saved, skip, lines) ==> Contains(l, INFO_TAG)
    decreases |lines|
  {
    if lines != [] {
      if skip > 0 {
        EffectiveAreTagged(saved, skip - 1, lines[1..]);
      } else {
        var line := saved + lines[0];
        EffectiveAreTagged("", 0, lines[1..]);
        if Has(line, NOTICE) { EffectiveAreTagged(Before(line, NOTICE), 1, lines[1..]); }
      }
    }
  }

  function EntriesIn(parseInt: string -> Option<int>, lines: seq<string>): seq<Entry> {
    EffectiveAreTagged("", 0, lines);
    EntriesOf(parseInt, Effective("", 0, lines))
  }

  // What get_step_info makes of a log.
  function StepInfoOf(parseInt: string -> Option<int>, lines: seq<string>): StepResult {
    var r := AddAll(EntriesIn(parseInt, lines));
    if r.None? then Raised else Validated(parseInt, r.value)
  }

  lemma {:induction false} TaggedLinesHoldTag(lines: seq<string>)
    ensures Tagged(TaggedLines(lines))
  {
    if lines != [] { TaggedLinesHoldTag(lines[1..]); }
  }

  // What a script that is given these values for the keys comes to. It raises if a key has both numbers and strings, or
  // if a total is to be checked and a main column is no number; without any values there is no info; and otherwise the
  // info holds the sum or the join of the values of each key.
  ghost predicate ComesTo(parseInt: string -> Option<int>, given: string -> seq<Value>, r: StepResult) {
    if exists k :: Mixed(given(k)) then r == Raised
    else if forall k :: given(k) == [] then r == NoInfo
    else if given("Total") != [] && exists k :: k in MAIN_RESULT_COLUMNS && NotANumber(parseInt, given(k)) then
      r == Raised
    else r.Info? && forall k :: Summary(given(k), r.info, k)
  }

  ghost predicate NotANumber(parseInt: string -> Option<int>, vs: seq<Value>) {
    vs != [] && AllStr(vs) && parseInt(Lines(vs)).None?
  }

  ghost predicate IsResult(parseInt: string -> Option<int>, tagged: seq<string>, r: StepResult)
    requires Tagged(tagged)
  {
    ComesTo(parseInt, k => ValuesOf(EntriesOf(parseInt, tagged), k), r)
  }

  lemma ValidatedComesTo(parseInt: string -> Option<int>, given: string -> seq<Value>, info: map<string, Value>)
    requires (forall k :: !Mixed(given(k))) && forall k :: Summary(given(k), info, k)
    ensures ComesTo(parseInt, given, Validated(parseInt, info))
  {
    hide Mixed, AllNum, AllStr, Sum, Lines;
    if info == map[] {
      forall k ensures given(k) == [] { assert Summary(given(k), info, k); }
    } else {
      var k :| k in info;
      assert Summary(given(k), info, k);
      SummaryOfAll(given, info);
      forall k | k in info ensures info[k].Str? && parseInt(info[k].s).None? <==> NotANumber(parseInt, given(k)) {
        StringIsNoNumber(parseInt, given(k), info, k);
      }
    }
  }

  lemma SummaryOfAll(given: string -> seq<Value>, info: map<string, Value>)
    requires forall k :: Summary(given(k), info, k)
    ensures forall k :: k in info <==> given(k) != []
  {
    forall k ensures k in info <==> given(k) != [] { assert Summary(given(k), info, k); }
  }

  lemma StringIsNoNumber(parseInt: string -> Option<int>, vs: seq<Value>, info: map<string, Value>, k: string)
    requires Summary(vs, info, k) && k in info
    ensures info[k].Str? && parseInt(info[k].s).None? <==> NotANumber(parseInt, vs)
  {
    assert vs[0] in vs;
  }

  // The result of a broken log is that of the tagged lines of the clean one.
  lemma BrokenLogResult(parseInt: string -> Option<int>, log: seq<Line>)
    requires forall l :: l in log ==> CutAfterTag(l)
    ensures Tagged(TaggedLines(CleanLog(log)))
    ensures IsResult(parseInt, TaggedLines(CleanLog(log)), StepInfoOf(parseInt, BrokenLog(log)))
  {
    var tagged := TaggedLines(CleanLog(log));
    TaggedLinesHoldTag(CleanLog(log));
    BrokenLogRebuilt(log);
    CleanLogIsClean(log);
    CleanIsTagged(CleanLog(log));
    hide Effective, Contains, TaggedLines, CleanLog, BrokenLog, Validated, EntriesOf, ComesTo, ValuesOf, AddAll;
    var entries := EntriesOf(parseInt, tagged);
    assert EntriesIn(parseInt, BrokenLog(log)) == entries;
    AddedComesTo(parseInt, entries);
    SameValues(parseInt, k => ValuesOf(entries, k), k => ValuesOf(EntriesOf(parseInt, tagged), k),
               StepInfoOf(parseInt, BrokenLog(log)));
  }

  lemma AddedComesTo(parseInt: string -> Option<int>, entries: seq<Entry>)
    ensures ComesTo(parseInt, k => ValuesOf(entries, k),
                    if AddAll(entries).None? then Raised else Validated(parseInt, AddAll(entries).value))
  {
    AddAllSummarises(entries);
    hide Validated, Mixed, Summary, ValuesOf, AddAll;
    var given: string -> seq<Value> := k => ValuesOf(entries, k);
    if AddAll(entries).Some? {
      forall k ensures !Mixed(given(k)) && Summary(given(k), AddAll(entries).value, k) {
        assert given(k) == ValuesOf(entries, k);
      }
      ValidatedComesTo(parseInt, given, AddAll(entries).value);
    } else {
      var k :| Mixed(ValuesOf(entries, k));
      assert Mixed(given(k));
    }
  }

  // ---- Printed results ----

  // A tagged line: one that was printed, or another.
  datatype Row = Row(text: string, item: Option<Item>)
  {
    ghost predicate Valid() {
      && Contains(text, INFO_TAG)
      && if item.Some? then item.value.Valid() && item.value.Printed() == text
         else forall i: Item :: i.Valid() ==> i.Printed() != text
    }
  }

  function Texts(rows: seq<Row>): seq<string> {
    if rows == [] then [] else Texts(rows[..|rows| - 1]) + [rows[|rows| - 1].text]
  }

  // The values printed for a key, in order.
  function ValuesPrinted(parseInt: string -> Option<int>, rows: seq<Row>, k: string): seq<Value> {
    if rows == [] then []
    else
      var i := rows[|rows| - 1].item;
      ValuesPrinted(parseInt, rows[..|rows| - 1], k)
        + if i.Some? && Strip(i.value.key) == k then [ReadValue(parseInt, i.value.value)] else []
  }

  lemma {:induction false} PrintedAreRead(parseInt: string -> Option<int>, rows: seq<Row>, k: string)
    requires forall r :: r in rows ==> r.Valid()
    ensures Tagged(Texts(rows))
    ensures ValuesOf(EntriesOf(parseInt, Texts(rows)), k) == ValuesPrinted(parseInt, rows, k)
  {
    hide EntryOf, Contains, Item.Printed, Item.Valid, INFO_TAG;
    if rows != [] {
      var init, r := rows[..|rows| - 1], rows[|rows| - 1];
      assert rows == init + [r] && r in rows;
      PrintedAreRead(parseInt, init, k);
      assert Texts(rows)[..|rows| - 1] == Texts(init) by { TextsLength(init); }
      TextsLength(init);
      EntryIff(parseInt, r.text);
      if r.item.Some? { EntryOfPrinted(parseInt, r.item.value); }
      var before, e := EntriesOf(parseInt, Texts(init)), EntryOf(parseInt, r.text);
      if e.Some? { ValuesSnoc(before, e.value, k); }
    }
  }

  lemma {:induction false} TextsLength(rows: seq<Row>)
    ensures |Texts(rows)| == |rows|
  {
    if rows != [] { TextsLength(rows[..|rows| - 1]); }
  }

  // So each result printed to the log adds its value to its key, and nothing else does, wherever messages are dropped
  // after the tags.
  lemma PrintedResult(parseInt: string -> Option<int>, log: seq<Line>, rows: seq<Row>)
    requires forall l :: l in log ==> CutAfterTag(l)
    requires (forall r :: r in rows ==> r.Valid()) && Texts(rows) == TaggedLines(CleanLog(log))
    ensures ComesTo(parseInt, k => ValuesPrinted(parseInt, rows, k), StepInfoOf(parseInt, BrokenLog(log)))
  {
    BrokenLogResult(parseInt, log);
    hide TaggedLines, CleanLog, BrokenLog, StepInfoOf, EntriesOf, ValuesOf, ValuesPrinted, Texts, Row.Valid;
    var tagged, r := TaggedLines(CleanLog(log)), StepInfoOf(parseInt, BrokenLog(log));
    forall k ensures ValuesOf(EntriesOf(parseInt, tagged), k) == ValuesPrinted(parseInt, rows, k) {
      PrintedAreRead(parseInt, rows, k);
    }
    SameValues(parseInt, k => ValuesOf(EntriesOf(parseInt, tagged), k), k => ValuesPrinted(parseInt, rows, k), r);
  }

  lemma SameValues(parseInt: string -> Option<int>, a: string -> seq<Value>, b: string -> seq<Value>, r: StepResult)
    requires ComesTo(parseInt, a, r) && forall k :: a(k) == b(k)
    ensures ComesTo(parseInt, b, r)
  {
    hide Mixed, Summary, NotANumber;
  }

  lemma {:induction false} CleanLogIsClean(log: seq<Line>)
    requires forall l :: l in log ==> CutAfterTag(l)
    ensures forall l :: l in CleanLog(log) && Contains(l, INFO_TAG) ==> !Contains(l, NOTICE)
  {
    hide Contains, Clean;
    if log != [] {
      assert log[0] in log;
      CleanLogIsClean(log[1..]);
    }
  }

  // The dropped messages do not change the result.
  lemma InterleavingIsHarmless(parseInt: string -> Option<int>, log: seq<Line>)
    requires forall l :: l in log ==> CutAfterTag(l)
    ensures StepInfoOf(parseInt, BrokenLog(log)) == StepInfoOf(parseInt, CleanLog(log))
  {
    BrokenLogRebuilt(log);
  }

  lemma {:induction false} EntriesOfConcat(parseInt: string -> Option<int>, a: seq<string>, b: seq<string>)
    requires forall l :: l in a + b ==> Contains(l, INFO_TAG)
    ensures forall l :: l in a || l in b ==> l in a + b
    ensures EntriesOf(parseInt, a + b) == EntriesOf(parseInt, a) + EntriesOf(parseInt, b)
  {
    hide EntryOf, Contains;
    assert forall l :: l in a || l in b ==> l in a + b;
    if b == [] {
      assert a + b == a;
    } else {
      var c := b[..|b| - 1];
      assert (a + b)[..|a + b| - 1] == a + c;
      EntriesOfConcat(parseInt, a, c);
    }
  }

  lemma {:induction false} AddAllStaysRaised(a: seq<Entry>, b: seq<Entry>)
    requires AddAll(a).None?
    ensures AddAll(a + b).None?
  {
    if b == [] {
      assert a + b == a;
    } else {
      assert (a + b)[..|a + b| - 1] == a + b[..|b| - 1];
      AddAllStaysRaised(a, b[..|b| - 1]);
    }
  }

  // The tagged lines are those read, which add up to info, and those still to come.
  ghost predicate ReadSoFar(parseInt: string -> Option<int>, all: seq<string>, read: seq<string>, more: seq<string>,
                            info: map<string, Value>)
  {
    && all == read + more
    && Tagged(all) && Tagged(read)
    && AddAll(EntriesOf(parseInt, read)) == Some(info)
  }

  lemma ReadLine(parseInt: string -> Option<int>, all: seq<string>, read: seq<string>, line: string, more: seq<string>,
                 info: map<string, Value>)
    requires ReadSoFar(parseInt, all, read, [line] + more, info) && Contains(line, INFO_TAG)
    ensures var e := EntryOf(parseInt, line);
            if e.None? then ReadSoFar(parseInt, all, read + [line], more, info)
            else if AddEntry(info, e.value).Some?
            then ReadSoFar(parseInt, all, read + [line], more, AddEntry(info, e.value).value)
            else AddAll(EntriesOf(parseInt, all)).None?
  {
    hide EntryOf, AddEntry;
    var read', e := read + [line], EntryOf(parseInt, line);
    assert all == read' + more;
    assert read'[..|read|] == read;
    var before := EntriesOf(parseInt, read);
    if e.Some? {
      assert (before + [e.value])[..|before|] == before;
      if AddEntry(info, e.value).None? {
        EntriesOfConcat(parseInt, read', more);
        AddAllStaysRaised(EntriesOf(parseInt, read'), EntriesOf(parseInt, more));
      }
    }
  }

  method GetStepInfo(parseInt: string -> Option<int>, out: seq<string>) returns (r: StepResult)
    ensures r == StepInfoOf(parseInt, out)
    ensures forall log :: out == BrokenLog(log) && (forall l :: l in log ==> CutAfterTag(l)) ==>
      Tagged(TaggedLines(CleanLog(log))) && IsResult(parseInt, TaggedLines(CleanLog(log)), r)
  {
    ResultsOfBroken(parseInt, out);
    hide EntryOf, AddEntry, Before, Effective, NOTICE, INFO_TAG, Validated, ReadSoFar, Contains;
    ghost var all := Effective("", 0, out);
    var stepInfo: map<string, Value> := map[];
    var workaroundPrevLine, workaroundPrevLineCount := "", 0;
    ghost var read: seq<string> := [];
    NothingRead(parseInt, out);
    var i := 0;
    while i < |out|
      invariant 0 <= i <= |out|
      invariant ReadSoFar(parseInt, all, read, Effective(workaroundPrevLine, workaroundPrevLineCount, out[i..]),
                          stepInfo)
    {
      EffectiveStep(workaroundPrevLine, workaroundPrevLineCount, out[i..]);
      assert out[i..][1..] == out[i + 1..];
      var line := out[i];
      i := i + 1;
      if workaroundPrevLineCount > 0 {
        workaroundPrevLineCount := workaroundPrevLineCount - 1;
        continue;
      } else if workaroundPrevLine != "" {
        line := workaroundPrevLine + line;
        workaroundPrevLine, workaroundPrevLineCount := "", 0;
      } else {
        assert "" + line == line;
      }
      if !Has(line, INFO_TAG) {
        continue;
      }
      if Has(line, NOTICE) {
        workaroundPrevLine, workaroundPrevLineCount := Before(line, NOTICE), 1;
        continue;
      }
      ReadLine(parseInt, all, read, line, Effective("", 0, out[i..]), stepInfo);
      read := read + [line];
      var entry := EntryOf(parseInt, line);
      if entry.None? {
        continue;
      }
      var added := AddEntry(stepInfo, entry.value);
      if added.None? {
        return Raised;
      }
      stepInfo := added.value;
    }
    AllRead(parseInt, out, workaroundPrevLine, workaroundPrevLineCount, read, stepInfo);
    r := Validated(parseInt, stepInfo);
  }

  lemma ResultsOfBroken(parseInt: string -> Option<int>, out: seq<string>)
    ensures forall log :: out == BrokenLog(log) && (forall l :: l in log ==> CutAfterTag(l)) ==>
      && Tagged(TaggedLines(CleanLog(log)))
      && IsResult(parseInt, TaggedLines(CleanLog(log)), StepInfoOf(parseInt, out))
  {
    forall log | out == BrokenLog(log) && (forall l :: l in log ==> CutAfterTag(l))
      ensures Tagged(TaggedLines(CleanLog(log)))
      ensures IsResult(parseInt, TaggedLines(CleanLog(log)), StepInfoOf(parseInt, out))
    {
      BrokenLogResult(parseInt, log);
    }
  }

  lemma NothingRead(parseInt: string -> Option<int>, out: seq<string>)
    ensures ReadSoFar(parseInt, Effective("", 0, out), [], Effective("", 0, out[0..]), map[])
  {
    EffectiveAreTagged("", 0, out);
    assert out[0..] == out;
  }

  lemma AllRead(parseInt: string -> Option<int>, out: seq<string>, saved: string, skip: nat, read: seq<string>,
                info: map<string, Value>)
    requires ReadSoFar(parseInt, Effective("", 0, out), read, Effective(saved, skip, out[|out|..]), info)
    ensures AddAll(EntriesIn(parseInt, out)) == Some(info)
  {
    assert out[|out|..] == [];
    assert read == Effective("", 0, out);
  }
}
