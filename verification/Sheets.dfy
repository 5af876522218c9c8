/** update_headers and update_values of generate_stats.py: the columns of a sheet, and the row appended for a step. */
module Sheets {
  import opened Columns
  import opened Formula
  import opened Sorting
  import opened StepInfo

  // A step of a bot: its sheet, the info of the bot, and the info of the step with its keys in the order they are
  // listed.
  datatype Step = Step(sheet: string, bot: map<string, Value>, keys: seq<string>, info: map<string, Value>)
  {
    ghost predicate Valid() { forall k :: k in keys <==> k in info }
  }

  function Append(h: seq<string>, k: string): seq<string> { if k in h then h else h + [k] }

  // The headers with any of the keys they lack added at the end.
  function Extended(h: seq<string>, ks: seq<string>): seq<string> {
    if ks == [] then h else Append(Extended(h, ks[..|ks| - 1]), ks[|ks| - 1])
  }

  // All the columns the steps need in a sheet.
  function Wanted(steps: seq<Step>, sheet: string): seq<string> {
    if steps == [] then []
    else
      var s := steps[|steps| - 1];
      Wanted(steps[..|steps| - 1], sheet) + if s.sheet == sheet then REQUIRED_COLUMNS + s.keys else []
  }

  // Nothing moves, nothing needed is missing, and what is added is needed, was missing and is added once.
  lemma {:induction false} ExtendedCorrect(h: seq<string>, ks: seq<string>)
    ensures var r := Extended(h, ks);
            && h <= r
            && (forall k :: k in ks ==> k in r)
            && (forall k :: k in r[|h|..] ==> k in ks && k !in h)
            && NoDuplicates(r[|h|..])
            && (NoDuplicates(h) ==> NoDuplicates(r))
  {
    if ks != [] {
      var init, k := ks[..|ks| - 1], ks[|ks| - 1];
      ExtendedCorrect(h, init);
      var q, r := Extended(h, init), Extended(h, ks);
      assert forall x :: x in ks <==> x in init || x == k;
      assert q == h + q[|h|..];
      if k !in q { assert r[|h|..] == q[|h|..] + [k]; }
    }
  }

  // Headers are left alone exactly when they already have all the keys.
  lemma {:induction false} ExtendedStable(h: seq<string>, ks: seq<string>)
    ensures Extended(h, ks) == h <==> forall k :: k in ks ==> k in h
  {
    ExtendedCorrect(h, ks);
    var r := Extended(h, ks);
    if |r| > |h| { assert r[|h|] in r[|h|..]; }
  }

  // So updating the headers a second time for the same steps changes no sheet, and writes none back.
  lemma SecondUpdateWritesNothing(h: seq<string>, steps: seq<Step>, sheet: string)
    ensures var once := Extended(h, Wanted(steps, sheet));
            Extended(once, Wanted(steps, sheet)) == once
  {
    ExtendedCorrect(h, Wanted(steps, sheet));
    ExtendedStable(Extended(h, Wanted(steps, sheet)), Wanted(steps, sheet));
  }

  lemma {:induction false} ExtendedConcat(h: seq<string>, a: seq<string>, b: seq<string>)
    ensures Extended(h, a + b) == Extended(Extended(h, a), b)
  {
    if b == [] {
      assert a + b == a;
    } else {
      assert (a + b)[..|a + b| - 1] == a + b[..|b| - 1];
      ExtendedConcat(h, a, b[..|b| - 1]);
    }
  }

  // The value update_values puts under a header.
  function CellOf(headers: seq<string>, step: Step, key: string): Value {
    if key in step.bot && key in REQUIRED_COLUMNS then step.bot[key]
    else if key in step.info then step.info[key]
    else if key == "duplicate" then Str(GenerateDuplicateFormulaHelper(headers))
    else Str("")
  }

  ghost predicate Updated(hs: map<string, seq<string>>, now: map<string, seq<string>>, steps: seq<Step>,
                          data: seq<string>) {
    && now.Keys == hs.Keys
    && forall sheet :: sheet in now ==>
      && now[sheet] == Extended(hs[sheet], Wanted(steps, sheet))
      && (sheet in data <==> now[sheet] != hs[sheet])
  }

  lemma NothingUpdated(hs: map<string, seq<string>>)
    ensures Updated(hs, hs, [], [])
  {}

  lemma WhatUpdatedMeans(hs: map<string, seq<string>>, now: map<string, seq<string>>, steps: seq<Step>,
                         data: seq<string>)
    requires Updated(hs, now, steps, data)
    ensures now.Keys == hs.Keys
    ensures forall sheet :: sheet in now ==> now[sheet] == Extended(hs[sheet], Wanted(steps, sheet))
    ensures forall sheet :: sheet in now ==> (sheet in data <==> now[sheet] != hs[sheet])
  {}

  lemma UpdatedStep(hs: map<string, seq<string>>, before: map<string, seq<string>>, steps: seq<Step>, sent: seq<string>,
                    step: Step, now: map<string, seq<string>>, data: seq<string>)
    requires Updated(hs, before, steps, sent) && step.sheet in before
    requires var h := Extended(before[step.sheet], REQUIRED_COLUMNS);
             && now == before[step.sheet := h][step.sheet := Extended(h, step.keys)]
             && data == if h != before[step.sheet] || Extended(h, step.keys) != h then sent + [step.sheet] else sent
    ensures Updated(hs, now, steps + [step], data)
  {
    hide REQUIRED_COLUMNS, Extended, Wanted;
    forall sheet | sheet in now
      ensures now[sheet] == Extended(hs[sheet], Wanted(steps + [step], sheet))
        && (sheet in data <==> now[sheet] != hs[sheet])
    {
      WantedSnoc(steps, step, sheet);
      if sheet == step.sheet {
        ExtendedThrice(hs[sheet], Wanted(steps, sheet), REQUIRED_COLUMNS, step.keys);
      }
    }
  }

  lemma ExtendedThrice(h: seq<string>, w: seq<string>, a: seq<string>, b: seq<string>)
    ensures var h0 := Extended(h, w); var h1 := Extended(h0, a); var h2 := Extended(h1, b);
            && h2 == Extended(h, w + (a + b))
            && (h2 == h <==> h0 == h && h1 == h0 && h2 == h1)
  {
    var h0 := Extended(h, w);
    var h1 := Extended(h0, a);
    ExtendedConcat(h0, a, b);
    ExtendedConcat(h, w, a + b);
    Longer(h, w);
    Longer(h0, a);
    Longer(h1, b);
  }

  lemma Longer(h: seq<string>, ks: seq<string>)
    ensures |h| <= |Extended(h, ks)|
    ensures |h| == |Extended(h, ks)| ==> h == Extended(h, ks)
  {
    ExtendedCorrect(h, ks);
  }

  lemma WantedSnoc(steps: seq<Step>, step: Step, sheet: string)
    ensures Wanted(steps + [step], sheet) ==
      if step.sheet == sheet then Wanted(steps, sheet) + (REQUIRED_COLUMNS + step.keys) else Wanted(steps, sheet)
  {
    assert (steps + [step])[..|steps|] == steps;
  }

  class Spreadsheet {
    var headers: map<string, seq<string>>

    ghost predicate Covers(steps: seq<Step>)
      reads this
    {
      forall s :: s in steps ==> s.sheet in headers
    }

    method AddMissing(sheet: string, keys: seq<string>) returns (stale: bool)
      requires sheet in headers
      modifies this
      ensures headers == old(headers)[sheet := Extended(old(headers)[sheet], keys)]
      ensures stale <==> headers[sheet] != old(headers)[sheet]
    {
      stale := false;
      ghost var h := headers[sheet];
      var i := 0;
      while i < |keys|
        invariant 0 <= i <= |keys|
        invariant headers == old(headers)[sheet := Extended(h, keys[..i])]
        invariant h <= headers[sheet]
        invariant stale <==> |headers[sheet]| > |h|
      {
        assert keys[..i + 1][..i] == keys[..i];
        if keys[i] !in headers[sheet] {
          stale := true;
          headers := headers[sheet := headers[sheet] + [keys[i]]];
        }
        i := i + 1;
      }
      assert keys[..i] == keys;
    }

    // Returns the sheets whose first row is written back; what is written is the list object itself, and so its final
    // value.
    method UpdateHeaders(steps: seq<Step>) returns (data: seq<string>)
      requires Covers(steps)
      modifies this
      ensures headers.Keys == old(headers).Keys
      ensures forall sheet :: sheet in headers ==> headers[sheet] == Extended(old(headers)[sheet], Wanted(steps, sheet))
      ensures forall sheet :: sheet in headers ==> (sheet in data <==> headers[sheet] != old(headers)[sheet])
    {
      hide Extended, Wanted, Updated, REQUIRED_COLUMNS;
      data := [];
      ghost var hs := headers;
      NothingUpdated(hs);
      var n := 0;
      while n < |steps|
        invariant 0 <= n <= |steps|
        invariant headers.Keys == hs.Keys
        invariant Updated(hs, headers, steps[..n], data)
      {
        var step := steps[n];
        assert step in steps;
        ghost var before, sent := headers, data;
        var staleRequired := AddMissing(step.sheet, REQUIRED_COLUMNS);
        var staleKeys := AddMissing(step.sheet, step.keys);
        if staleRequired || staleKeys {
          data := data + [step.sheet];
        }
        UpdatedStep(hs, before, steps[..n], sent, step, headers, data);
        assert steps[..n + 1] == steps[..n] + [step];
        n := n + 1;
      }
      assert steps[..n] == steps;
      WhatUpdatedMeans(hs, headers, steps, data);
    }

    method RowOf(step: Step) returns (values: seq<Value>)
      requires step.sheet in headers
      ensures |values| == |headers[step.sheet]|
      ensures forall i :: 0 <= i < |values| ==> values[i] == CellOf(headers[step.sheet], step, headers[step.sheet][i])
    {
      hide GenerateDuplicateFormulaHelper;
      values := [];
      var h := headers[step.sheet];
      var i := 0;
      while i < |h|
        invariant 0 <= i <= |h| && |values| == i
        invariant forall j :: 0 <= j < i ==> values[j] == CellOf(h, step, h[j])
      {
        var key := h[i];
        if key in step.bot && key in REQUIRED_COLUMNS {
          values := values + [step.bot[key]];
        } else if key in step.info {
          values := values + [step.info[key]];
        } else if key == "duplicate" && key in REQUIRED_COLUMNS {
          values := values + [Str(GenerateDuplicateFormulaHelper(h))];
        } else {
          values := values + [Str("")];
        }
        i := i + 1;
      }
    }
  }

  // After update_headers every value of a step has a column of its own, and lands in it.
  lemma EveryValueLands(old_: seq<string>, steps: seq<Step>, step: Step, key: string)
    requires step in steps && step.Valid() && key in step.info
    requires key !in step.bot || key !in REQUIRED_COLUMNS
    ensures var h := Extended(old_, Wanted(steps, step.sheet));
            && key in h
            && h[IndexOf(h, key)] == key
            && CellOf(h, step, h[IndexOf(h, key)]) == step.info[key]
            && (NoDuplicates(old_) ==> forall i :: 0 <= i < |h| && h[i] == key ==> i == IndexOf(h, key))
  {
    hide GenerateDuplicateFormulaHelper;
    WantedCovers(steps, step, key);
    ExtendedCorrect(old_, Wanted(steps, step.sheet));
  }

  // A value of the bot lands in the column of its name, if it is one of those every sheet has; and a column that
  // neither bot nor step has anything for stays blank, but for the duplicate flag.
  lemma OtherCells(old_: seq<string>, steps: seq<Step>, step: Step, key: string)
    requires step in steps
    ensures var h := Extended(old_, Wanted(steps, step.sheet));
      && (key in step.bot && key in REQUIRED_COLUMNS ==> key in h && CellOf(h, step, key) == step.bot[key])
      && ((key !in step.bot || key !in REQUIRED_COLUMNS) && key !in step.info && key != "duplicate" ==>
            CellOf(h, step, key) == Str(""))
  {
    hide GenerateDuplicateFormulaHelper;
    if key in REQUIRED_COLUMNS { WantedCovers(steps, step, key); }
    ExtendedCorrect(old_, Wanted(steps, step.sheet));
  }

  // The columns a sheet needs are those every sheet has, if it has a step, and the keys of its steps.
  lemma {:induction false} WantedIff(steps: seq<Step>, sheet: string, key: string)
    ensures key in Wanted(steps, sheet) <==>
      exists s :: s in steps && s.sheet == sheet && (key in REQUIRED_COLUMNS || key in s.keys)
  {
    hide REQUIRED_COLUMNS;
    if steps != [] {
      var init, last := steps[..|steps| - 1], steps[|steps| - 1];
      assert steps == init + [last];
      WantedIff(init, sheet, key);
      assert forall s :: s in steps <==> s in init || s == last;
    }
  }

  lemma {:induction false} WantedCovers(steps: seq<Step>, step: Step, key: string)
    requires step in steps && (key in step.keys || key in REQUIRED_COLUMNS)
    ensures key in Wanted(steps, step.sheet)
  {
    var last := steps[|steps| - 1];
    if step == last {
      assert key in REQUIRED_COLUMNS + step.keys;
    } else {
      assert step in steps[..|steps| - 1];
      WantedCovers(steps[..|steps| - 1], step, key);
    }
  }

  // The row appended below prev is flagged a duplicate exactly when the sheet takes each result it holds as equal to
  // the one above it.
  lemma FlagComparesResults(headers: seq<string>, step: Step, prev: seq<Value>, sheet: Sheet<Value>, row: int)
    requires row >= 2 && |prev| == |headers|
    requires forall j :: 0 <= j < |headers| ==> sheet.cell(row, j + 1) == CellOf(headers, step, headers[j])
    requires forall j :: 0 <= j < |headers| ==> sheet.cell(row - 1, j + 1) == prev[j]
    requires "duplicate" !in step.info && "duplicate" !in step.bot
    requires exists c :: c in MAIN_RESULT_COLUMNS && c in headers
    ensures var s := CellOf(headers, step, "duplicate");
            && s.Str? && s.s != "" && s.s[0] == '='
            && var p := ParseExpr(s.s[1..]);
              p.Ok? && p.rest == "" &&
              Eval(p.e, sheet, row) == Number(if SameResults(headers, step, prev, sheet) then 1 else 0)
  {
    hide GenerateDuplicateFormulaHelper, ParseExpr, Eval;
    HelperMeaning(headers, sheet, row);
    forall c | c in MAIN_RESULT_COLUMNS
      ensures AgreesOn(headers, c, sheet, row) <==> SameResult(headers, step, prev, sheet, c)
    {}
  }

  ghost predicate SameResult(headers: seq<string>, step: Step, prev: seq<Value>, sheet: Sheet<Value>, c: string)
    requires |prev| == |headers|
  {
    var i := IndexOf(headers, c);
    c in headers ==> sheet.same(CellOf(headers, step, c), prev[i])
  }

  ghost predicate SameResults(headers: seq<string>, step: Step, prev: seq<Value>, sheet: Sheet<Value>)
    requires |prev| == |headers|
  {
    forall c :: c in MAIN_RESULT_COLUMNS ==> SameResult(headers, step, prev, sheet, c)
  }
}
