/** generate_duplicate_formula of generate_stats.py, and the part of the spreadsheet's formula language it writes in. */
module Formula {
  import opened Columns
  import opened Text

  // ---- Decimal numbers: str(n) ----

  predicate IsDigit(c: char) { '0' <= c <= '9' }

  function Decimal(n: nat): (s: string)
    ensures |s| > 0
    ensures forall c :: c in s ==> IsDigit(c)
  {
    var d := [('0' as int + n % 10) as char];
    if n < 10 then d else Decimal(n / 10) + d
  }

  predicate NoDigit(rest: string) { rest == "" || !IsDigit(rest[0]) }

  function Leading(s: string): (k: nat)
    ensures k <= |s|
    ensures forall i :: 0 <= i < k ==> IsDigit(s[i])
    ensures k < |s| ==> !IsDigit(s[k])
  {
    if s == "" || !IsDigit(s[0]) then 0 else 1 + Leading(s[1..])
  }

  function NumberOf(s: string): nat
    requires forall c :: c in s ==> IsDigit(c)
  {
    if s == "" then 0
    else
      var c := s[|s| - 1];
      assert c in s && IsDigit(c);
      NumberOf(s[..|s| - 1]) * 10 + (c as int - '0' as int)
  }

  lemma {:induction false} DecimalRoundTrip(n: nat)
    ensures NumberOf(Decimal(n)) == n
  {
    var s := Decimal(n);
    if n < 10 {
      assert s[..0] == "";
    } else {
      DecimalRoundTrip(n / 10);
      assert s[..|s| - 1] == Decimal(n / 10);
    }
  }

  lemma {:induction false} LeadingDigits(digits: string, rest: string)
    requires forall c :: c in digits ==> IsDigit(c)
    requires NoDigit(rest)
    ensures Leading(digits + rest) == |digits|
  {
    if digits == "" {
      assert digits + rest == rest;
    } else {
      assert digits[0] in digits;
      assert (digits + rest)[1..] == digits[1..] + rest;
      LeadingDigits(digits[1..], rest);
    }
  }

  // ---- Expressions ----

  datatype Expr =
    | Num(n: nat)
    | Row
    | Address(row: Expr, col: Expr)
    | Indirect(ref: Expr)
    | If(cond: Expr, then_: Expr, else_: Expr)
    | Equal(left: Expr, right: Expr)
    | Minus(left: Expr, right: Expr)
  {
    predicate Atom() { !Equal? && !Minus? }

    // There are no parentheses around the operands of an operator.
    predicate Printable() {
      match this
      case Num(_) => true
      case Row => true
      case Address(r, c) => r.Printable() && c.Printable()
      case Indirect(r) => r.Printable()
      case If(c, t, e) => c.Printable() && t.Printable() && e.Printable()
      case Equal(l, r) => l.Atom() && r.Atom() && l.Printable() && r.Printable()
      case Minus(l, r) => l.Atom() && r.Atom() && l.Printable() && r.Printable()
    }
  }

  function Print(e: Expr): string {
    match e
    case Num(n) => Decimal(n)
    case Row => "ROW()"
    case Address(r, c) => "ADDRESS(" + Print(r) + ", " + Print(c) + ")"
    case Indirect(r) => "INDIRECT(" + Print(r) + ")"
    case If(c, t, f) => "IF(" + Print(c) + "," + Print(t) + "," + Print(f) + ")"
    case Equal(l, r) => Print(l) + "=" + Print(r)
    case Minus(l, r) => Print(l) + " - " + Print(r)
  }

  // ---- Parsing ----

  function Consume(s: string, lit: string): (r: Option<string>)
    ensures r.Some? <==> lit <= s
    ensures r.Some? ==> s == lit + r.value
  {
    if lit <= s then Some(s[|lit|..]) else None
  }

  datatype Parsed = Fail | Ok(e: Expr, rest: string)

  function ParseExpr(s: string): (p: Parsed)
    ensures p.Ok? ==> |p.rest| < |s|
    decreases |s|, 1
  {
    var a := ParseAtom(s);
    if a.Fail? then Fail
    else if Consume(a.rest, "=").Some? then
      var b := ParseAtom(Consume(a.rest, "=").value);
      if b.Fail? then Fail else Ok(Equal(a.e, b.e), b.rest)
    else if Consume(a.rest, " - ").Some? then
      var b := ParseAtom(Consume(a.rest, " - ").value);
      if b.Fail? then Fail else Ok(Minus(a.e, b.e), b.rest)
    else a
  }

  // An expression, and the literal that has to follow it.
  function ParseThen(s: string, lit: string): (p: Parsed)
    ensures p.Ok? ==> |p.rest| < |s|
    decreases |s|, 2
  {
    var a := ParseExpr(s);
    if a.Fail? then Fail
    else
      var r := Consume(a.rest, lit);
      if r.None? then Fail else Ok(a.e, r.value)
  }

  function ParseAtom(s: string): (p: Parsed)
    ensures p.Ok? ==> |p.rest| < |s|
    decreases |s|, 0
  {
    if s == "" then Fail
    else if IsDigit(s[0]) then
      var k := Leading(s);
      Ok(Num(NumberOf(s[..k])), s[k..])
    else if Consume(s, "ROW()").Some? then Ok(Row, Consume(s, "ROW()").value)
    else if Consume(s, "ADDRESS(").Some? then
      var r := ParseThen(Consume(s, "ADDRESS(").value, ", ");
      if r.Fail? then Fail
      else
        var c := ParseThen(r.rest, ")");
        if c.Fail? then Fail else Ok(Address(r.e, c.e), c.rest)
    else if Consume(s, "INDIRECT(").Some? then
      var r := ParseThen(Consume(s, "INDIRECT(").value, ")");
      if r.Fail? then Fail else Ok(Indirect(r.e), r.rest)
    else if Consume(s, "IF(").Some? then
      var c := ParseThen(Consume(s, "IF(").value, ",");
      if c.Fail? then Fail
      else
        var t := ParseThen(c.rest, ",");
        if t.Fail? then Fail
        else
          var f := ParseThen(t.rest, ")");
          if f.Fail? then Fail else Ok(If(c.e, t.e, f.e), f.rest)
    else Fail
  }

  lemma Consumed(lit: string, rest: string)
    ensures Consume(lit + rest, lit) == Some(rest)
  {}

  // What may follow a whole expression.
  predicate Ends(rest: string) { rest == "" || rest[0] == ',' || rest[0] == ')' }

  lemma NumParses(n: nat, rest: string)
    requires NoDigit(rest)
    ensures ParseAtom(Decimal(n) + rest) == Ok(Num(n), rest)
  {
    var d, s := Decimal(n), Decimal(n) + rest;
    LeadingDigits(d, rest);
    DecimalRoundTrip(n);
    hide NumberOf, Decimal, Leading;
    assert s[0] == d[0] && d[0] in d;
    assert s[..|d|] == d && s[|d|..] == rest;
  }

  lemma RowParses(rest: string)
    ensures ParseAtom("ROW()" + rest) == Ok(Row, rest)
  {
    Consumed("ROW()", rest);
  }

  lemma AddressParses(s0: string, r: Expr, s1: string, c: Expr, rest: string)
    requires ParseThen(s0, ", ") == Ok(r, s1) && ParseThen(s1, ")") == Ok(c, rest)
    ensures ParseAtom("ADDRESS(" + s0) == Ok(Address(r, c), rest)
  {
    hide ParseThen, Leading, NumberOf;
    Consumed("ADDRESS(", s0);
    assert ("ADDRESS(" + s0)[0] == 'A';
  }

  lemma IndirectParses(s0: string, r: Expr, rest: string)
    requires ParseThen(s0, ")") == Ok(r, rest)
    ensures ParseAtom("INDIRECT(" + s0) == Ok(Indirect(r), rest)
  {
    hide ParseThen, Leading, NumberOf;
    Consumed("INDIRECT(", s0);
    assert ("INDIRECT(" + s0)[0] == 'I';
  }

  lemma IfParses(s0: string, c: Expr, s1: string, t: Expr, s2: string, f: Expr, rest: string)
    requires ParseThen(s0, ",") == Ok(c, s1) && ParseThen(s1, ",") == Ok(t, s2) && ParseThen(s2, ")") == Ok(f, rest)
    ensures ParseAtom("IF(" + s0) == Ok(If(c, t, f), rest)
  {
    hide ParseThen, Leading, NumberOf;
    var s := "IF(" + s0;
    Consumed("IF(", s0);
    assert s[0] == 'I' && s[1] == 'F';
  }

  lemma {:induction false} ParsePrintAtom(e: Expr, rest: string)
    requires e.Printable() && e.Atom() && NoDigit(rest)
    ensures ParseAtom(Print(e) + rest) == Ok(e, rest)
    decreases e, 0
  {
    hide ParseThen, ParseAtom, Decimal, NoDigit, Ends;
    match e
    case Num(n) => NumParses(n, rest);
    case Row => RowParses(rest);
    case Address(r, c) =>
      var s1 := Print(c) + (")" + rest);
      var s0 := Print(r) + (", " + s1);
      AddressPrinted(Print(r), Print(c), rest);
      ParsePrintThen(r, ", ", s1);
      ParsePrintThen(c, ")", rest);
      AddressParses(s0, r, s1, c, rest);
    case Indirect(r) =>
      var s0 := Print(r) + (")" + rest);
      assert "INDIRECT(" + Print(r) + ")" + rest == "INDIRECT(" + s0;
      ParsePrintThen(r, ")", rest);
      IndirectParses(s0, r, rest);
    case If(c, t, f) =>
      var s2 := Print(f) + (")" + rest);
      var s1 := Print(t) + ("," + s2);
      var s0 := Print(c) + ("," + s1);
      IfPrinted(Print(c), Print(t), Print(f), rest);
      ParsePrintThen(c, ",", s1);
      ParsePrintThen(t, ",", s2);
      ParsePrintThen(f, ")", rest);
      IfParses(s0, c, s1, t, s2, f, rest);
  }

  lemma AddressPrinted(r: string, c: string, rest: string)
    ensures "ADDRESS(" + r + ", " + c + ")" + rest == "ADDRESS(" + (r + (", " + (c + (")" + rest))))
  {
    var tail := c + ")" + rest;
    assert tail == c + (")" + rest);
    assert r + (", " + tail) == r + ", " + tail;
  }

  lemma IfPrinted(c: string, t: string, f: string, rest: string)
    ensures "IF(" + c + "," + t + "," + f + ")" + rest == "IF(" + (c + ("," + (t + ("," + (f + (")" + rest))))))
  {
    var tail := f + ")" + rest;
    assert tail == f + (")" + rest);
    assert "IF(" + c + "," + t + "," + f + ")" + rest == "IF(" + c + "," + t + "," + tail;
    assert t + ("," + tail) == t + "," + tail;
    assert "IF(" + c + "," + t + "," + tail == "IF(" + c + "," + (t + "," + tail);
  }

  lemma {:induction false} ParsePrintThen(e: Expr, lit: string, rest: string)
    requires e.Printable() && lit in {",", ", ", ")"}
    ensures ParseThen(Print(e) + (lit + rest), lit) == Ok(e, rest)
    decreases e, 2
  {
    hide ParseExpr;
    ParsePrint(e, lit + rest);
    Consumed(lit, rest);
  }

  // Parsing what is printed gives the expression back.
  lemma {:induction false} ParsePrint(e: Expr, rest: string)
    requires e.Printable() && Ends(rest)
    ensures ParseExpr(Print(e) + rest) == Ok(e, rest)
    decreases e, 1
  {
    hide ParseAtom;
    if e.Atom() {
      ParsePrintAtom(e, rest);
    } else {
      var op := if e.Equal? then "=" else " - ";
      var s0 := Print(e.right) + rest;
      assert Print(e) + rest == Print(e.left) + (op + s0);
      ParsePrintAtom(e.left, op + s0);
      Consumed(op, s0);
      ParsePrintAtom(e.right, rest);
    }
  }

  // ---- Evaluation ----

  datatype Val<T> = Number(i: int) | Truth(b: bool) | Ref(r: int, c: int) | Content(v: T) | Error

  // A sheet: what a cell holds, and which contents the sheet's '=' takes as equal.
  datatype Sheet<!T> = Sheet(cell: (int, int) -> T, same: (T, T) -> bool)

  // The value of a formula in a cell of the given row; rows and columns count from 1.
  function Eval<T>(e: Expr, sheet: Sheet<T>, row: int): Val<T> {
    match e
    case Num(n) => Number(n)
    case Row => Number(row)
    case Address(r, c) =>
      var a, b := Eval(r, sheet, row), Eval(c, sheet, row);
      if a.Number? && b.Number? && a.i >= 1 && b.i >= 1 then Ref(a.i, b.i) else Error
    case Indirect(r) =>
      var a := Eval(r, sheet, row);
      if a.Ref? then Content(sheet.cell(a.r, a.c)) else Error
    case If(c, t, f) =>
      var a := Eval(c, sheet, row);
      if !a.Truth? then Error else if a.b then Eval(t, sheet, row) else Eval(f, sheet, row)
    case Equal(l, r) =>
      var a, b := Eval(l, sheet, row), Eval(r, sheet, row);
      if a.Content? && b.Content? then Truth(sheet.same(a.v, b.v)) else Error
    case Minus(l, r) =>
      var a, b := Eval(l, sheet, row), Eval(r, sheet, row);
      if a.Number? && b.Number? then Number(a.i - b.i) else Error
  }

  // ---- The generator ----

  // The first position of a column.
  function IndexOf(headers: seq<string>, column: string): (i: nat)
    ensures i <= |headers|
    ensures i < |headers| ==> headers[i] == column
    ensures forall j :: 0 <= j < i ==> headers[j] != column
  {
    if headers == [] || headers[0] == column then 0 else 1 + IndexOf(headers[1..], column)
  }

  function GenerateDuplicateFormula(headers: seq<string>, filterColumns: seq<string>): string {
    if |filterColumns| == 0 then "1"
    else
      var i := IndexOf(headers, filterColumns[0]);
      if i < |headers| then
        var col := Decimal(i + 1);
        "IF(" +
        (("INDIRECT(ADDRESS(ROW(), " + col + "))") + "=" + ("INDIRECT(ADDRESS(ROW() - 1, " + col + "))")) + "," +
        GenerateDuplicateFormula(headers, filterColumns[1..]) + "," + "0" + ")"
      else GenerateDuplicateFormula(headers, filterColumns[1..])
  }

  function GenerateDuplicateFormulaHelper(headers: seq<string>): string {
    var formula := GenerateDuplicateFormula(headers, MAIN_RESULT_COLUMNS);
    if formula == "1" then "" else "=" + formula
  }

  function Here(n: nat): Expr { Indirect(Address(Row, Num(n))) }

  function Above(n: nat): Expr { Indirect(Address(Minus(Row, Num(1)), Num(n))) }

  // The formula as an expression.
  function Duplicate(headers: seq<string>, filterColumns: seq<string>): Expr {
    if |filterColumns| == 0 then Num(1)
    else
      var i := IndexOf(headers, filterColumns[0]);
      var rest := Duplicate(headers, filterColumns[1..]);
      if i == |headers| then rest else If(Equal(Here(i + 1), Above(i + 1)), rest, Num(0))
  }

  lemma DecimalDigit(n: nat)
    requires n < 10
    ensures Decimal(n) == [('0' as int + n) as char]
  {}

  lemma {:induction false} GeneratedIsPrinted(headers: seq<string>, cols: seq<string>)
    ensures Duplicate(headers, cols).Printable()
    ensures GenerateDuplicateFormula(headers, cols) == Print(Duplicate(headers, cols))
  {
    hide Here, Above, Decimal;
    DecimalDigit(0);
    DecimalDigit(1);
    if cols != [] {
      GeneratedIsPrinted(headers, cols[1..]);
      var n := IndexOf(headers, cols[0]) + 1;
      HerePrinted(n);
      AbovePrinted(n);
    }
  }

  lemma IndirectPrinted(r: Expr, c: Expr)
    ensures Print(Indirect(Address(r, c))) == "INDIRECT(ADDRESS(" + (Print(r) + ", " + Print(c)) + "))"
  {
    Regroup("INDIRECT(", "ADDRESS(", Print(r) + ", " + Print(c), ")");
    assert Print(Address(r, c)) == "ADDRESS(" + (Print(r) + ", " + Print(c)) + ")";
    assert "INDIRECT(" + "ADDRESS(" == "INDIRECT(ADDRESS(" && ")" + ")" == "))";
  }

  lemma Regroup(a: string, b: string, p: string, d: string)
    ensures a + (b + p + d) + d == (a + b) + p + (d + d)
  {}

  lemma Regroup4(a: string, r: string, sep: string, c: string, d: string)
    ensures a + (r + sep + c) + d == (a + r + sep) + c + d
  {}

  lemma HerePrinted(n: nat)
    ensures Here(n).Printable() && Here(n).Atom()
    ensures Print(Here(n)) == "INDIRECT(ADDRESS(ROW(), " + Decimal(n) + "))"
  {
    hide Decimal;
    assert Address(Row, Num(n)).Printable();
    IndirectPrinted(Row, Num(n));
    var lit := "INDIRECT(ADDRESS(ROW(), ";
    assert "INDIRECT(ADDRESS(" + "ROW()" + ", " == lit;
    Regroup4("INDIRECT(ADDRESS(", "ROW()", ", ", Decimal(n), "))");
  }

  lemma AbovePrinted(n: nat)
    ensures Above(n).Printable() && Above(n).Atom()
    ensures Print(Above(n)) == "INDIRECT(ADDRESS(ROW() - 1, " + Decimal(n) + "))"
  {
    var r := Minus(Row, Num(1));
    assert r.Printable() && Address(r, Num(n)).Printable();
    IndirectPrinted(r, Num(n));
    RowAbovePrinted();
    hide Decimal;
    var lit := "INDIRECT(ADDRESS(ROW() - 1, ";
    assert "INDIRECT(ADDRESS(" + "ROW() - 1" + ", " == lit;
    Regroup4("INDIRECT(ADDRESS(", "ROW() - 1", ", ", Decimal(n), "))");
  }

  lemma RowAbovePrinted()
    ensures Print(Minus(Row, Num(1))) == "ROW() - 1"
  {
    DecimalDigit(1);
    assert Print(Row) == "ROW()" && Print(Num(1)) == "1";
    assert "ROW()" + " - " + "1" == "ROW() - 1";
  }

  // The current row agrees with the one above on the first column of the name.
  ghost predicate AgreesOn<T>(headers: seq<string>, column: string, sheet: Sheet<T>, row: int) {
    var i := IndexOf(headers, column);
    i < |headers| ==> sheet.same(sheet.cell(row, i + 1), sheet.cell(row - 1, i + 1))
  }

  ghost predicate AllAgree<T>(headers: seq<string>, columns: seq<string>, sheet: Sheet<T>, row: int) {
    forall c :: c in columns ==> AgreesOn(headers, c, sheet, row)
  }

  lemma AllAgreeFirst<T>(headers: seq<string>, cols: seq<string>, sheet: Sheet<T>, row: int)
    requires cols != []
    ensures AllAgree(headers, cols, sheet, row) <==>
      AgreesOn(headers, cols[0], sheet, row) && AllAgree(headers, cols[1..], sheet, row)
  {
    hide AgreesOn;
    assert forall c :: c in cols <==> c == cols[0] || c in cols[1..];
  }

  lemma {:induction false} DuplicateMeaning<T>(headers: seq<string>, cols: seq<string>, sheet: Sheet<T>, row: int)
    requires row >= 2
    ensures Eval(Duplicate(headers, cols), sheet, row)
         == Number(if AllAgree(headers, cols, sheet, row) then 1 else 0)
  {
    if cols != [] {
      DuplicateMeaning(headers, cols[1..], sheet, row);
      hide Here, Above, AllAgree;
      AllAgreeFirst(headers, cols, sheet, row);
      var i := IndexOf(headers, cols[0]);
      if i < |headers| { ComparisonMeaning(i + 1, Duplicate(headers, cols[1..]), sheet, row); }
    }
  }

  lemma ComparisonMeaning<T>(n: nat, rest: Expr, sheet: Sheet<T>, row: int)
    requires row >= 2 && n >= 1
    ensures Eval(If(Equal(Here(n), Above(n)), rest, Num(0)), sheet, row)
         == if sheet.same(sheet.cell(row, n), sheet.cell(row - 1, n)) then Eval(rest, sheet, row) else Number(0)
  {
    HereMeaning(n, sheet, row);
    AboveMeaning(n, sheet, row);
    hide Here, Above;
    assert Eval(Equal(Here(n), Above(n)), sheet, row)
        == Truth(sheet.same(sheet.cell(row, n), sheet.cell(row - 1, n)));
  }

  lemma HereMeaning<T>(n: nat, sheet: Sheet<T>, row: int)
    requires row >= 1 && n >= 1
    ensures Eval(Here(n), sheet, row) == Content(sheet.cell(row, n))
  {
    assert Eval(Row, sheet, row) == Number(row) && Eval(Num(n), sheet, row) == Number(n);
    assert Eval(Address(Row, Num(n)), sheet, row) == Ref(row, n);
  }

  lemma AboveMeaning<T>(n: nat, sheet: Sheet<T>, row: int)
    requires n >= 1
    ensures Eval(Above(n), sheet, row) == if row >= 2 then Content(sheet.cell(row - 1, n)) else Error
  {
    assert Eval(Minus(Row, Num(1)), sheet, row) == Number(row - 1) && Eval(Num(n), sheet, row) == Number(n);
    assert Eval(Address(Minus(Row, Num(1)), Num(n)), sheet, row) == if row >= 2 then Ref(row - 1, n) else Error;
  }

  // The text parses, and means 1 where the row repeats the one above on every filter column there is, and 0 elsewhere.
  lemma FormulaDetectsDuplicates<T>(headers: seq<string>, cols: seq<string>, sheet: Sheet<T>, row: int)
    requires row >= 2
    ensures var p := ParseExpr(GenerateDuplicateFormula(headers, cols));
            && p.Ok? && p.rest == ""
            && Eval(p.e, sheet, row) == Number(if AllAgree(headers, cols, sheet, row) then 1 else 0)
  {
    hide ParseExpr, Print, AllAgree, Duplicate, GenerateDuplicateFormula;
    GeneratedIsPrinted(headers, cols);
    var e := Duplicate(headers, cols);
    ParsePrint(e, "");
    assert Print(e) + "" == Print(e);
    DuplicateMeaning(headers, cols, sheet, row);
  }

  // In the first row there is nothing above, and the formula is an error as soon as it has a column to compare.
  lemma {:induction false} FirstRow<T>(headers: seq<string>, cols: seq<string>, sheet: Sheet<T>)
    ensures Eval(Duplicate(headers, cols), sheet, 1) ==
      if exists c :: c in cols && c in headers then Error else Number(1)
  {
    if cols != [] {
      FirstRow(headers, cols[1..], sheet);
      assert forall c :: c in cols <==> c == cols[0] || c in cols[1..];
      var n := IndexOf(headers, cols[0]) + 1;
      if n <= |headers| {
        assert headers[n - 1] == cols[0] && cols[0] in headers;
        AboveMeaning(n, sheet, 1);
        assert Eval(Equal(Here(n), Above(n)), sheet, 1) == Error;
      }
    }
  }

  lemma {:induction false} OneIffNoColumn(headers: seq<string>, cols: seq<string>)
    ensures GenerateDuplicateFormula(headers, cols) == "1" <==> forall c :: c in cols ==> c !in headers
    ensures var f := GenerateDuplicateFormula(headers, cols); f != "" && (f != "1" ==> f[0] == 'I')
  {
    if cols != [] {
      OneIffNoColumn(headers, cols[1..]);
      assert forall c :: c in cols <==> c == cols[0] || c in cols[1..];
      var i := IndexOf(headers, cols[0]);
      if i < |headers| {
        assert headers[i] == cols[0] && cols[0] in headers;
        assert GenerateDuplicateFormula(headers, cols)[0] == 'I';
      }
    }
  }

  // What goes into the 'duplicate' cell: nothing if there is no result column, and otherwise '=' and the formula.
  lemma HelperMeaning<T>(headers: seq<string>, sheet: Sheet<T>, row: int)
    requires row >= 2
    ensures var s := GenerateDuplicateFormulaHelper(headers);
            && (s == "" <==> forall c :: c in MAIN_RESULT_COLUMNS ==> c !in headers)
            && (s != "" ==>
              && s[0] == '='
              && var p := ParseExpr(s[1..]);
                p.Ok? && p.rest == "" &&
                Eval(p.e, sheet, row) ==
                  Number(if AllAgree(headers, MAIN_RESULT_COLUMNS, sheet, row) then 1 else 0))
  {
    hide ParseExpr, AllAgree, GenerateDuplicateFormula;
    OneIffNoColumn(headers, MAIN_RESULT_COLUMNS);
    FormulaDetectsDuplicates(headers, MAIN_RESULT_COLUMNS, sheet, row);
    var f := GenerateDuplicateFormula(headers, MAIN_RESULT_COLUMNS);
    assert ("=" + f)[1..] == f;
  }
}
