/** Splitting a C parameter into its type and its name: type_name_sep_index, just_the_type, just_the_name and make_param
    of generate_entry_points.py. */
module ParamText {
  // str.rfind: the last place of c, or -1.
  function RFind(s: string, c: char): (i: int)
    ensures -1 <= i < |s|
    ensures i >= 0 ==> s[i] == c
    ensures forall j :: i < j < |s| ==> s[j] != c
  {
    if s == "" then -1 else if s[|s| - 1] == c then |s| - 1 else RFind(s[..|s| - 1], c)
  }

  function TypeNameSepIndex(param: string): int {
    var space, pointer := RFind(param, ' '), RFind(param, '*');
    if space > pointer then space else pointer
  }

  // param[:i], where -1 stands for the last place.
  function UpTo(s: string, i: int): string
    requires -1 <= i <= |s|
  {
    if i >= 0 then s[..i] else if s == "" then "" else s[..|s| - 1]
  }

  function JustTheType(param: string): string {
    if '*' in param then param[..TypeNameSepIndex(param) + 1] else UpTo(param, TypeNameSepIndex(param))
  }

  function JustTheName(param: string): string { param[TypeNameSepIndex(param) + 1..] }

  function MakeParam(paramType: string, paramName: string): string { paramType + " " + paramName }

  predicate Separator(c: char) { c == ' ' || c == '*' }

  ghost predicate PlainName(s: string) { forall i :: 0 <= i < |s| ==> !Separator(s[i]) }

  lemma RFindIs(s: string, c: char, i: int)
    requires -1 <= i < |s| && forall j :: i < j < |s| ==> s[j] != c
    ensures RFind(s, c) <= i && (i >= 0 && s[i] == c ==> RFind(s, c) == i)
  {}

  lemma SepIndexIs(s: string, i: int)
    requires 0 <= i < |s| && Separator(s[i]) && forall j :: i < j < |s| ==> !Separator(s[j])
    ensures TypeNameSepIndex(s) == i
  {
    RFindIs(s, ' ', i);
    RFindIs(s, '*', i);
    hide RFind;
  }

  // A parameter is its type and its name put together again, unless it is a single word: that loses its last letter.
  lemma SplitIsLossless(param: string)
    ensures PlainName(JustTheName(param))
    ensures '*' in param ==> JustTheType(param) + JustTheName(param) == param
    ensures '*' !in param && ' ' in param ==> MakeParam(JustTheType(param), JustTheName(param)) == param
    ensures '*' !in param && ' ' !in param ==>
              JustTheName(param) == param && JustTheType(param) == if param == "" then "" else param[..|param| - 1]
  {
    var i := TypeNameSepIndex(param);
    if '*' !in param && ' ' in param {
      assert param[i] == ' ';
      assert param == param[..i] + [param[i]] + param[i + 1..];
    }
  }

  // Splitting what was made gives the name, and the type with the space that follows a star.
  lemma SplitOfMade(paramType: string, paramName: string)
    requires PlainName(paramName)
    ensures JustTheName(MakeParam(paramType, paramName)) == paramName
    ensures JustTheType(MakeParam(paramType, paramName)) == if '*' in paramType then paramType + " " else paramType
  {
    var p, i := MakeParam(paramType, paramName), |paramType|;
    assert p[i + 1..] == paramName && p[..i] == paramType && p[..i + 1] == paramType + " ";
    forall j | i < j < |p| ensures !Separator(p[j]) { assert p[j] == paramName[j - i - 1]; }
    SepIndexIs(p, i);
    NoStar(paramName);
    assert '*' in p <==> '*' in paramType;
  }

  lemma NoStar(s: string)
    requires PlainName(s)
    ensures '*' !in s
  {
    forall j | 0 <= j < |s| ensures s[j] != '*' { assert !Separator(s[j]); }
  }
}
