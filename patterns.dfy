/** The substitution rules of the conversion script and, for each, the match
    it finds at the start of a text. A literal rule stands for `str.replace`
    and for the `re.sub` calls whose pattern escapes every metacharacter; the
    three other rules are the script's genuine regular expressions, each a
    bespoke scanner proved to accept exactly what its regular expression
    accepts. */
module Patterns {
  import opened Text

  datatype Option<T> = None | Some(value: T)

  /** A match at the start of a text: the number of characters it covers and
      the text that replaces them. */
  datatype Hit = Hit(len: nat, rep: string)

  datatype Rule =
    | Literal(pat: string, rep: string)
      /** export const \w+Enum = pgEnum\([^)]+\);  replaced by nothing */
    | EnumDecl
      /** numeric\([^)]+\)  replaced by real */
    | NumericCall
      /** timestamp\(("[^"]+"),\s*\{[^}]*\}\)  replaced by integer(\1, { mode: "timestamp" }) */
    | TimestampWithOptions

  const EnumDeclHead: string := "export const "
  const EnumDeclMid: string := " = pgEnum("
  const NumericHead: string := "numeric("
  const TimestampHead: string := "timestamp(\""

  /** The fixed text every match of the rule starts with. */
  function Lead(r: Rule): string {
    match r
    case Literal(pat, _) => pat
    case EnumDecl => EnumDeclHead
    case NumericCall => NumericHead
    case TimestampWithOptions => TimestampHead
  }

  // ---------------------------------------------------------------------------
  // export const \w+Enum = pgEnum\([^)]+\);

  function MatchEnumDecl(s: string): (m: Option<Hit>)
    ensures m.Some? ==> EnumDeclHead <= s && |EnumDeclHead| < m.value.len <= |s|
  {
    if !(EnumDeclHead <= s) then None
    else
      var e := RunEnd(s, 13, Word);
      if e < 18 || s[e - 4..e] != "Enum" || !(EnumDeclMid <= s[e..]) then None
      else
        var m := RunEnd(s, e + 10, Except(')'));
        if m == e + 10 || !(");" <= s[m..]) then None
        else Some(Hit(m + 2, ""))
  }

  /** `t` is an enum declaration whose identifier ends at `e`: the head, a
      non-empty word, `Enum`, ` = pgEnum(`, a non-empty argument text without
      a closing parenthesis, and `);`. */
  predicate EnumDeclSplit(t: string, e: int) {
    18 <= e && e + 13 <= |t|
    && t[..13] == EnumDeclHead
    && (forall k :: 13 <= k < e - 4 ==> IsWordChar(t[k]))
    && t[e - 4..e] == "Enum"
    && t[e..e + 10] == EnumDeclMid
    && (forall k :: e + 10 <= k < |t| - 2 ==> t[k] != ')')
    && t[|t| - 2..] == ");"
  }

  /** Every match the scanner reports is an enum declaration, and is deleted. */
  lemma EnumDeclSound(s: string)
    requires MatchEnumDecl(s).Some?
    ensures MatchEnumDecl(s).value.rep == ""
    ensures exists e :: EnumDeclSplit(s[..MatchEnumDecl(s).value.len], e)
  {
    var n := MatchEnumDecl(s).value.len;
    var e := RunEnd(s, 13, Word);
    var t := s[..n];
    assert t[..13] == s[..13];
    assert t[e - 4..e] == s[e - 4..e];
    assert t[e..e + 10] == s[e..e + 10];
    assert t[|t| - 2..] == s[n - 2..n];
    assert EnumDeclSplit(t, e);
  }

  /** Every enum declaration at the start of a text is found, with its full
      length: the regular expression can match it in one way only. */
  lemma EnumDeclComplete(s: string, n: nat, e: int)
    requires n <= |s| && EnumDeclSplit(s[..n], e)
    ensures MatchEnumDecl(s) == Some(Hit(n, ""))
  {
    var t := s[..n];
    assert s[..13] == t[..13];
    assert EnumDeclHead <= s;
    assert s[e - 4..e] == t[e - 4..e];
    forall k | 13 <= k < e ensures IsWordChar(s[k]) {
      if k >= e - 4 {
        assert s[k] == "Enum"[k - (e - 4)];
      } else {
        assert s[k] == t[k];
      }
    }
    assert s[e] == t[e] == EnumDeclMid[0] == ' ';
    RunEndIs(s, 13, Word, e);
    assert s[e..e + 10] == t[e..e + 10];
    assert EnumDeclMid <= s[e..];
    assert s[n - 2..n] == t[|t| - 2..];
    forall k | e + 10 <= k < n - 2 ensures s[k] != ')' {
      assert s[k] == t[k];
    }
    RunEndIs(s, e + 10, Except(')'), n - 2);
    assert ");" <= s[n - 2..];
  }

  // ---------------------------------------------------------------------------
  // numeric\([^)]+\)

  function MatchNumeric(s: string): (m: Option<Hit>)
    ensures m.Some? ==> NumericHead <= s && |NumericHead| < m.value.len <= |s|
  {
    if !(NumericHead <= s) then None
    else
      var m := RunEnd(s, 8, Except(')'));
      if m == 8 || m == |s| then None else Some(Hit(m + 1, "real"))
  }

  /** `t` is `numeric(`, a non-empty argument text without a closing
      parenthesis, and `)`. */
  predicate IsNumericCall(t: string) {
    10 <= |t| && t[..8] == NumericHead && t[|t| - 1] == ')'
    && forall k :: 8 <= k < |t| - 1 ==> t[k] != ')'
  }

  /** Every match the scanner reports is a numeric call, replaced by `real`. */
  lemma NumericSound(s: string)
    requires MatchNumeric(s).Some?
    ensures MatchNumeric(s).value.rep == "real"
    ensures IsNumericCall(s[..MatchNumeric(s).value.len])
  {
    var t := s[..MatchNumeric(s).value.len];
    assert t[..8] == s[..8];
  }

  /** Every numeric call at the start of a text is found, with its length. */
  lemma NumericComplete(s: string, n: nat)
    requires n <= |s| && IsNumericCall(s[..n])
    ensures MatchNumeric(s) == Some(Hit(n, "real"))
  {
    var t := s[..n];
    assert s[..8] == t[..8];
    assert NumericHead <= s;
    forall k | 8 <= k < n - 1 ensures s[k] != ')' {
      assert s[k] == t[k];
    }
    assert s[n - 1] == t[n - 1];
    RunEndIs(s, 8, Except(')'), n - 1);
  }

  // ---------------------------------------------------------------------------
  // timestamp\(("[^"]+"),\s*\{[^}]*\}\)

  /** The replacement `integer(\1, { mode: "timestamp" })`, where group 1 is
      the quoted column name. */
  function TimestampRep(name: string): string {
    "integer(\"" + name + "\", { mode: \"timestamp\" })"
  }

  function MatchTimestamp(s: string): (m: Option<Hit>)
    ensures m.Some? ==> TimestampHead <= s && |TimestampHead| < m.value.len <= |s|
  {
    if !(TimestampHead <= s) then None
    else
      var q := RunEnd(s, 11, Except('"'));
      if q == 11 || q + 1 >= |s| || s[q + 1] != ',' then None
      else
        var b := RunEnd(s, q + 2, Space);
        if b == |s| || s[b] != '{' then None
        else
          var c := RunEnd(s, b + 1, Except('}'));
          if c + 1 >= |s| || s[c + 1] != ')' then None
          else Some(Hit(c + 2, TimestampRep(s[11..q])))
  }

  /** `t` is a two-argument timestamp call whose quoted name closes at `q` and
      whose options object opens at `b`: `timestamp("`, a non-empty name
      without a quote, `",`, white space, `{`, text without a closing brace,
      and `})`. */
  predicate TimestampSplit(t: string, q: int, b: int) {
    11 < q && q + 2 <= b && b + 3 <= |t|
    && t[..11] == TimestampHead
    && (forall k :: 11 <= k < q ==> t[k] != '"')
    && t[q] == '"' && t[q + 1] == ','
    && (forall k :: q + 2 <= k < b ==> IsSpaceChar(t[k]))
    && t[b] == '{'
    && (forall k :: b + 1 <= k < |t| - 2 ==> t[k] != '}')
    && t[|t| - 2..] == "})"
  }

  /** Every match the scanner reports is such a call, and its replacement
      carries the call's own column name. */
  lemma TimestampSound(s: string)
    requires MatchTimestamp(s).Some?
    ensures exists q, b :: TimestampSplit(s[..MatchTimestamp(s).value.len], q, b)
                           && MatchTimestamp(s).value.rep == TimestampRep(s[11..q])
  {
    var n := MatchTimestamp(s).value.len;
    var q := RunEnd(s, 11, Except('"'));
    var b := RunEnd(s, q + 2, Space);
    var t := s[..n];
    assert t[..11] == s[..11];
    assert t[|t| - 2..] == s[n - 2..n];
    assert TimestampSplit(t, q, b);
  }

  /** Every such call at the start of a text is found, with its length. */
  lemma TimestampComplete(s: string, n: nat, q: int, b: int)
    requires n <= |s| && TimestampSplit(s[..n], q, b)
    ensures MatchTimestamp(s) == Some(Hit(n, TimestampRep(s[11..q])))
  {
    TimestampNameRun(s, n, q, b);
    TimestampSpaceRun(s, n, q, b);
    TimestampOptionsRun(s, n, q, b);
  }

  lemma TimestampNameRun(s: string, n: nat, q: int, b: int)
    requires n <= |s| && TimestampSplit(s[..n], q, b)
    ensures TimestampHead <= s && RunEnd(s, 11, Except('"')) == q && s[q + 1] == ','
  {
    var t := s[..n];
    assert s[..11] == t[..11];
    forall k | 11 <= k < q ensures s[k] != '"' {
      assert s[k] == t[k];
    }
    assert s[q] == t[q];
    assert s[q + 1] == t[q + 1];
    RunEndIs(s, 11, Except('"'), q);
  }

  lemma TimestampSpaceRun(s: string, n: nat, q: int, b: int)
    requires n <= |s| && TimestampSplit(s[..n], q, b)
    ensures RunEnd(s, q + 2, Space) == b && s[b] == '{'
  {
    var t := s[..n];
    forall k | q + 2 <= k < b ensures IsSpaceChar(s[k]) {
      assert s[k] == t[k];
    }
    assert s[b] == t[b];
    RunEndIs(s, q + 2, Space, b);
  }

  lemma TimestampOptionsRun(s: string, n: nat, q: int, b: int)
    requires n <= |s| && TimestampSplit(s[..n], q, b)
    ensures RunEnd(s, b + 1, Except('}')) == n - 2 && s[n - 1] == ')'
  {
    var t := s[..n];
    forall k | b + 1 <= k < n - 2 ensures s[k] != '}' {
      assert s[k] == t[k];
    }
    assert s[n - 2..n] == t[|t| - 2..];
    assert s[n - 2] == '}' && s[n - 1] == ')';
    RunEndIs(s, b + 1, Except('}'), n - 2);
  }

  // ---------------------------------------------------------------------------

  /** The match of rule `r` at the start of `s`, if any. A literal rule matches
      its (non-empty) pattern verbatim. */
  function MatchAt(r: Rule, s: string): (m: Option<Hit>)
    ensures m.Some? ==> 0 < |Lead(r)| <= m.value.len <= |s| && Lead(r) <= s
  {
    match r
    case Literal(pat, rep) => if |pat| > 0 && pat <= s then Some(Hit(|pat|, rep)) else None
    case EnumDecl => MatchEnumDecl(s)
    case NumericCall => MatchNumeric(s)
    case TimestampWithOptions => MatchTimestamp(s)
  }
}
