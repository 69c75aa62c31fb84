/** The two header lines put in front of the text at line 18 are inert: no
    later rule can match inside them or across their line ends, so every
    later stage acts on the rest of the text exactly as if they were absent. */
module HeaderFacts {
  import opened Text
  import opened Patterns
  import opened Rewrite
  import opened Conversion
  import opened TableFacts

  /** Character `k` of `lead` is missing from `line`, and neither it nor any
      character before it is a newline. */
  predicate BlockedAt(lead: string, line: string, k: nat) {
    k < |lead| && lead[k] !in line && '\n' !in lead[..k + 1]
  }

  /** The leading text of `r` cannot start anywhere inside the header: it is
      blocked by a character within each header line. */
  ghost predicate HeaderSafe(r: Rule) {
    (exists k :: BlockedAt(Lead(r), HeaderImport, k))
    && (exists k :: BlockedAt(Lead(r), HeaderGenId, k))
  }

  /** A text blocked by `line` cannot start inside `line` or at the newline
      after it. */
  lemma LeadBlockedByLine(lead: string, line: string, rest: string, j: nat, k: nat)
    requires j <= |line| && BlockedAt(lead, line, k)
    ensures !(lead <= (line + "\n" + rest)[j..])
  {
    var t := line + "\n" + rest;
    if j + k < |line| {
      assert t[j + k] == line[j + k];
      assert t[j..][k] != lead[k];
    } else {
      assert t[|line|] == '\n';
      assert lead[|line| - j] in lead[..k + 1];
      assert t[j..][|line| - j] != lead[|line| - j];
    }
  }

  /** A rule blocked by a line copies it and its newline, and works on what
      follows. */
  lemma LineInert(r: Rule, line: string, rest: string, k: nat)
    requires BlockedAt(Lead(r), line, k)
    ensures SubstituteAll(r, line + "\n" + rest) == line + "\n" + SubstituteAll(r, rest)
  {
    var s := line + "\n" + rest;
    forall j | 0 <= j < |line + "\n"| ensures MatchAt(r, ((line + "\n") + rest)[j..]).None? {
      LeadBlockedByLine(Lead(r), line, rest, j, k);
    }
    SubstituteQuietPrefix(r, line + "\n", rest);
  }

  /** A rule whose pattern does not start with a newline copies a leading
      newline and works on what follows. */
  lemma BlankLineInert(r: Rule, t: string)
    requires 0 < |Lead(r)| && Lead(r)[0] != '\n'
    ensures SubstituteAll(r, "\n" + t) == "\n" + SubstituteAll(r, t)
  {
    assert ("\n" + t)[0..] == "\n" + t;
    SubstituteQuietPrefix(r, "\n", t);
  }

  /** A rule blocked by both of two lines copies them, their newlines and
      the empty line after them, and works on what follows. */
  lemma TwoLinesInert(r: Rule, line1: string, line2: string, t: string, k1: nat, k2: nat)
    requires BlockedAt(Lead(r), line1, k1) && BlockedAt(Lead(r), line2, k2)
    ensures SubstituteAll(r, line1 + "\n" + line2 + "\n\n" + t)
         == line1 + "\n" + line2 + "\n\n" + SubstituteAll(r, t)
  {
    var lead := Lead(r);
    assert lead[0] != '\n' by {
      assert lead[0] in lead[..k1 + 1];
    }
    var u := SubstituteAll(r, t);
    var x := "\n" + t;
    var y := line2 + "\n" + x;
    BlankLineInert(r, t);
    LineInert(r, line2, x, k2);
    LineInert(r, line1, y, k1);
    LinesJoin(line1, line2, t);
    LinesJoin(line1, line2, u);
  }

  /** Two lines and an empty line before `t`, regrouped from the right. */
  lemma LinesJoin(line1: string, line2: string, t: string)
    ensures line1 + "\n" + line2 + "\n\n" + t == line1 + "\n" + (line2 + "\n" + ("\n" + t))
  {
    assert "\n\n" == "\n" + "\n";
  }

  /** A header-safe rule copies the header and then works on the rest. */
  lemma HeaderInert(r: Rule, t: string)
    requires HeaderSafe(r)
    ensures SubstituteAll(r, Header + t) == Header + SubstituteAll(r, t)
  {
    var k1 :| BlockedAt(Lead(r), HeaderImport, k1);
    var k2 :| BlockedAt(Lead(r), HeaderGenId, k2);
    TwoLinesInert(r, HeaderImport, HeaderGenId, t, k1, k2);
  }

  /** A list of header-safe rules copies the header and then works on the rest. */
  lemma {:induction false} ApplyRulesHeaderInert(rules: seq<Rule>, t: string)
    requires forall i :: 0 <= i < |rules| ==> HeaderSafe(rules[i])
    ensures ApplyRules(Header + t, rules) == Header + ApplyRules(t, rules)
    decreases |rules|
  {
    if rules != [] {
      ApplyRulesHeaderInert(rules[..|rules| - 1], t);
      HeaderInert(rules[|rules| - 1], ApplyRules(t, rules[..|rules| - 1]));
    }
  }

  /** The characters of the first header line. */
  predicate ImportLineChar(c: char) {
    c == ' ' || c == '"' || c == ';' || c == '{' || c == '}' || c == 'a' || c == 'd' || c == 'f'
    || c == 'i' || c == 'm' || c == 'n' || c == 'o' || c == 'p' || c == 'r' || c == 't'
  }

  /** The characters of the second header line. */
  predicate GenIdLineChar(c: char) {
    c == ' ' || c == '(' || c == ')' || c == ';' || c == '=' || c == '>' || c == 'I' || c == 'a'
    || c == 'c' || c == 'd' || c == 'e' || c == 'g' || c == 'i' || c == 'n' || c == 'o' || c == 's' || c == 't'
  }

  lemma HeaderLineChars()
    ensures forall c :: c in HeaderImport ==> ImportLineChar(c)
    ensures forall c :: c in HeaderGenId ==> GenIdLineChar(c)
  {
  }

  /** A rule is header-safe when its leading text has, before any newline, a
      character missing from each header line. */
  lemma SafeByChar(r: Rule, k1: nat, k2: nat)
    requires k1 < |Lead(r)| && '\n' !in Lead(r)[..k1 + 1] && !ImportLineChar(Lead(r)[k1])
    requires k2 < |Lead(r)| && '\n' !in Lead(r)[..k2 + 1] && !GenIdLineChar(Lead(r)[k2])
    ensures HeaderSafe(r)
  {
    HeaderLineChars();
    assert BlockedAt(Lead(r), HeaderImport, k1);
    assert BlockedAt(Lead(r), HeaderGenId, k2);
  }

  /** A rule whose pattern starts with a character found in neither header
      line is header-safe. */
  lemma SafeByFirstChar(r: Rule)
    requires 0 < |Lead(r)| && Lead(r)[0] != '\n'
    requires !ImportLineChar(Lead(r)[0]) && !GenIdLineChar(Lead(r)[0])
    ensures HeaderSafe(r)
  {
    assert Lead(r)[..1] == [Lead(r)[0]];
    SafeByChar(r, 0, 0);
  }

  /** A rule whose pattern has, before any newline, a character found in
      neither header line is header-safe. */
  lemma SafeByCharAt(r: Rule, k: nat)
    requires k < |Lead(r)| && forall i :: 0 <= i <= k ==> Lead(r)[i] != '\n'
    requires !ImportLineChar(Lead(r)[k]) && !GenIdLineChar(Lead(r)[k])
    ensures HeaderSafe(r)
  {
    var lead := Lead(r);
    var pre := lead[..k + 1];
    forall i | 0 <= i < |pre| ensures pre[i] != '\n' {
      assert pre[i] == lead[i];
    }
    assert '\n' !in pre;
    SafeByChar(r, k, k);
  }

  /** The rules for enum declarations and tables are header-safe. */
  lemma DeclRulesHeaderSafe()
    ensures HeaderSafe(DropEnumDecls) && HeaderSafe(RenameTable)
  {
    SafeByChar(DropEnumDecls, 1, 1);
    SafeByChar(RenameTable, 2, 2);
  }

  /** The rules for text and numeric column types are header-safe. */
  lemma TypeRulesHeaderSafe()
    ensures HeaderSafe(VarcharToText) && HeaderSafe(NumericToReal)
  {
    SafeByFirstChar(VarcharToText);
    SafeByChar(NumericToReal, 1, 1);
  }

  /** The rules for boolean and JSON column types are header-safe. */
  lemma CallRulesHeaderSafe()
    ensures HeaderSafe(BooleanToInteger) && HeaderSafe(JsonbToText)
  {
    SafeByFirstChar(BooleanToInteger);
    SafeByFirstChar(JsonbToText);
  }

  /** The rules for timestamp columns are header-safe. */
  lemma TimestampRulesHeaderSafe()
    ensures HeaderSafe(TimestampOptionsToInteger) && HeaderSafe(TimestampToInteger)
  {
    SafeByChar(TimestampOptionsToInteger, 9, 2);
    SafeByChar(TimestampToInteger, 9, 2);
  }

  /** The rules for arrays and UUID defaults are header-safe. */
  lemma MethodRulesHeaderSafe()
    ensures HeaderSafe(DropArray) && HeaderSafe(UuidDefault)
  {
    SafeByFirstChar(DropArray);
    SafeByFirstChar(UuidDefault);
  }

  /** The rules for boolean and timestamp defaults are header-safe. */
  lemma DefaultRulesHeaderSafe()
    ensures HeaderSafe(DefaultTrue) && HeaderSafe(DefaultFalse) && HeaderSafe(DefaultNow)
  {
    SafeByFirstChar(DefaultTrue);
    SafeByFirstChar(DefaultFalse);
    SafeByFirstChar(DefaultNow);
  }

  lemma EnumColumnRuleSafe(e: string, c: string)
    requires IsIdent(e) && IsIdent(c) && 'E' in e
    ensures HeaderSafe(EnumColumnRule(e, c))
  {
    var lead := Lead(EnumColumnRule(e, c));
    assert lead == e + "(\"" + c + "\")";
    var k :| 0 <= k < |e| && e[k] == 'E';
    assert lead[..k + 1] == e[..k + 1];
    assert !IsWordChar('\n');
    SafeByChar(EnumColumnRule(e, c), k, k);
  }

  lemma BooleanModeRuleSafe(c: string)
    requires IsIdent(c) && '_' in c
    ensures HeaderSafe(BooleanModeRule(c))
  {
    var k :| 0 <= k < |c| && c[k] == '_';
    BooleanCallWithoutNewline(c);
    BooleanCallUnderscore(c, k);
    SafeByCharAt(BooleanModeRule(c), k + 9);
  }

  lemma BooleanCallWithoutNewline(c: string)
    requires IsIdent(c)
    ensures forall i :: 0 <= i < |BooleanCall(c)| ==> BooleanCall(c)[i] != '\n'
  {
    assert !IsWordChar('\n');
    ColumnCallWithoutNewline("integer", c);
  }

  lemma BooleanCallUnderscore(c: string, k: nat)
    requires k < |c| && c[k] == '_'
    ensures k + 9 < |BooleanCall(c)| && BooleanCall(c)[k + 9] == '_'
  {
    ColumnCallChars("integer", c);
  }


  /** A column call on newline-free names holds no newline. */
  lemma ColumnCallWithoutNewline(callee: string, column: string)
    requires '\n' !in callee && '\n' !in column
    ensures forall i :: 0 <= i < |ColumnCall(callee, column)| ==> ColumnCall(callee, column)[i] != '\n'
  {
    var t := ColumnCall(callee, column);
    ColumnCallChars(callee, column);
    forall i | 0 <= i < |t| ensures t[i] != '\n' {
      if i < |callee| {
        assert callee[i] in callee;
      } else if |callee| + 2 <= i < |callee| + 2 + |column| {
        assert t[i] == column[i - |callee| - 2];
        assert column[i - |callee| - 2] in column;
      }
    }
  }


  lemma TableRulesHeaderSafe()
    ensures forall i :: 0 <= i < |EnumColumns| ==> HeaderSafe(EnumColumnRules(EnumColumns)[i])
    ensures forall i :: 0 <= i < |BooleanColumns| ==> HeaderSafe(BooleanModeRules(BooleanColumns)[i])
  {
    EnumColumnsWellFormed();
    BooleanColumnsWellFormed();
    forall i | 0 <= i < |EnumColumns| ensures HeaderSafe(EnumColumnRules(EnumColumns)[i]) {
      assert EnumEntryWellFormed(EnumColumns[i]);
      EnumColumnRuleSafe(EnumColumns[i].0, EnumColumns[i].1);
    }
    forall i | 0 <= i < |BooleanColumns| ensures HeaderSafe(BooleanModeRules(BooleanColumns)[i]) {
      BooleanModeRuleSafe(BooleanColumns[i]);
    }
  }

  /** The converted text is the header followed by the conversion of the
      import-rewritten input, carried out as if the header were not there;
      in particular it begins with the header. */
  lemma ConvertKeepsHeader(input: string)
    ensures Convert(input)
      == Header + BooleanStage(DefaultStage(EnumColumnStage(TypeStage(ImportStage(input)))))
    ensures Header <= Convert(input)
  {
    TableRulesHeaderSafe();
    var t0 := ImportStage(input);
    TypeStageKeepsHeader(t0);
    var typed := TypeStage(t0);
    ApplyRulesHeaderInert(EnumColumnRules(EnumColumns), typed);
    var enums := EnumColumnStage(typed);
    DefaultStageKeepsHeader(enums);
    ApplyRulesHeaderInert(BooleanModeRules(BooleanColumns), DefaultStage(enums));
  }

  /** The type rules of lines 21-38 act after the header as if it were not
      there. */
  lemma TypeStageKeepsHeader(t0: string)
    ensures TypeStage(Header + t0) == Header + TypeStage(t0)
  {
    DeclRulesHeaderSafe();
    TypeRulesHeaderSafe();
    CallRulesHeaderSafe();
    TimestampRulesHeaderSafe();
    MethodRulesHeaderSafe();
    HeaderInert(DropEnumDecls, t0);
    var t1 := SubstituteAll(DropEnumDecls, t0);
    HeaderInert(RenameTable, t1);
    var t2 := SubstituteAll(RenameTable, t1);
    HeaderInert(VarcharToText, t2);
    var t3 := SubstituteAll(VarcharToText, t2);
    HeaderInert(NumericToReal, t3);
    var t4 := SubstituteAll(NumericToReal, t3);
    HeaderInert(TimestampOptionsToInteger, t4);
    var t5 := SubstituteAll(TimestampOptionsToInteger, t4);
    HeaderInert(TimestampToInteger, t5);
    var t6 := SubstituteAll(TimestampToInteger, t5);
    HeaderInert(BooleanToInteger, t6);
    var t7 := SubstituteAll(BooleanToInteger, t6);
    HeaderInert(JsonbToText, t7);
    var t8 := SubstituteAll(JsonbToText, t7);
    HeaderInert(DropArray, t8);
    var t9 := SubstituteAll(DropArray, t8);
    HeaderInert(UuidDefault, t9);
  }

  /** The default rules of lines 59-63 act after the header as if it were not
      there. */
  lemma DefaultStageKeepsHeader(t: string)
    ensures DefaultStage(Header + t) == Header + DefaultStage(t)
  {
    DefaultRulesHeaderSafe();
    HeaderInert(DefaultTrue, t);
    var d1 := SubstituteAll(DefaultTrue, t);
    HeaderInert(DefaultFalse, d1);
    var d2 := SubstituteAll(DefaultFalse, d1);
    HeaderInert(DefaultNow, d2);
  }

}
