/** What the individual rules of the conversion do: the tokens each one
    removes for good, the calls each one rewrites, and why the two timestamp
    rules must run in the order the script gives them. */
module RuleFacts {
  import opened Text
  import opened Patterns
  import opened Rewrite
  import opened Conversion

  /** A literal rule whose replacement neither contains nor can be cut into
      its pattern leaves no occurrence of the pattern behind. */
  lemma RemovesOwnPattern(pat: string, rep: string, s: string)
    requires |pat| > 0
    requires NoSuffixCompatible(rep, pat) && NoSuffixCompatible(pat[1..], rep)
    ensures !Occurs(pat, SubstituteAll(Literal(pat, rep), s))
  {
    AbsentAfter(pat, rep, pat, s);
  }

  // ---------------------------------------------------------------------------
  // Tokens that are gone once their rule has run (lines 24, 27, 30-32, 38)

  /** After line 24 no `pgTable` is left. */
  lemma RenameTableRemovesPgTable(s: string)
    ensures !Occurs("pgTable", SubstituteAll(RenameTable, s))
  {
    NoSuffixCompatibleByChars("sqliteTable", "pgTable");
    NoSuffixCompatibleByChars("gTable", "sqliteTable");
    RemovesOwnPattern("pgTable", "sqliteTable", s);
  }

  /** After line 27 no `varchar` is left. */
  lemma VarcharToTextRemovesVarchar(s: string)
    ensures !Occurs("varchar", SubstituteAll(VarcharToText, s))
  {
    NoSuffixCompatibleByChars("text", "varchar");
    NoSuffixCompatibleByChars("archar", "text");
    RemovesOwnPattern("varchar", "text", s);
  }

  /** After line 30 no `timestamp(` is left, although its replacement
      `integer(` holds a `t`. */
  lemma TimestampToIntegerRemovesTimestamp(s: string)
    ensures !Occurs("timestamp(", SubstituteAll(TimestampToInteger, s))
  {
    NoSuffixCompatibleByChars("integer(", "timestamp(");
    NoSuffixCompatibleByChars("imestamp(", "integer(");
    RemovesOwnPattern("timestamp(", "integer(", s);
  }

  /** After line 31 no `boolean(` is left. */
  lemma BooleanToIntegerRemovesBoolean(s: string)
    ensures !Occurs("boolean(", SubstituteAll(BooleanToInteger, s))
  {
    NoSuffixCompatibleByChars("integer(", "boolean(");
    NoSuffixCompatibleByChars("oolean(", "integer(");
    RemovesOwnPattern("boolean(", "integer(", s);
  }

  /** After line 32 no `jsonb(` is left. */
  lemma JsonbToTextRemovesJsonb(s: string)
    ensures !Occurs("jsonb(", SubstituteAll(JsonbToText, s))
  {
    NoSuffixCompatibleByChars("text(", "jsonb(");
    NoSuffixCompatibleByChars("sonb(", "text(");
    RemovesOwnPattern("jsonb(", "text(", s);
  }

  // ---------------------------------------------------------------------------
  // One occurrence among text that cannot start a match (lines 35-38, 59-63)

  /** A literal rule applied to a text holding one occurrence of its pattern,
      between parts that lack the pattern's first character, replaces that
      occurrence and changes nothing else. */
  lemma ReplaceLoneOccurrence(pat: string, rep: string, a: string, b: string)
    requires |pat| > 0 && pat[0] !in a && pat[0] !in b
    ensures SubstituteAll(Literal(pat, rep), a + (pat + b)) == a + (rep + b)
  {
    var r := Literal(pat, rep);
    forall j | 0 <= j < |a| ensures MatchAt(r, (a + (pat + b))[j..]).None? {
      assert (a + (pat + b))[j..][0] == a[j];
    }
    assert pat <= pat + b;
    AbsentByChar(pat, b, 0);
    ReplaceUnique(r, a, pat, b, rep);
  }

  /** A literal rule leaves a text alone when the only place its pattern's
      first character appears is the start of `m`, and `m` differs from the
      pattern at position `d`. */
  lemma UnchangedAtMismatch(pat: string, rep: string, a: string, m: string, b: string, d: nat)
    requires d < |m| && d < |pat| && m[d] != pat[d]
    requires pat[0] !in a && pat[0] !in m[1..] && pat[0] !in b
    ensures SubstituteAll(Literal(pat, rep), a + (m + b)) == a + (m + b)
  {
    var s := a + (m + b);
    forall j | 0 <= j <= |s| ensures !(pat <= s[j..]) {
      if j == |a| {
        assert s[j..][d] == m[d];
      } else if j < |s| {
        if j < |a| {
          assert s[j] == a[j];
        } else if j < |a| + |m| {
          assert s[j] == m[1..][j - |a| - 1];
        } else {
          assert s[j] == b[j - |a| - |m|];
        }
        assert s[j..][0] != pat[0];
      }
    }
    SubstituteWithoutLead(Literal(pat, rep), s);
  }

  /** Line 35 deletes a lone `.array()`. */
  lemma DropArrayDeletes(a: string, b: string)
    requires '.' !in a && '.' !in b
    ensures SubstituteAll(DropArray, a + (".array()" + b)) == a + ("" + b)
  {
    ReplaceLoneOccurrence(".array()", "", a, b);
  }

  /** Line 35 makes one pass: deleting `.array()` from the middle of
      `.arr.array()ay()` joins the two halves into a fresh `.array()`, which
      stays. */
  lemma DropArraySinglePass()
    ensures SubstituteAll(DropArray, ".arr.array()ay()") == ".array()"
  {
    DropArrayPieces();
    var s := ".arr" + (".array()" + "ay()");
    forall j | 0 <= j < 4 ensures MatchAt(DropArray, s[j..]).None? {
      if j == 0 {
        assert s[j..][4] != ".array()"[4];
      } else {
        assert s[j..][0] != '.';
      }
    }
    assert ".array()" <= ".array()" + "ay()";
    assert !Occurs(".array()", "ay()");
    ReplaceUnique(DropArray, ".arr", ".array()", "ay()", "");
  }

  /** The pieces of `.arr.array()ay()` around its `.array()`. */
  lemma DropArrayPieces()
    ensures ".arr" + (".array()" + "ay()") == ".arr.array()ay()"
    ensures ".arr" + ("" + "ay()") == ".array()"
  {
  }

  /** Line 38 gives a lone database-side UUID default to the application. */
  lemma UuidDefaultRewrites(a: string, b: string)
    requires '.' !in a && '.' !in b
    ensures SubstituteAll(UuidDefault, a + (".default(sql`gen_random_uuid()`)" + b))
         == a + (".$defaultFn(() => genId())" + b)
  {
    ReplaceLoneOccurrence(".default(sql`gen_random_uuid()`)", ".$defaultFn(() => genId())", a, b);
  }

  /** The only `.` of each default text is its first character. */
  lemma DefaultCallDots()
    ensures '.' !in ".default(true)"[1..] && '.' !in ".default(false)"[1..]
    ensures '.' !in ".defaultNow()"[1..]
  {
  }

  lemma DefaultValueDots()
    ensures '.' !in ".default(1)"[1..] && '.' !in ".default(0)"[1..]
  {
  }

  /** The texts of lines 59-63 part at index 8 or 9. */
  lemma DefaultMismatches()
    ensures ".default(1)"[9] != ".default(false)"[9] && ".default(1)"[8] != ".defaultNow()"[8]
    ensures ".default(false)"[9] != ".default(true)"[9] && ".default(0)"[8] != ".defaultNow()"[8]
    ensures ".defaultNow()"[8] != ".default(true)"[8] && ".defaultNow()"[8] != ".default(false)"[8]
  {
  }

  /** Lines 59-63 turn a lone `.default(true)` into `.default(1)`, and
      nothing else changes. */
  lemma DefaultTrueRewrites(a: string, b: string)
    requires '.' !in a && '.' !in b
    ensures DefaultStage(a + (".default(true)" + b)) == a + (".default(1)" + b)
  {
    DefaultCallDots();
    DefaultValueDots();
    DefaultMismatches();
    ReplaceLoneOccurrence(".default(true)", ".default(1)", a, b);
    UnchangedAtMismatch(".default(false)", ".default(0)", a, ".default(1)", b, 9);
    UnchangedAtMismatch(".defaultNow()", ".$defaultFn(() => new Date())", a, ".default(1)", b, 8);
  }

  /** Lines 59-63 turn a lone `.default(false)` into `.default(0)`, and
      nothing else changes. */
  lemma DefaultFalseRewrites(a: string, b: string)
    requires '.' !in a && '.' !in b
    ensures DefaultStage(a + (".default(false)" + b)) == a + (".default(0)" + b)
  {
    DefaultCallDots();
    DefaultValueDots();
    DefaultMismatches();
    UnchangedAtMismatch(".default(true)", ".default(1)", a, ".default(false)", b, 9);
    ReplaceLoneOccurrence(".default(false)", ".default(0)", a, b);
    UnchangedAtMismatch(".defaultNow()", ".$defaultFn(() => new Date())", a, ".default(0)", b, 8);
  }

  /** Lines 59-63 turn a lone `.defaultNow()` into an application-side
      timestamp, and nothing else changes. */
  lemma DefaultNowRewrites(a: string, b: string)
    requires '.' !in a && '.' !in b
    ensures DefaultStage(a + (".defaultNow()" + b)) == a + (".$defaultFn(() => new Date())" + b)
  {
    DefaultCallDots();
    DefaultValueDots();
    DefaultMismatches();
    UnchangedAtMismatch(".default(true)", ".default(1)", a, ".defaultNow()", b, 8);
    UnchangedAtMismatch(".default(false)", ".default(0)", a, ".defaultNow()", b, 8);
    ReplaceLoneOccurrence(".defaultNow()", ".$defaultFn(() => new Date())", a, b);
  }

  /** A text without any of the three defaults leaves lines 59-63 with
      nothing to do. */
  lemma DefaultStageIdentity(s: string)
    requires !Occurs(".default(true)", s) && !Occurs(".default(false)", s)
    requires !Occurs(".defaultNow()", s)
    ensures DefaultStage(s) == s
  {
    SubstituteWithoutLead(DefaultTrue, s);
    SubstituteWithoutLead(DefaultFalse, s);
    SubstituteWithoutLead(DefaultNow, s);
  }

  /** The replacement of line 63 holds no `.` past its first character. */
  lemma DefaultNowDots()
    ensures '.' !in ".$defaultFn(() => new Date())"[1..]
  {
    var a, b, c := "$defaultFn(", "() => ", "new Date())";
    assert '.' !in a && '.' !in b && '.' !in c;
    assert ".$defaultFn(() => new Date())"[1..] == a + b + c;
  }

  /** No default rule of lines 59-63 leaves or brings back `.default(true)`:
      each replacement starts with the only `.` of its text and parts from the
      pattern a few characters on. */
  lemma DefaultTrueSeparate()
    ensures NoSuffixCompatible(".default(1)", ".default(true)")
    ensures NoSuffixCompatible(".default(0)", ".default(true)")
    ensures NoSuffixCompatible(".$defaultFn(() => new Date())", ".default(true)")
    ensures NoSuffixCompatible(".default(true)"[1..], ".default(1)")
    ensures NoSuffixCompatible(".default(true)"[1..], ".default(0)")
    ensures NoSuffixCompatible(".default(true)"[1..], ".$defaultFn(() => new Date())")
  {
    DefaultValueDots();
    DefaultNowDots();
    DefaultCallDots();
    NoSuffixCompatibleAt(".default(1)", ".default(true)", 9);
    NoSuffixCompatibleAt(".default(0)", ".default(true)", 9);
    NoSuffixCompatibleAt(".$defaultFn(() => new Date())", ".default(true)", 1);
    NoSuffixCompatibleAt(".default(true)"[1..], ".default(1)", 0);
    NoSuffixCompatibleAt(".default(true)"[1..], ".default(0)", 0);
    NoSuffixCompatibleAt(".default(true)"[1..], ".$defaultFn(() => new Date())", 0);
  }

  /** Likewise, lines 60 and 63 neither leave nor bring back `.default(false)`. */
  lemma DefaultFalseSeparate()
    ensures NoSuffixCompatible(".default(0)", ".default(false)")
    ensures NoSuffixCompatible(".$defaultFn(() => new Date())", ".default(false)")
    ensures NoSuffixCompatible(".default(false)"[1..], ".default(0)")
    ensures NoSuffixCompatible(".default(false)"[1..], ".$defaultFn(() => new Date())")
  {
    DefaultValueDots();
    DefaultNowDots();
    DefaultCallDots();
    NoSuffixCompatibleAt(".default(0)", ".default(false)", 9);
    NoSuffixCompatibleAt(".$defaultFn(() => new Date())", ".default(false)", 1);
    NoSuffixCompatibleAt(".default(false)"[1..], ".default(0)", 0);
    NoSuffixCompatibleAt(".default(false)"[1..], ".$defaultFn(() => new Date())", 0);
  }

  /** Line 63 leaves no `.defaultNow()`. */
  lemma DefaultNowSeparate()
    ensures NoSuffixCompatible(".$defaultFn(() => new Date())", ".defaultNow()")
    ensures NoSuffixCompatible(".defaultNow()"[1..], ".$defaultFn(() => new Date())")
  {
    DefaultNowDots();
    DefaultCallDots();
    NoSuffixCompatibleAt(".$defaultFn(() => new Date())", ".defaultNow()", 1);
    NoSuffixCompatibleAt(".defaultNow()"[1..], ".$defaultFn(() => new Date())", 0);
  }

  /** After lines 59-63, whatever the text, none of `.default(true)`,
      `.default(false)` and `.defaultNow()` is left. */
  lemma DefaultStageRemovesDefaults(s: string)
    ensures !Occurs(".default(true)", DefaultStage(s))
    ensures !Occurs(".default(false)", DefaultStage(s))
    ensures !Occurs(".defaultNow()", DefaultStage(s))
  {
    var t1 := SubstituteAll(DefaultTrue, s);
    var t2 := SubstituteAll(DefaultFalse, t1);
    var now := ".$defaultFn(() => new Date())";
    DefaultTrueSeparate();
    DefaultFalseSeparate();
    DefaultNowSeparate();
    RemovesOwnPattern(".default(true)", ".default(1)", s);
    AbsentAfter(".default(false)", ".default(0)", ".default(true)", t1);
    AbsentAfter(".defaultNow()", now, ".default(true)", t2);
    RemovesOwnPattern(".default(false)", ".default(0)", t1);
    AbsentAfter(".defaultNow()", now, ".default(false)", t2);
    RemovesOwnPattern(".defaultNow()", now, t2);
  }

  // ---------------------------------------------------------------------------
  // Imports (lines 8-15)

  /** A literal pattern without a newline that starts a line, and occurs
      nowhere else, is replaced where it stands: no match can start in the
      lines before it, since one reaching into the pattern would have to hold
      the newline that ends them. */
  lemma ReplaceLine(pat: string, rep: string, a: string, rest: string)
    requires |pat| > 0 && forall k :: 0 <= k < |pat| ==> pat[k] != '\n'
    requires a == [] || a[|a| - 1] == '\n'
    requires !Occurs(pat, a) && !Occurs(pat, rest)
    ensures SubstituteAll(Literal(pat, rep), a + (pat + rest)) == a + (rep + rest)
  {
    var r := Literal(pat, rep);
    var s := a + (pat + rest);
    forall j | 0 <= j < |a| ensures MatchAt(r, s[j..]).None? {
      NoLineStraddle(pat, a, pat + rest, j);
    }
    assert pat <= pat + rest;
    ReplaceUnique(r, a, pat, rest, rep);
  }

  /** The step of `ReplaceLine` at one position of the lines before the
      pattern. */
  lemma NoLineStraddle(pat: string, a: string, b: string, j: nat)
    requires forall k :: 0 <= k < |pat| ==> pat[k] != '\n'
    requires j < |a| && a[|a| - 1] == '\n' && !Occurs(pat, a)
    ensures !(pat <= (a + b)[j..])
  {
    var t := (a + b)[j..];
    if j + |pat| <= |a| {
      assert !(pat <= a[j..]);
      assert t[..|pat|] == a[j..j + |pat|];
    } else {
      var k := |a| - 1 - j;
      assert t[k] == a[|a| - 1];
      assert pat[k] != '\n';
    }
  }

  lemma PgCoreImportHeadOneLine()
    ensures '\n' !in "import { pgTable, text, varchar, integer, "
  {
  }

  lemma PgCoreImportMiddleOneLine()
    ensures '\n' !in "timestamp, pgEnum, numeric, boolean, "
  {
  }

  lemma PgCoreImportTailOneLine()
    ensures '\n' !in "jsonb } from \"drizzle-orm/pg-core\";"
  {
  }

  /** The import line of line 8 holds no newline. */
  lemma PgCoreImportOneLine()
    ensures forall k :: 0 <= k < |PgCoreImport| ==> PgCoreImport[k] != '\n'
  {
    PgCoreImportHeadOneLine();
    PgCoreImportMiddleOneLine();
    PgCoreImportTailOneLine();
    assert '\n' !in PgCoreImport;
  }

  /** The import line of line 15 holds no newline. */
  lemma SqlImportOneLine()
    ensures forall k :: 0 <= k < |SqlImport| ==> SqlImport[k] != '\n'
  {
    assert '\n' !in SqlImport;
  }

  /** Line 8 swaps the PostgreSQL core import for the SQLite one on whatever
      line it stands, and keeps everything else. */
  lemma PgImportReplaced(a: string, rest: string)
    requires a == [] || a[|a| - 1] == '\n'
    requires !Occurs(PgCoreImport, a) && !Occurs(PgCoreImport, rest)
    ensures SubstituteAll(ReplacePgImport, a + (PgCoreImport + rest)) == a + (SqliteCoreImport + rest)
  {
    PgCoreImportOneLine();
    ReplaceLine(PgCoreImport, SqliteCoreImport, a, rest);
  }

  /** Line 15 deletes the `sql` helper import on whatever line it stands, and
      keeps everything else. */
  lemma SqlImportDropped(a: string, rest: string)
    requires a == [] || a[|a| - 1] == '\n'
    requires !Occurs(SqlImport, a) && !Occurs(SqlImport, rest)
    ensures SubstituteAll(DropSqlImport, a + (SqlImport + rest)) == a + rest
  {
    SqlImportOneLine();
    ReplaceLine(SqlImport, "", a, rest);
    assert "" + rest == rest;
  }

  /** A line-free pattern found in neither of two texts, the first of which
      ends a line, is not found in their join either. */
  lemma AbsentAcrossLine(pat: string, x: string, y: string)
    requires forall k :: 0 <= k < |pat| ==> pat[k] != '\n'
    requires x == [] || x[|x| - 1] == '\n'
    requires !Occurs(pat, x) && !Occurs(pat, y)
    ensures !Occurs(pat, x + y)
  {
    forall j | 0 <= j <= |x + y| ensures !(pat <= (x + y)[j..]) {
      if j < |x| {
        NoLineStraddle(pat, x, y, j);
      } else {
        assert (x + y)[j..] == y[j - |x|..];
      }
    }
  }

  /** A pattern that no suffix of `u` is compatible with, and that is absent
      from `y`, is absent from `u + y`. */
  lemma AbsentAfterText(pat: string, u: string, y: string)
    requires NoSuffixCompatible(u, pat) && !Occurs(pat, y)
    ensures !Occurs(pat, u + y)
  {
    forall j | 0 <= j <= |u + y| ensures !(pat <= (u + y)[j..]) {
      if j < |u| {
        assert (u + y)[j..] == u[j..] + y;
        if pat <= u[j..] + y {
          PrefixOfJoin(pat, u[j..], y);
        }
      } else {
        assert (u + y)[j..] == y[j - |u|..];
      }
    }
  }

  /** `u` is told from `b` at its start by one differing position, and its
      later suffixes already are. */
  lemma NoSuffixCompatibleFromStart(u: string, b: string, d: nat)
    requires d < |u| && d < |b| && u[d] != b[d]
    requires NoSuffixCompatible(u[1..], b)
    ensures NoSuffixCompatible(u, b)
  {
    forall k | 0 <= k < |u| ensures !Compatible(u[k..], b) {
      if k == 0 {
        assert u[0..] == u;
      } else {
        assert u[k..] == u[1..][k - 1..];
      }
    }
  }

  /** Telling the suffixes of `u` from a prefix of `b` tells them from `b`. */
  lemma NoSuffixCompatibleWithPrefix(u: string, p: string, b: string)
    requires NoSuffixCompatible(u, p) && p <= b
    ensures NoSuffixCompatible(u, b)
  {
    forall k | 0 <= k < |u| ensures !Compatible(u[k..], b) {
      assert !Compatible(u[k..], p);
    }
  }

  /** Every `c0` of `a` is followed by a character other than `c1`. */
  predicate NoPair(a: string, c0: char, c1: char) {
    forall k :: 0 <= k < |a| && a[k] == c0 ==> k + 1 < |a| && a[k + 1] != c1
  }

  lemma NoPairJoin(a: string, b: string, c0: char, c1: char)
    requires NoPair(a, c0, c1) && NoPair(b, c0, c1)
    ensures NoPair(a + b, c0, c1)
  {
    forall k | 0 <= k < |a + b| && (a + b)[k] == c0 ensures k + 1 < |a + b| && (a + b)[k + 1] != c1 {
      if k < |a| {
        assert a[k] == c0;
      } else {
        assert b[k - |a|] == c0;
      }
    }
  }

  lemma SqlImportTailNoPair()
    ensures NoPair("mport { sql } from \"drizzle-orm\";", 'i', 'm')
  {
  }

  /** The `sql` import line, past its first character, has no `im`. */
  lemma SqlImportNoPair()
    ensures NoPair(SqlImport[1..], 'i', 'm')
  {
    SqlImportTailNoPair();
    assert SqlImport[1..] == "mport { sql } from \"drizzle-orm\";";
  }

  /** No text starting inside the `sql` import line begins with the
      PostgreSQL import line: they part at `s` against `p`, and the only later
      `i` of the line is followed by `z`. */
  lemma SqlImportTellsPgImport()
    ensures NoSuffixCompatible(SqlImport, PgCoreImport)
  {
    var p := "import { p";
    SqlImportNoPair();
    NoSuffixCompatibleByChars(SqlImport[1..], p);
    NoSuffixCompatibleFromStart(SqlImport, p, 9);
    assert p <= "import { pgTable, text, varchar, integer, ";
    NoSuffixCompatibleWithPrefix(SqlImport, p, PgCoreImport);
  }

  lemma SqliteImportHeadNoPair()
    ensures NoPair("mport { sqliteTable, text, ", 'i', 'm')
  {
  }

  lemma SqliteImportMiddleNoPair()
    ensures NoPair("integer, real } from ", 'i', 'm')
  {
  }

  lemma SqliteImportTailNoPair()
    ensures NoPair("\"drizzle-orm/sqlite-core\";", 'i', 'm')
  {
  }

  /** Three texts that have no `c0` followed by `c1`, the first one past its
      first character, have none when joined, past the first character. */
  lemma NoPairJoinTail(x: string, y: string, z: string, c0: char, c1: char)
    requires |x| > 0 && NoPair(x[1..], c0, c1) && NoPair(y, c0, c1) && NoPair(z, c0, c1)
    ensures NoPair((x + y + z)[1..], c0, c1)
  {
    NoPairJoin(x[1..], y, c0, c1);
    NoPairJoin(x[1..] + y, z, c0, c1);
    assert (x + y + z)[1..] == x[1..] + y + z;
  }

  /** The SQLite import line, past its first character, has no `im`: its
      later `i`s are followed by `t`, `n` or `z`. */
  lemma SqliteImportNoPair()
    ensures NoPair(SqliteCoreImport[1..], 'i', 'm')
  {
    var s1 := "import { sqliteTable, text, ";
    SqliteImportHeadNoPair();
    SqliteImportMiddleNoPair();
    SqliteImportTailNoPair();
    assert s1[1..] == "mport { sqliteTable, text, ";
    NoPairJoinTail(s1, "integer, real } from ", "\"drizzle-orm/sqlite-core\";", 'i', 'm');
  }

  /** No text starting inside the SQLite import line begins with the `sql`
      import line: they part at `i` against a space, and every later `i` of
      the line is followed by a letter other than `m`. */
  lemma SqliteImportTellsSqlImport()
    ensures NoSuffixCompatible(SqliteCoreImport, SqlImport)
  {
    var p := "import { sql ";
    SqliteImportNoPair();
    NoSuffixCompatibleByChars(SqliteCoreImport[1..], p);
    assert SqliteCoreImport[12] == 'i';
    NoSuffixCompatibleFromStart(SqliteCoreImport, p, 12);
    assert p <= SqlImport;
    NoSuffixCompatibleWithPrefix(SqliteCoreImport, p, SqlImport);
  }

  /** Line 8 on a file holding both import lines: the PostgreSQL one is
      swapped, and the `sql` line after it is kept. */
  lemma ImportStagePgStep(a: string, b: string, rest: string)
    requires a == [] || a[|a| - 1] == '\n'
    requires |b| > 0 && b[|b| - 1] == '\n'
    requires !Occurs(PgCoreImport, a) && !Occurs(PgCoreImport, b) && !Occurs(PgCoreImport, rest)
    ensures SubstituteAll(ReplacePgImport, a + (PgCoreImport + (b + (SqlImport + rest))))
            == a + (SqliteCoreImport + (b + (SqlImport + rest)))
  {
    PgCoreImportOneLine();
    SqlImportTellsPgImport();
    AbsentAfterText(PgCoreImport, SqlImport, rest);
    AbsentAcrossLine(PgCoreImport, b, SqlImport + rest);
    PgImportReplaced(a, b + (SqlImport + rest));
  }

  /** A line-free pattern that starts a line after a line `u` that cannot
      run into it, and occurs nowhere else, is deleted, and `u` is kept. */
  lemma DropLineAfter(pat: string, u: string, a: string, b: string, rest: string)
    requires |pat| > 0 && forall k :: 0 <= k < |pat| ==> pat[k] != '\n'
    requires NoSuffixCompatible(u, pat)
    requires a == [] || a[|a| - 1] == '\n'
    requires |b| > 0 && b[|b| - 1] == '\n'
    requires !Occurs(pat, a) && !Occurs(pat, b) && !Occurs(pat, rest)
    ensures SubstituteAll(Literal(pat, ""), a + (u + (b + (pat + rest)))) == a + (u + (b + rest))
  {
    var front := a + (u + b);
    AbsentBeforeLine(pat, u, a, b);
    LineJoinEnds(a, u, b);
    ReplaceLine(pat, "", front, rest);
    JoinRegroup(a, u, b, pat, rest);
  }

  lemma LineJoinEnds(a: string, u: string, b: string)
    requires |b| > 0 && b[|b| - 1] == '\n'
    ensures (a + (u + b))[|a + (u + b)| - 1] == '\n'
  {
  }

  lemma JoinRegroup(a: string, u: string, b: string, pat: string, rest: string)
    ensures a + (u + (b + (pat + rest))) == (a + (u + b)) + (pat + rest)
    ensures (a + (u + b)) + ("" + rest) == a + (u + (b + rest))
  {
  }

  /** The step of `DropLineAfter` before the pattern: the lines in front of
      it do not hold it. */
  lemma AbsentBeforeLine(pat: string, u: string, a: string, b: string)
    requires forall k :: 0 <= k < |pat| ==> pat[k] != '\n'
    requires NoSuffixCompatible(u, pat)
    requires a == [] || a[|a| - 1] == '\n'
    requires !Occurs(pat, a) && !Occurs(pat, b)
    ensures !Occurs(pat, a + (u + b))
  {
    AbsentAfterText(pat, u, b);
    AbsentAcrossLine(pat, a, u + b);
  }

  /** Line 15 on the result: the `sql` line is deleted, and the SQLite line
      before it is kept. */
  lemma ImportStageSqlStep(a: string, b: string, rest: string)
    requires a == [] || a[|a| - 1] == '\n'
    requires |b| > 0 && b[|b| - 1] == '\n'
    requires !Occurs(SqlImport, a) && !Occurs(SqlImport, b) && !Occurs(SqlImport, rest)
    ensures SubstituteAll(DropSqlImport, a + (SqliteCoreImport + (b + (SqlImport + rest))))
            == a + (SqliteCoreImport + (b + rest))
  {
    SqlImportOneLine();
    SqliteImportTellsSqlImport();
    DropLineAfter(SqlImport, SqliteCoreImport, a, b, rest);
  }

  /** Lines 8-15 on a file holding both import lines, the PostgreSQL one
      first: the first is swapped for the SQLite line, the second is deleted,
      and everything else is kept. */
  lemma ImportStageBothLines(a: string, b: string, rest: string)
    requires a == [] || a[|a| - 1] == '\n'
    requires |b| > 0 && b[|b| - 1] == '\n'
    requires !Occurs(PgCoreImport, a) && !Occurs(PgCoreImport, b) && !Occurs(PgCoreImport, rest)
    requires !Occurs(SqlImport, a) && !Occurs(SqlImport, b) && !Occurs(SqlImport, rest)
    ensures ImportStage(a + (PgCoreImport + (b + (SqlImport + rest)))) == a + (SqliteCoreImport + (b + rest))
  {
    ImportStagePgStep(a, b, rest);
    ImportStageSqlStep(a, b, rest);
  }

  /** Line 8 on a file holding the `sql` import line first: the PostgreSQL
      line after it is swapped, and the `sql` line is kept. */
  lemma ImportStagePgStepAfterSql(a: string, b: string, rest: string)
    requires a == [] || a[|a| - 1] == '\n'
    requires |b| > 0 && b[|b| - 1] == '\n'
    requires !Occurs(PgCoreImport, a) && !Occurs(PgCoreImport, b) && !Occurs(PgCoreImport, rest)
    ensures SubstituteAll(ReplacePgImport, a + (SqlImport + (b + (PgCoreImport + rest))))
            == a + (SqlImport + (b + (SqliteCoreImport + rest)))
  {
    var front := a + (SqlImport + b);
    PgCoreImportOneLine();
    SqlImportTellsPgImport();
    AbsentBeforeLine(PgCoreImport, SqlImport, a, b);
    LineJoinEnds(a, SqlImport, b);
    ReplaceLine(PgCoreImport, SqliteCoreImport, front, rest);
    JoinRegroup(a, SqlImport, b, PgCoreImport, rest);
    JoinRegroup(a, SqlImport, b, SqliteCoreImport, rest);
  }

  /** Line 15 on the result: the `sql` line is deleted, and the SQLite line
      after it is kept. */
  lemma ImportStageSqlStepBeforeSqlite(a: string, b: string, rest: string)
    requires a == [] || a[|a| - 1] == '\n'
    requires |b| > 0 && b[|b| - 1] == '\n'
    requires !Occurs(SqlImport, a) && !Occurs(SqlImport, b) && !Occurs(SqlImport, rest)
    ensures SubstituteAll(DropSqlImport, a + (SqlImport + (b + (SqliteCoreImport + rest))))
            == a + (b + (SqliteCoreImport + rest))
  {
    var after := b + (SqliteCoreImport + rest);
    SqlImportOneLine();
    SqliteImportTellsSqlImport();
    AbsentAfterText(SqlImport, SqliteCoreImport, rest);
    AbsentAcrossLine(SqlImport, b, SqliteCoreImport + rest);
    ReplaceLine(SqlImport, "", a, after);
    assert "" + after == after;
  }

  /** Lines 8-15 on a file holding both import lines, the `sql` one first:
      the order does not matter, the `sql` line is deleted and the
      PostgreSQL line is swapped for the SQLite line. */
  lemma ImportStageBothLinesReversed(a: string, b: string, rest: string)
    requires a == [] || a[|a| - 1] == '\n'
    requires |b| > 0 && b[|b| - 1] == '\n'
    requires !Occurs(PgCoreImport, a) && !Occurs(PgCoreImport, b) && !Occurs(PgCoreImport, rest)
    requires !Occurs(SqlImport, a) && !Occurs(SqlImport, b) && !Occurs(SqlImport, rest)
    ensures ImportStage(a + (SqlImport + (b + (PgCoreImport + rest)))) == a + (b + (SqliteCoreImport + rest))
  {
    ImportStagePgStepAfterSql(a, b, rest);
    ImportStageSqlStepBeforeSqlite(a, b, rest);
  }

  // ---------------------------------------------------------------------------
  // Enum declarations (line 21)

  /** `export const <w>Enum = pgEnum(<args>);` */
  function EnumDeclText(w: string, args: string): string {
    EnumDeclHead + w + "Enum" + EnumDeclMid + args + ");"
  }

  /** A declaration whose arguments hold no closing parenthesis is deleted
      entirely. */
  lemma EnumDeclDeleted(w: string, args: string)
    requires IsIdent(w) && |args| > 0 && ')' !in args
    ensures SubstituteAll(DropEnumDecls, EnumDeclText(w, args)) == []
  {
    var s := EnumDeclText(w, args);
    EnumDeclTextSplit(w, args);
    assert s[..|s|] == s;
    EnumDeclComplete(s, |s|, 17 + |w|);
    assert s[|s|..] == [];
  }

  /** A declaration whose arguments hold no closing parenthesis meets the
      declarative description of line 21, with its identifier run ending at
      `17 + |w|`. */
  lemma EnumDeclTextSplit(w: string, args: string)
    requires IsIdent(w) && |args| > 0 && ')' !in args
    ensures EnumDeclSplit(EnumDeclText(w, args), 17 + |w|)
  {
    var s := EnumDeclText(w, args);
    var e := 13 + |w| + 4;
    assert s[..13] == EnumDeclHead;
    forall k | 13 <= k < e - 4 ensures IsWordChar(s[k]) {
      assert s[k] == w[k - 13];
      assert w[k - 13] in w;
    }
    assert s[e - 4..e] == "Enum";
    assert s[e..e + 10] == EnumDeclMid;
    forall k | e + 10 <= k < |s| - 2 ensures s[k] != ')' {
      assert s[k] == args[k - e - 10];
    }
    assert s[|s| - 2..] == ");";
  }

  /** When the arguments hold `);` after a non-empty run without `)`, line 21
      deletes the declaration only up to that `);`, and scanning resumes
      after it: the rest of the arguments and the declaration's own `);`
      are left to the remaining text. */
  lemma EnumDeclCutAtInnerClose(w: string, x: string, y: string)
    requires IsIdent(w) && |x| > 0 && ')' !in x
    ensures SubstituteAll(DropEnumDecls, EnumDeclText(w, x + ");" + y))
            == SubstituteAll(DropEnumDecls, y + ");")
  {
    var m := EnumDeclText(w, x);
    var b := y + ");";
    assert EnumDeclText(w, x + ");" + y) == m + b;
    EnumDeclTextSplit(w, x);
    assert (m + b)[..|m|] == m;
    EnumDeclComplete(m + b, |m|, 17 + |w|);
    ReplaceAtStart(DropEnumDecls, m, b, "");
  }

  /** `export const xEnum = pgEnum("a");b);` becomes `b);`. */
  lemma EnumDeclInnerCloseExample()
    ensures SubstituteAll(DropEnumDecls, EnumDeclText("x", "\"a\");b")) == "b);"
  {
    assert IsIdent("x") && ')' !in "\"a\"";
    assert "\"a\"" + ");" + "b" == "\"a\");b";
    EnumDeclCutAtInnerClose("x", "\"a\"", "b");
    assert "b" + ");" == "b);";
    SubstituteWithoutLead(DropEnumDecls, "b);");
  }

  /** The scanner of line 21 gives up when the argument run ends at a closing
      parenthesis that `;` does not follow. */
  lemma EnumDeclStopsAt(s: string, e: nat, m: nat)
    requires 18 <= e && e + 10 <= m < |s| - 1
    requires EnumDeclHead <= s && RunEnd(s, 13, Word) == e
    requires s[e - 4..e] == "Enum" && EnumDeclMid <= s[e..]
    requires RunEnd(s, e + 10, Except(')')) == m && s[m + 1] != ';'
    ensures MatchEnumDecl(s).None?
  {
    assert s[m..][1] == s[m + 1];
  }

  /** The start of a declaration text: the head, then the identifier run
      ending at `17 + |w|` with its `Enum`, then ` = pgEnum(`. */
  lemma EnumDeclTextHead(w: string, args: string)
    requires IsIdent(w)
    ensures EnumDeclHead <= EnumDeclText(w, args)
    ensures RunEnd(EnumDeclText(w, args), 13, Word) == 17 + |w|
    ensures EnumDeclText(w, args)[13 + |w|..17 + |w|] == "Enum"
    ensures EnumDeclMid <= EnumDeclText(w, args)[17 + |w|..]
  {
    var p1 := EnumDeclHead + w;
    var p2 := p1 + "Enum";
    var p3 := p2 + EnumDeclMid;
    var s := EnumDeclText(w, args);
    assert s == p3 + (args + ");");
    var e := 13 + |w| + 4;
    assert s[..13] == p1[..13] == EnumDeclHead;
    forall k | 13 <= k < e ensures IsWordChar(s[k]) {
      if k < e - 4 {
        assert s[k] == p1[k] == w[k - 13];
        assert w[k - 13] in w;
      } else {
        assert s[k] == p2[k] == "Enum"[k - e + 4];
      }
    }
    assert s[e] == p3[e] == ' ';
    RunEndIs(s, 13, Word, e);
    assert s[e - 4..e] == p2[e - 4..e] == "Enum";
    assert s[e..e + 10] == p3[e..e + 10] == EnumDeclMid;
  }

  /** The rest of a declaration text: the arguments from `27 + |w|` on, then
      `);`. */
  lemma EnumDeclTextArgs(w: string, args: string)
    ensures |EnumDeclText(w, args)| == 29 + |w| + |args|
    ensures forall k :: 0 <= k < |args| ==> EnumDeclText(w, args)[27 + |w| + k] == args[k]
    ensures EnumDeclText(w, args)[27 + |w| + |args|] == ')'
    ensures EnumDeclText(w, args)[28 + |w| + |args|] == ';'
  {
    var p3 := EnumDeclHead + w + "Enum" + EnumDeclMid;
    var p4 := p3 + args;
    var s := p4 + ");";
    assert |p3| == 27 + |w|;
    forall k | 0 <= k < |args| ensures s[27 + |w| + k] == args[k] {
      assert s[27 + |w| + k] == p4[27 + |w| + k];
    }
  }

  /** A declaration whose arguments hold a closing parenthesis that is not
      followed by `;` is no match of the pattern: `[^)]+` stops at the first
      closing parenthesis, and `);` must follow it. */
  lemma EnumDeclWithParenUnmatched(w: string, x: string, y: string)
    requires IsIdent(w) && ')' !in x && (y == [] || y[0] != ';')
    ensures MatchEnumDecl(EnumDeclText(w, x + ")" + y)).None?
  {
    var args := x + ")" + y;
    var s := EnumDeclText(w, args);
    EnumDeclTextHead(w, args);
    EnumDeclTextArgs(w, args);
    var e := 17 + |w|;
    var m := e + 10 + |x|;
    forall k | e + 10 <= k < m ensures s[k] != ')' {
      assert s[k] == args[k - e - 10] == x[k - e - 10];
    }
    assert s[m] == args[|x|] == ')';
    RunEndIs(s, e + 10, Except(')'), m);
    assert s[m + 1] != ';' by {
      if y == [] {
        assert s[m + 1] == ')';
      } else {
        assert s[m + 1] == args[|x| + 1] == y[0];
      }
    }
    EnumDeclStopsAt(s, e, m);
  }

  /** The text between the identifier and the arguments of a declaration. */
  const EnumDeclJoint: string := "Enum" + EnumDeclMid

  /** The characters of a declaration text, region by region. */
  lemma EnumDeclTextChars(w: string, args: string)
    ensures |EnumDeclText(w, args)| == 29 + |w| + |args|
    ensures EnumDeclText(w, args)[..13] == EnumDeclHead
    ensures forall k :: 0 <= k < |w| ==> EnumDeclText(w, args)[13 + k] == w[k]
    ensures forall o :: 0 <= o < 14 ==> EnumDeclText(w, args)[13 + |w| + o] == EnumDeclJoint[o]
    ensures EnumDeclText(w, args)[27 + |w|..] == args + ");"
  {
    var p1 := EnumDeclHead + w;
    var p3 := p1 + EnumDeclJoint;
    var s := EnumDeclText(w, args);
    assert s == p3 + (args + ");");
    assert |p3| == 27 + |w|;
    forall k | 0 <= k < |w| ensures s[13 + k] == w[k] {
      assert s[13 + k] == p3[13 + k] == p1[13 + k];
    }
    forall o | 0 <= o < 14 ensures s[13 + |w| + o] == EnumDeclJoint[o] {
      assert s[13 + |w| + o] == p3[13 + |w| + o];
    }
  }

  /** Neither the head past its first character nor the joint holds an `e`,
      and the joint holds its only two spaces at 4 and 6. */
  lemma EnumDeclLetters()
    ensures forall k :: 1 <= k < 13 ==> EnumDeclHead[k] != 'e'
    ensures forall o :: 0 <= o < 14 ==> EnumDeclJoint[o] != 'e'
    ensures forall o :: 0 <= o < 14 && EnumDeclJoint[o] == ' ' ==> o == 4 || o == 6
    ensures EnumDeclJoint[10] != ' ' && EnumDeclJoint[13] == '('
    ensures EnumDeclHead[0] == 'e' && EnumDeclHead[6] == ' ' && EnumDeclHead[12] == ' '
    ensures ')' !in EnumDeclHead && ';' !in EnumDeclHead && '(' !in EnumDeclHead
  {
  }

  /** No `export const` starts in the identifier of a declaration: it would
      need two spaces six characters apart, and the identifier and the joint
      after it do not have them. */
  lemma NoHeadInIdent(s: string, w: string, j: nat)
    requires IsIdent(w) && 13 <= j < 13 + |w| && 27 + |w| <= |s|
    requires forall k :: 0 <= k < |w| ==> s[13 + k] == w[k]
    requires forall o :: 0 <= o < 14 ==> s[13 + |w| + o] == EnumDeclJoint[o]
    ensures !(EnumDeclHead <= s[j..])
  {
    EnumDeclLetters();
    var t := s[j..];
    if j + 6 < 13 + |w| {
      assert w[j + 6 - 13] in w;
      assert t[6] == w[j + 6 - 13] != EnumDeclHead[6];
    } else if j + 6 == 13 + |w| + 4 {
      assert t[12] == s[13 + |w| + 10] == EnumDeclJoint[10];
      assert t[12] != EnumDeclHead[12];
    } else {
      var o: nat := j + 6 - 13 - |w|;
      assert t[6] == s[13 + |w| + o] == EnumDeclJoint[o];
      assert t[6] != EnumDeclHead[6];
    }
  }

  /** Past its own start, a declaration text whose arguments hold no
      `export const` holds none either: the head and the joint hold no `e`, the
      identifier cannot hold it, and no occurrence can reach over `(` or into
      the closing `);`. */
  lemma EnumDeclNoLaterHead(w: string, args: string)
    requires IsIdent(w) && !Occurs(EnumDeclHead, args)
    ensures forall j :: 1 <= j < |EnumDeclText(w, args)| ==> !(EnumDeclHead <= EnumDeclText(w, args)[j..])
  {
    var s := EnumDeclText(w, args);
    EnumDeclTextChars(w, args);
    EnumDeclLetters();
    forall j | 1 <= j < |s| ensures !(EnumDeclHead <= s[j..]) {
      if j < 13 {
        assert s[j] == EnumDeclHead[j];
      } else if j < 13 + |w| {
        NoHeadInIdent(s, w, j);
      } else if j < 27 + |w| {
        var o: nat := j - 13 - |w|;
        assert s[j] == EnumDeclJoint[o];
      } else {
        NoHeadInArgs(args, j - 27 - |w|);
        assert s[j..] == (args + ");")[j - 27 - |w|..];
      }
    }
  }

  /** An occurrence starting in the arguments cannot run into the closing
      `);`, so it would lie within the arguments. */
  lemma NoHeadInArgs(args: string, i: nat)
    requires !Occurs(EnumDeclHead, args) && i <= |args| + 2
    ensures !(EnumDeclHead <= (args + ");")[i..])
  {
    var t := args + ");";
    EnumDeclLetters();
    if i + 13 <= |args| {
      assert !(EnumDeclHead <= args[i..]);
      assert t[i..i + 13] == args[i..i + 13];
    } else if i <= |args| {
      var k := |args| - i;
      assert t[i..][k] == ')';
      assert EnumDeclHead[k] in EnumDeclHead;
    }
  }

  /** Such a declaration therefore survives the deletion of line 21, provided
      its arguments hold no further `export const` at which another match
      could start. */
  lemma EnumDeclWithParenKept(w: string, x: string, y: string)
    requires IsIdent(w) && ')' !in x && (y == [] || y[0] != ';')
    requires !Occurs(EnumDeclHead, x + ")" + y)
    ensures SubstituteAll(DropEnumDecls, EnumDeclText(w, x + ")" + y)) == EnumDeclText(w, x + ")" + y)
  {
    var args := x + ")" + y;
    var s := EnumDeclText(w, args);
    EnumDeclWithParenUnmatched(w, x, y);
    EnumDeclNoLaterHead(w, args);
    forall j | 0 <= j < |s| ensures MatchAt(DropEnumDecls, s[j..]).None? {
      if j == 0 {
        assert s[0..] == s;
      }
    }
    SubstituteIdentity(DropEnumDecls, s);
  }

  // ---------------------------------------------------------------------------
  // Numeric columns (line 28)

  lemma NumericCallShape(args: string)
    requires |args| > 0 && ')' !in args
    ensures IsNumericCall(NumericHead + args + ")")
  {
    var u := NumericHead + args;
    var s := u + ")";
    assert |NumericHead| == 8;
    assert s[..8] == u[..8] == NumericHead;
    forall k | 8 <= k < |s| - 1 ensures s[k] != ')' {
      assert s[k] == u[k] == args[k - 8];
    }
  }

  /** A text that is one numeric call is matched whole. */
  lemma NumericWhole(s: string)
    requires IsNumericCall(s)
    ensures MatchNumeric(s) == Some(Hit(|s|, "real"))
  {
    assert s[..|s|] == s;
    NumericComplete(s, |s|);
  }

  /** `numeric(<args>)` with a non-empty argument text free of closing
      parentheses collapses to the bare word `real`; the arguments, column
      name included, are dropped. */
  lemma NumericCollapses(args: string)
    requires |args| > 0 && ')' !in args
    ensures SubstituteAll(NumericToReal, NumericHead + args + ")") == "real"
  {
    var s := NumericHead + args + ")";
    NumericCallShape(args);
    NumericWhole(s);
    ReplaceWhole(NumericToReal, s, "real");
  }

  /** `numeric()` with an empty argument list is not a match and stays,
      wherever it stands in text that holds no other `n`. */
  lemma EmptyNumericKept(a: string, b: string)
    requires 'n' !in a && 'n' !in b
    ensures SubstituteAll(NumericToReal, a + ("numeric()" + b)) == a + ("numeric()" + b)
  {
    var t := "numeric()" + b;
    var s := a + t;
    assert t[..8] == NumericHead && t[8] == ')';
    RunEndIs(t, 8, Except(')'), 8);
    forall j | 0 <= j < |s| ensures MatchAt(NumericToReal, s[j..]).None? {
      if j < |a| {
        assert s[j..][0] == a[j];
      } else if j == |a| {
        assert s[j..] == t;
      } else if j < |a| + 9 {
        assert s[j..][0] == "numeric()"[j - |a|];
      } else {
        assert s[j..][0] == b[j - |a| - 9];
      }
    }
    SubstituteIdentity(NumericToReal, s);
  }

  // ---------------------------------------------------------------------------
  // Timestamp columns (lines 29-30)

  /** A timestamp call with an options object:
      `timestamp("<name>",<white space>{<options>})`. */
  function TimestampCall(name: string, ws: string, opts: string): string {
    TimestampHead + name + "\"," + ws + "{" + opts + "})"
  }

  predicate AllSpace(ws: string) {
    forall k :: 0 <= k < |ws| ==> IsSpaceChar(ws[k])
  }

  /** Such a call is what the regular expression of line 29 describes, with
      the quoted name closing at `11 + |name|`. */
  lemma TimestampCallShape(name: string, ws: string, opts: string)
    requires |name| > 0 && '"' !in name && AllSpace(ws) && '}' !in opts
    ensures TimestampSplit(TimestampCall(name, ws, opts), 11 + |name|, 13 + |name| + |ws|)
    ensures TimestampCall(name, ws, opts)[11..11 + |name|] == name
  {
    var q := 11 + |name|;
    var b := q + 2 + |ws|;
    var p1 := TimestampHead + name;
    var p2 := p1 + "\",";
    var p3 := p2 + ws;
    var p4 := p3 + "{";
    var p5 := p4 + opts;
    var s := p5 + "})";
    assert |TimestampHead| == 11;
    assert s[..11] == p1[..11] == TimestampHead;
    forall k | 11 <= k < q ensures s[k] != '"' {
      assert s[k] == p1[k] == name[k - 11];
    }
    assert s[11..q] == p1[11..q] == name;
    assert s[q] == p2[q] == '"';
    assert s[q + 1] == p2[q + 1] == ',';
    forall k | q + 2 <= k < b ensures IsSpaceChar(s[k]) {
      assert s[k] == p3[k] == ws[k - q - 2];
    }
    assert s[b] == p4[b] == '{';
    forall k | b + 1 <= k < |s| - 2 ensures s[k] != '}' {
      assert s[k] == p5[k] == opts[k - b - 1];
    }
    assert s[|s| - 2..] == "})";
  }

  /** Line 29 turns a timestamp call with an options object into an integer
      call in timestamp mode, keeping the quoted column name and dropping the
      options. */
  lemma TimestampWithOptionsConverted(name: string, ws: string, opts: string)
    requires |name| > 0 && '"' !in name && AllSpace(ws) && '}' !in opts
    ensures SubstituteAll(TimestampOptionsToInteger, TimestampCall(name, ws, opts)) == TimestampRep(name)
  {
    var s := TimestampCall(name, ws, opts);
    TimestampCallShape(name, ws, opts);
    assert s[..|s|] == s;
    TimestampComplete(s, |s|, 11 + |name|, 13 + |name| + |ws|);
    ReplaceWhole(TimestampOptionsToInteger, s, TimestampRep(name));
  }

  /** In a timestamp call without parentheses in its name or options, the
      only opening parenthesis is the call's own. */
  lemma TimestampCallParens(name: string, ws: string, opts: string)
    requires '(' !in name && AllSpace(ws) && '(' !in opts
    ensures forall i :: 0 <= i < |TimestampCall(name, ws, opts)| && TimestampCall(name, ws, opts)[i] == '(' ==> i == 9
  {
    var p1 := TimestampHead + name;
    var p2 := p1 + "\",";
    var p3 := p2 + ws;
    var p4 := p3 + "{";
    var p5 := p4 + opts;
    var s := p5 + "})";
    assert s == TimestampCall(name, ws, opts);
    forall i | 0 <= i < |s| ensures s[i] == '(' ==> i == 9 {
      if i < 11 {
        assert s[i] == TimestampHead[i];
      } else if i < |p1| {
        assert s[i] == p1[i] == name[i - 11];
        assert name[i - 11] in name;
      } else if i < |p2| {
        assert s[i] == p2[i];
      } else if i < |p3| {
        assert s[i] == p3[i] == ws[i - |p2|];
        assert IsSpaceChar(ws[i - |p2|]);
      } else if i < |p4| {
        assert s[i] == p4[i];
      } else if i < |p5| {
        assert s[i] == p5[i] == opts[i - |p4|];
        assert opts[i - |p4|] in opts;
      } else {
        assert s[i] == "})"[i - |p5|];
      }
    }
  }

  /** A pattern found in neither of two texts, and without the character
      that starts the second, is not found in their join. */
  lemma AbsentBeforeChar(pat: string, x: string, y: string)
    requires 0 < |y| && forall k :: 0 <= k < |pat| ==> pat[k] != y[0]
    requires !Occurs(pat, x) && !Occurs(pat, y)
    ensures !Occurs(pat, x + y)
  {
    forall j | 0 <= j <= |x + y| ensures !(pat <= (x + y)[j..]) {
      var t := (x + y)[j..];
      if j + |pat| <= |x| {
        assert !(pat <= x[j..]);
        assert t[..|pat|] == x[j..j + |pat|];
      } else if j <= |x| {
        assert t[|x| - j] == y[0];
      } else {
        assert t == y[j - |x|..];
      }
    }
  }

  /** `timestamp(` holds no quote, and no `(` before its end. */
  lemma TimestampCallChars()
    ensures forall k :: 0 <= k < 10 ==> "timestamp("[k] != '"'
    ensures "timestamp("[9] == '(' && "timestamp("[0] == 't' && "timestamp("[1] == 'i'
  {
  }

  /** The head `integer("` of line 29's replacement cannot run into
      `timestamp(`: its only `t` is followed by `e`. */
  lemma IntegerHeadTellsTimestamp()
    ensures NoSuffixCompatible("integer(\"", "timestamp(")
  {
    NoSuffixCompatibleByChars("integer(\"", "timestamp(");
  }

  /** Line 29's replacement holds `timestamp(` only when the name does: the
      head cannot run into it, no occurrence crosses the closing quote, and
      the fixed tail holds no `(`. */
  lemma TimestampRepLacksCall(name: string)
    requires !Occurs("timestamp(", name)
    ensures !Occurs("timestamp(", TimestampRep(name))
  {
    var tail := "\", { mode: \"timestamp\" })";
    TimestampCallChars();
    assert '(' !in tail;
    AbsentByChar("timestamp(", tail, 9);
    AbsentBeforeChar("timestamp(", name, tail);
    IntegerHeadTellsTimestamp();
    AbsentAfterText("timestamp(", "integer(\"", name + tail);
    assert TimestampRep(name) == "integer(\"" + (name + tail);
  }

  /** A text whose opening parentheses all sit before index 9 holds neither
      `timestamp(` nor `timestamp("`, whose parenthesis is their tenth
      character. */
  lemma NoTimestampLead(t: string)
    requires forall i :: 0 <= i < |t| && t[i] == '(' ==> i < 9
    ensures !Occurs(Lead(TimestampToInteger), t) && !Occurs(Lead(TimestampOptionsToInteger), t)
  {
    forall j | 0 <= j <= |t| ensures !("timestamp(" <= t[j..]) && !(TimestampHead <= t[j..]) {
      if j + 9 < |t| {
        assert t[j..][9] == t[j + 9];
      }
    }
  }

  /** Line 29 before line 30, as the script runs them: the options call
      becomes the timestamp-mode integer call, which line 30 then leaves
      alone unless the column name itself holds `timestamp(`. */
  lemma TimestampRulesInOrder(name: string, ws: string, opts: string)
    requires |name| > 0 && '"' !in name && !Occurs("timestamp(", name) && AllSpace(ws) && '}' !in opts
    ensures SubstituteAll(TimestampToInteger, SubstituteAll(TimestampOptionsToInteger, TimestampCall(name, ws, opts)))
            == TimestampRep(name)
  {
    TimestampWithOptionsConverted(name, ws, opts);
    TimestampRepLacksCall(name);
    SubstituteWithoutLead(TimestampToInteger, TimestampRep(name));
  }

  /** Line 30 before line 29 would turn the options call into a plain integer
      call that keeps its options object and never gains the timestamp mode:
      line 29 no longer finds its `timestamp("` head. */
  lemma TimestampRulesReversed(name: string, ws: string, opts: string)
    requires '(' !in name && AllSpace(ws) && '(' !in opts
    ensures SubstituteAll(TimestampOptionsToInteger, SubstituteAll(TimestampToInteger, TimestampCall(name, ws, opts)))
            == "integer(" + TimestampCall(name, ws, opts)[10..]
  {
    var s := TimestampCall(name, ws, opts);
    var rest := s[10..];
    TimestampCallParens(name, ws, opts);
    assert s[..10] == TimestampHead[..10] == "timestamp(";
    assert s[..10] + rest == s;
    ReplaceAtStart(TimestampToInteger, s[..10], rest, "integer(");
    forall i | 0 <= i < |rest| ensures rest[i] != '(' {
      assert rest[i] == s[i + 10];
    }
    NoTimestampLead(rest);
    SubstituteWithoutLead(TimestampToInteger, rest);
    var out := "integer(" + rest;
    forall i | 0 <= i < |out| ensures out[i] == '(' ==> i < 9 {
      if i >= 8 {
        assert out[i] == rest[i - 8];
      }
    }
    NoTimestampLead(out);
    SubstituteWithoutLead(TimestampOptionsToInteger, out);
  }
}
