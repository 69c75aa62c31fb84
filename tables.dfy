/** The two lookup tables of the script (lines 41-53 and 66-72) and what the
    loops over them (lines 55-56 and 74-75) do: an enum-column rule fires
    only on the call of its own pair, and the boolean annotations, once made,
    are never made again. Both arguments rest on the opening parenthesis of
    a call: a text that holds one call and no other parenthesis can hold
    another rule's pattern only where the two parentheses line up. */
module TableFacts {
  import opened Text
  import opened Patterns
  import opened Rewrite
  import opened Conversion

  // ---------------------------------------------------------------------------
  // The tables

  /** An entry of the enum-column table: both names are identifiers, and the
      constructor name ends with the `m` of its `Enum` suffix (and so holds
      an `E`). */
  predicate EnumEntryWellFormed(entry: (string, string)) {
    IsIdent(entry.0) && IsIdent(entry.1) && 'E' in entry.0 && entry.0[|entry.0| - 1] == 'm'
  }

  // The table is checked a few entries at a time, so that each piece stays a
  // small proof obligation; EnumColumnsWellFormed joins the pieces.

  lemma EnumColumnsFirstTwoWellFormed()
    ensures forall i :: 0 <= i < 2 ==> EnumEntryWellFormed(EnumColumns[i])
  {
  }

  lemma EnumColumnsThirdWellFormed()
    ensures EnumEntryWellFormed(EnumColumns[2])
  {
  }

  lemma EnumColumnsFourthWellFormed()
    ensures EnumEntryWellFormed(EnumColumns[3])
  {
  }

  lemma EnumColumnsFifthWellFormed()
    ensures EnumEntryWellFormed(EnumColumns[4])
  {
  }

  lemma EnumColumnsSixthWellFormed()
    ensures EnumEntryWellFormed(EnumColumns[5])
  {
  }

  lemma EnumColumnsSeventhAndEighthWellFormed()
    ensures forall i :: 6 <= i < 8 ==> EnumEntryWellFormed(EnumColumns[i])
  {
  }

  lemma EnumColumnsNinthAndTenthWellFormed()
    ensures forall i :: 8 <= i < 10 ==> EnumEntryWellFormed(EnumColumns[i])
  {
  }

  lemma EnumColumnsEleventhWellFormed()
    ensures EnumEntryWellFormed(EnumColumns[10])
  {
  }

  lemma EnumColumnsWellFormed()
    ensures forall i :: 0 <= i < |EnumColumns| ==> EnumEntryWellFormed(EnumColumns[i])
  {
    EnumColumnsFirstTwoWellFormed();
    EnumColumnsThirdWellFormed();
    EnumColumnsFourthWellFormed();
    EnumColumnsFifthWellFormed();
    EnumColumnsSixthWellFormed();
    EnumColumnsSeventhAndEighthWellFormed();
    EnumColumnsNinthAndTenthWellFormed();
    EnumColumnsEleventhWellFormed();
  }

  /** Every boolean column name is an identifier holding an underscore. */
  lemma BooleanColumnsWellFormed()
    ensures forall i :: 0 <= i < |BooleanColumns| ==> IsIdent(BooleanColumns[i]) && '_' in BooleanColumns[i]
  {
  }

  /** The boolean columns are five different names. */
  lemma BooleanColumnsDistinct()
    ensures forall i, j :: 0 <= i < j < |BooleanColumns| ==> BooleanColumns[i] != BooleanColumns[j]
  {
  }

  /** `x` is a (not necessarily proper) suffix of `y`. */
  predicate IsSuffix(x: string, y: string) {
    |x| <= |y| && y[|y| - |x|..] == x
  }

  /** The calls of two pairs can overlap on their parentheses: same column,
      and one constructor name ends the other. */
  predicate Interferes(e1: string, c1: string, e2: string, c2: string) {
    c1 == c2 && (IsSuffix(e1, e2) || IsSuffix(e2, e1))
  }

  // Independence is checked in three ranges of the first pair, each a small
  // proof obligation; EnumColumnsIndependent joins them.

  lemma EnumColumnsHeadIndependent()
    ensures forall i, j :: 0 <= i < 3 && i < j < |EnumColumns| ==>
      !Interferes(EnumColumns[i].0, EnumColumns[i].1, EnumColumns[j].0, EnumColumns[j].1)
  {
  }

  lemma EnumColumnsMiddleIndependent()
    ensures forall i, j :: 3 <= i < 6 && i < j < |EnumColumns| ==>
      !Interferes(EnumColumns[i].0, EnumColumns[i].1, EnumColumns[j].0, EnumColumns[j].1)
  {
  }

  lemma EnumColumnsTailIndependent()
    ensures forall i, j :: 6 <= i < j < |EnumColumns| ==>
      !Interferes(EnumColumns[i].0, EnumColumns[i].1, EnumColumns[j].0, EnumColumns[j].1)
  {
  }

  /** No two pairs of the enum-column table interfere. */
  lemma EnumColumnsIndependent()
    ensures forall i, j :: 0 <= i < j < |EnumColumns| ==>
      !Interferes(EnumColumns[i].0, EnumColumns[i].1, EnumColumns[j].0, EnumColumns[j].1)
  {
    EnumColumnsHeadIndependent();
    EnumColumnsMiddleIndependent();
    EnumColumnsTailIndependent();
  }

  // ---------------------------------------------------------------------------
  // Lining up the parentheses

  /** An identifier holds no parenthesis and no quote. */
  lemma IdentDelimiters(s: string)
    requires IsIdent(s)
    ensures '(' !in s && ')' !in s && '"' !in s
  {
    assert !IsWordChar('(') && !IsWordChar(')') && !IsWordChar('"');
  }

  /** The characters of a column call, position by position. */
  lemma ColumnCallChars(callee: string, column: string)
    ensures |ColumnCall(callee, column)| == |callee| + |column| + 4
    ensures forall k :: 0 <= k < |callee| ==> ColumnCall(callee, column)[k] == callee[k]
    ensures ColumnCall(callee, column)[|callee|] == '(' && ColumnCall(callee, column)[|callee| + 1] == '"'
    ensures forall k :: 0 <= k < |column| ==> ColumnCall(callee, column)[|callee| + 2 + k] == column[k]
    ensures ColumnCall(callee, column)[|callee| + 2 + |column|] == '"'
    ensures ColumnCall(callee, column)[|callee| + 3 + |column|] == ')'
  {
    var p1 := callee + "(\"";
    var p2 := p1 + column;
    assert ColumnCall(callee, column) == p2 + "\")";
  }

  /** `t` holds a single opening parenthesis, at `q`, and right after it the
      quoted name `name`. */
  predicate QuotedAfterParen(t: string, q: nat, name: string) {
    q + 2 + |name| < |t|
    && t[q] == '(' && (forall i :: 0 <= i < |t| && i != q ==> t[i] != '(')
    && t[q + 1] == '"'
    && (forall k :: 0 <= k < |name| ==> t[q + 2 + k] == name[k])
    && t[q + 2 + |name|] == '"'
  }

  /** Two quote-free names that both sit between the same opening quote and
      a closing quote are the same name. */
  lemma SameQuotedName(t: string, q: nat, name: string, column: string)
    requires QuotedAfterParen(t, q, name) && '"' !in name && '"' !in column
    requires q + 2 + |column| < |t| && t[q + 2 + |column|] == '"'
    requires forall k :: 0 <= k < |column| ==> t[q + 2 + k] == column[k]
    ensures column == name
  {
    forall i | q + 2 <= i < q + 2 + |name| ensures t[i] != '"' {
      assert t[i] == name[i - q - 2];
      assert name[i - q - 2] in name;
    }
    forall i | q + 2 <= i < q + 2 + |column| ensures t[i] != '"' {
      assert t[i] == column[i - q - 2];
      assert column[i - q - 2] in column;
    }
    assert !(|column| < |name|);
    assert !(|name| < |column|);
    forall k | 0 <= k < |column| ensures column[k] == name[k] {
      assert column[k] == t[q + 2 + k];
    }
  }

  /** A column call found in a text with a single opening parenthesis has
      its own parenthesis on it. */
  lemma ParenAligned(callee: string, column: string, t: string, q: nat, p: nat)
    requires forall i :: 0 <= i < |t| && i != q ==> t[i] != '('
    requires p <= |t| && ColumnCall(callee, column) <= t[p..]
    ensures p + |callee| == q
  {
    ColumnCallChars(callee, column);
    assert t[p + |callee|] == t[p..][|callee|];
  }

  /** The characters of a column call found in a text, read off the text. */
  lemma CallCharsInText(callee: string, column: string, t: string, p: nat)
    requires p <= |t| && ColumnCall(callee, column) <= t[p..]
    ensures p + |callee| + 3 + |column| < |t|
    ensures forall k :: 0 <= k < |callee| ==> t[p + k] == callee[k]
    ensures forall k :: 0 <= k < |column| ==> t[p + |callee| + 2 + k] == column[k]
    ensures t[p + |callee| + 2 + |column|] == '"' && t[p + |callee| + 3 + |column|] == ')'
  {
    var pat := ColumnCall(callee, column);
    var u := t[p..];
    ColumnCallChars(callee, column);
    forall k | 0 <= k < |column| ensures t[p + |callee| + 2 + k] == column[k] {
      assert t[p + |callee| + 2 + k] == u[|callee| + 2 + k] == pat[|callee| + 2 + k];
    }
    forall k | 0 <= k < |callee| ensures t[p + k] == callee[k] {
      assert t[p + k] == u[k] == pat[k];
    }
    assert t[p + |callee| + 2 + |column|] == u[|callee| + 2 + |column|];
    assert t[p + |callee| + 3 + |column|] == u[|callee| + 3 + |column|];
  }

  /** A column call found in such a text sits with its parenthesis on the
      text's, and calls the same quoted name. */
  lemma CallAligned(callee: string, column: string, t: string, q: nat, name: string, p: nat)
    requires QuotedAfterParen(t, q, name) && '"' !in name
    requires '"' !in column
    requires p <= |t| && ColumnCall(callee, column) <= t[p..]
    ensures p + |callee| == q && column == name
    ensures forall k :: 0 <= k < |callee| ==> t[p + k] == callee[k]
    ensures q + 3 + |name| < |t| && t[q + 3 + |name|] == ')'
  {
    ParenAligned(callee, column, t, q, p);
    CallCharsInText(callee, column, t, p);
    SameQuotedName(t, q, name, column);
  }

  /** A text made of one column call between two parenthesis-free texts has
      its parenthesis and quoted name where the call puts them. */
  lemma CallTextQuoted(a: string, callee: string, column: string, b: string)
    requires '(' !in a && '(' !in callee && '(' !in column && '(' !in b
    ensures QuotedAfterParen(a + ColumnCall(callee, column) + b, |a| + |callee|, column)
    ensures forall k :: 0 <= k < |callee| ==> (a + ColumnCall(callee, column) + b)[|a| + k] == callee[k]
    ensures forall k :: 0 <= k < |a| ==> (a + ColumnCall(callee, column) + b)[k] == a[k]
  {
    var m := ColumnCall(callee, column);
    var u := a + m;
    var t := u + b;
    ColumnCallChars(callee, column);
    var q := |a| + |callee|;
    forall i | 0 <= i < |t| && i != q ensures t[i] != '(' {
      if i < |a| {
        assert t[i] == a[i];
        assert a[i] in a;
      } else if i < q {
        assert t[i] == m[i - |a|] == callee[i - |a|];
        assert callee[i - |a|] in callee;
      } else if i < q + 2 {
        assert t[i] == m[i - |a|];
      } else if i < q + 2 + |column| {
        assert t[i] == m[i - |a|] == column[i - q - 2];
        assert column[i - q - 2] in column;
      } else if i < |u| {
        assert t[i] == m[i - |a|];
      } else {
        assert t[i] == b[i - |u|];
        assert b[i - |u|] in b;
      }
    }
    forall k | 0 <= k < |column| ensures t[q + 2 + k] == column[k] {
      assert t[q + 2 + k] == m[|callee| + 2 + k];
    }
    assert t[q] == m[|callee|];
    assert t[q + 1] == m[|callee| + 1];
    assert t[q + 2 + |column|] == m[|callee| + 2 + |column|];
    forall k | 0 <= k < |callee| ensures t[|a| + k] == callee[k] {
      assert t[|a| + k] == m[k];
    }
  }

  /** A column call found in a text holding one column call overlaps it on
      the parenthesis, so the two pairs interfere. */
  lemma CallOverlap(e: string, c: string, a: string, callee: string, column: string, b: string, p: nat)
    requires '(' !in a && '(' !in callee && '(' !in column && '(' !in b && '"' !in column
    requires '"' !in c
    requires p <= |a + ColumnCall(callee, column) + b| && ColumnCall(e, c) <= (a + ColumnCall(callee, column) + b)[p..]
    ensures Interferes(e, c, callee, column)
  {
    var t := a + ColumnCall(callee, column) + b;
    CallTextQuoted(a, callee, column, b);
    CallAligned(e, c, t, |a| + |callee|, column, p);
    if |e| <= |callee| {
      forall k | 0 <= k < |e| ensures callee[|callee| - |e| + k] == e[k] {
        assert t[p + k] == e[k];
        assert t[|a| + (|callee| - |e| + k)] == callee[|callee| - |e| + k];
      }
      assert callee[|callee| - |e|..] == e;
    } else {
      forall k | 0 <= k < |callee| ensures e[|e| - |callee| + k] == callee[k] {
        assert t[p + (|e| - |callee| + k)] == e[|e| - |callee| + k];
        assert t[|a| + k] == callee[k];
      }
      assert e[|e| - |callee|..] == callee;
    }
  }

  /** Two column calls whose pairs do not interfere cannot share a
      parenthesis: the one is absent from a text holding only the other. */
  lemma CallInCall(e: string, c: string, a: string, callee: string, column: string, b: string)
    requires '(' !in a && '(' !in callee && '(' !in column && '(' !in b && '"' !in column
    requires '"' !in c
    requires !Interferes(e, c, callee, column)
    ensures !Occurs(ColumnCall(e, c), a + ColumnCall(callee, column) + b)
  {
    var t := a + ColumnCall(callee, column) + b;
    forall p | 0 <= p <= |t| ensures !(ColumnCall(e, c) <= t[p..]) {
      if ColumnCall(e, c) <= t[p..] {
        CallOverlap(e, c, a, callee, column, b, p);
      }
    }
  }

  // ---------------------------------------------------------------------------
  // The enum-column loop (lines 41-56)

  /** A constructor name ending in `m` neither ends `text` nor is ended by
      it. */
  lemma NotInterferingWithText(e: string)
    requires |e| > 0 && e[|e| - 1] == 'm'
    ensures !IsSuffix(e, "text") && !IsSuffix("text", e)
  {
    assert "text"[3] == 't';
    if |e| <= 4 {
      assert "text"[4 - |e|..][|e| - 1] == 't';
    } else {
      assert e[|e| - 4..][3] == 'm';
    }
  }

  /** Every entry of `table` is well formed. */
  predicate TableWellFormed(table: seq<(string, string)>) {
    forall i :: 0 <= i < |table| ==> EnumEntryWellFormed(table[i])
  }

  /** No two entries of `table` interfere. */
  predicate TableIndependent(table: seq<(string, string)>) {
    forall i, j :: 0 <= i < j < |table| ==> !Interferes(table[i].0, table[i].1, table[j].0, table[j].1)
  }

  /** The rules a loop over `table` applies, one per entry. */
  lemma EnumColumnRulesAt(table: seq<(string, string)>, j: nat)
    requires j < |table|
    ensures |EnumColumnRules(table)| == |table|
    ensures EnumColumnRules(table)[j]
      == Literal(ColumnCall(table[j].0, table[j].1), ColumnCall("text", table[j].1))
  {
  }

  /** The rules before an entry's own find nothing in its call. */
  lemma EarlierRulesQuiet(table: seq<(string, string)>, i: nat, a: string, b: string)
    requires i < |table| && TableWellFormed(table) && TableIndependent(table)
    requires '(' !in a && '(' !in b
    ensures ApplyRules(a + ColumnCall(table[i].0, table[i].1) + b, EnumColumnRules(table)[..i])
            == a + ColumnCall(table[i].0, table[i].1) + b
  {
    var (e, c) := table[i];
    assert EnumEntryWellFormed(table[i]);
    IdentDelimiters(e);
    IdentDelimiters(c);
    var front := EnumColumnRules(table)[..i];
    var t := a + ColumnCall(e, c) + b;
    forall j | 0 <= j < |front| ensures !Occurs(Lead(front[j]), t) {
      EnumColumnRulesAt(table, j);
      assert EnumEntryWellFormed(table[j]);
      IdentDelimiters(table[j].1);
      assert !Interferes(table[j].0, table[j].1, e, c);
      CallInCall(table[j].0, table[j].1, a, e, c, b);
    }
    ApplyRulesAbsent(t, front);
  }

  /** The rules after an entry's own find nothing in the rewritten call. */
  lemma LaterRulesQuiet(table: seq<(string, string)>, i: nat, a: string, b: string)
    requires i < |table| && TableWellFormed(table)
    requires '(' !in a && '(' !in b
    ensures ApplyRules(a + ColumnCall("text", table[i].1) + b, EnumColumnRules(table)[i + 1..])
            == a + ColumnCall("text", table[i].1) + b
  {
    EnumColumnRulesAt(table, i);
    LaterLeadsAbsent(table, i, a, b);
    ApplyRulesAbsentAfter(a + ColumnCall("text", table[i].1) + b, EnumColumnRules(table), i);
  }

  lemma LaterLeadsAbsent(table: seq<(string, string)>, i: nat, a: string, b: string)
    requires i < |table| && TableWellFormed(table)
    requires '(' !in a && '(' !in b
    ensures |EnumColumnRules(table)| == |table|
    ensures forall k :: i < k < |table| ==>
              !Occurs(Lead(EnumColumnRules(table)[k]), a + ColumnCall("text", table[i].1) + b)
  {
    EnumColumnRulesAt(table, i);
    forall k | i < k < |table| ensures !Occurs(Lead(EnumColumnRules(table)[k]), a + ColumnCall("text", table[i].1) + b) {
      LaterRuleQuiet(table, i, k, a, b);
    }
  }

  /** The rule of entry `k` finds nothing in the text call of entry `i`. */
  lemma LaterRuleQuiet(table: seq<(string, string)>, i: nat, k: nat, a: string, b: string)
    requires i < |table| && k < |table| && TableWellFormed(table)
    requires '(' !in a && '(' !in b
    ensures !Occurs(Lead(EnumColumnRules(table)[k]), a + ColumnCall("text", table[i].1) + b)
  {
    assert EnumEntryWellFormed(table[i]);
    assert EnumEntryWellFormed(table[k]);
    IdentDelimiters(table[i].1);
    EnumColumnRulesAt(table, k);
    EntryMissesTextCall(table[k], a, table[i].1, b);
  }

  /** No entry's call occurs in a text call with no other parenthesis. */
  lemma EntryMissesTextCall(entry: (string, string), a: string, c: string, b: string)
    requires EnumEntryWellFormed(entry)
    requires '(' !in a && '(' !in c && '"' !in c && '(' !in b
    ensures !Occurs(ColumnCall(entry.0, entry.1), a + ColumnCall("text", c) + b)
  {
    IdentDelimiters(entry.1);
    IdentDelimiters("text");
    NotInterferingWithText(entry.0);
    CallInCall(entry.0, entry.1, a, "text", c, b);
  }

  /** For a well-formed table of pairwise independent entries, the loop turns
      the call of an entry, in a text with no other parenthesis, into a text
      call, and changes nothing else. */
  lemma ListedCallRewritten(table: seq<(string, string)>, i: nat, a: string, b: string)
    requires i < |table| && TableWellFormed(table) && TableIndependent(table)
    requires '(' !in a && '(' !in b
    ensures ApplyRules(a + ColumnCall(table[i].0, table[i].1) + b, EnumColumnRules(table))
            == a + ColumnCall("text", table[i].1) + b
  {
    EnumColumnRulesAt(table, i);
    EarlierRulesQuiet(table, i, a, b);
    assert EnumEntryWellFormed(table[i]);
    OwnCallRewritten(table[i].0, table[i].1, ColumnCall("text", table[i].1), a, b);
    LaterRulesQuiet(table, i, a, b);
    ApplyRulesAround(a + ColumnCall(table[i].0, table[i].1) + b, EnumColumnRules(table), i, a + ColumnCall("text", table[i].1) + b);
  }

  /** A call `<enumName>("<column>")` of a listed pair, in a text with no other
      parenthesis, becomes `text("<column>")`, and nothing else changes. */
  lemma ListedPairRewritten(i: nat, a: string, b: string)
    requires i < |EnumColumns| && '(' !in a && '(' !in b
    ensures EnumColumnStage(a + ColumnCall(EnumColumns[i].0, EnumColumns[i].1) + b)
            == a + ColumnCall("text", EnumColumns[i].1) + b
  {
    EnumColumnsWellFormed();
    EnumColumnsIndependent();
    ListedCallRewritten(EnumColumns, i, a, b);
  }

  /** A call whose pair interferes with no entry of the table, in a text with
      no other parenthesis, passes the loop unchanged. */
  lemma UnlistedCallUnchanged(table: seq<(string, string)>, e: string, c: string, a: string, b: string)
    requires TableWellFormed(table) && IsIdent(e) && IsIdent(c)
    requires forall j :: 0 <= j < |table| ==> !Interferes(table[j].0, table[j].1, e, c)
    requires '(' !in a && '(' !in b
    ensures ApplyRules(a + ColumnCall(e, c) + b, EnumColumnRules(table)) == a + ColumnCall(e, c) + b
  {
    IdentDelimiters(e);
    IdentDelimiters(c);
    var rules := EnumColumnRules(table);
    var t := a + ColumnCall(e, c) + b;
    forall j | 0 <= j < |rules| ensures !Occurs(Lead(rules[j]), t) {
      EnumColumnRulesAt(table, j);
      assert EnumEntryWellFormed(table[j]);
      IdentDelimiters(table[j].1);
      CallInCall(table[j].0, table[j].1, a, e, c, b);
    }
    ApplyRulesAbsent(t, rules);
  }

  /** No listed pair has the column `other`. */
  lemma NoColumnOther()
    ensures forall j :: 0 <= j < |EnumColumns| ==> EnumColumns[j].1 != "other"
  {
  }

  /** `statusEnum("other")` is not a listed pair (the `statusEnum` entry is
      for the column `status`), so the loop leaves it unchanged. */
  lemma StatusEnumOtherUnchanged(a: string, b: string)
    requires '(' !in a && '(' !in b
    ensures EnumColumnStage(a + ColumnCall("statusEnum", "other") + b) == a + ColumnCall("statusEnum", "other") + b
  {
    EnumColumnsWellFormed();
    NoColumnOther();
    assert IsIdent("statusEnum") && IsIdent("other");
    UnlistedCallUnchanged(EnumColumns, "statusEnum", "other", a, b);
  }

  /** The rules match text, not identifiers: in `mystatusEnum("status")` the
      listed call `statusEnum("status")` is found after `my`, giving
      `mytext("status")`. */
  lemma LongerConstructorRewritten()
    ensures EnumColumnStage("my" + ColumnCall("statusEnum", "status"))
            == "my" + ColumnCall("text", "status")
  {
    assert EnumColumns[0] == ("statusEnum", "status");
    ListedPairRewritten(0, "my", "");
    assert "my" + ColumnCall("statusEnum", "status") + "" == "my" + ColumnCall("statusEnum", "status");
    assert "my" + ColumnCall("text", "status") + "" == "my" + ColumnCall("text", "status");
  }

  /** A column call closes its one `)` at its very end. */
  lemma ColumnCallOneClose(callee: string, column: string)
    requires IsIdent(callee) && IsIdent(column)
    ensures forall i :: 0 <= i < |ColumnCall(callee, column)| - 1 ==> ColumnCall(callee, column)[i] != ')'
  {
    var x := ColumnCall(callee, column);
    ColumnCallChars(callee, column);
    IdentDelimiters(callee);
    IdentDelimiters(column);
    forall i | 0 <= i < |x| - 1 ensures x[i] != ')' {
      if i < |callee| {
        assert callee[i] in callee;
      } else if |callee| + 2 <= i < |callee| + 2 + |column| {
        assert column[i - |callee| - 2] in column;
      }
    }
  }

  /** No suffix of the call `x` of one pair lines up with the call `y` of a
      pair it does not interfere with: a long suffix would hold `y`, and a
      short one ends with a `)` where `y` has none. */
  lemma CallsSeparate(f: string, d: string, e: string, c: string)
    requires IsIdent(f) && IsIdent(d) && IsIdent(e) && IsIdent(c)
    requires !Interferes(e, c, f, d)
    ensures forall k :: 0 <= k < |ColumnCall(f, d)| ==> !Compatible(ColumnCall(f, d)[k..], ColumnCall(e, c))
  {
    var x := ColumnCall(f, d);
    var y := ColumnCall(e, c);
    IdentDelimiters(f);
    IdentDelimiters(d);
    IdentDelimiters(c);
    CallInCall(e, c, [], f, d, []);
    assert [] + x + [] == x;
    ColumnCallChars(f, d);
    ColumnCallChars(e, c);
    ColumnCallOneClose(e, c);
    forall k | 0 <= k < |x| ensures !Compatible(x[k..], y) {
      var u := x[k..];
      if |u| < |y| {
        assert u[|u| - 1] == ')' && y[|u| - 1] != ')';
      } else {
        assert !(y <= x[k..]);
      }
    }
  }

  /** No enum replacement can be cut into an enum pattern, and no pattern can
      start inside a replacement: `text` and a constructor name ending in `m`
      never end one another. */
  lemma EnumRulesSeparate(e: string, c: string, d: string)
    requires EnumEntryWellFormed((e, c)) && IsIdent(d)
    ensures NoSuffixCompatible(ColumnCall("text", d), ColumnCall(e, c))
    ensures NoSuffixCompatible(ColumnCall(e, c)[1..], ColumnCall("text", d))
  {
    var pat := ColumnCall(e, c);
    NotInterferingWithText(e);
    assert IsIdent("text");
    CallsSeparate("text", d, e, c);
    CallsSeparate(e, c, "text", d);
    forall k | 0 <= k < |pat[1..]| ensures !Compatible(pat[1..][k..], ColumnCall("text", d)) {
      assert pat[1..][k..] == pat[k + 1..];
    }
  }

  /** One enum rule leaves no call of its own pair, and brings back no call
      of a pair already cleared. */
  lemma EnumPairStaysClear(e: string, c: string, f: string, d: string, prev: string)
    requires EnumEntryWellFormed((e, c)) && EnumEntryWellFormed((f, d))
    requires (e, c) == (f, d) || !Occurs(ColumnCall(e, c), prev)
    ensures !Occurs(ColumnCall(e, c), SubstituteAll(EnumColumnRule(f, d), prev))
  {
    ColumnCallChars(e, c);
    ColumnCallChars(f, d);
    EnumRulesSeparate(e, c, d);
    AbsentAfter(ColumnCall(f, d), ColumnCall("text", d), ColumnCall(e, c), prev);
  }

  /** After the first `n` iterations of the enum loop over a well-formed
      table, no call of those `n` pairs is left in the text. */
  lemma {:induction false} EnumRulesClear(table: seq<(string, string)>, s: string, n: nat)
    requires n <= |table| && TableWellFormed(table)
    ensures forall i :: 0 <= i < n ==>
      !Occurs(ColumnCall(table[i].0, table[i].1), ApplyRules(s, EnumColumnRules(table)[..n]))
  {
    var rules := EnumColumnRules(table);
    if n > 0 {
      EnumRulesClear(table, s, n - 1);
      var prev := ApplyRules(s, rules[..n - 1]);
      var last := table[n - 1];
      EnumColumnRulesAt(table, n - 1);
      ApplyRulesPrefixStep(s, rules, n);
      assert EnumEntryWellFormed(last);
      forall i | 0 <= i < n ensures !Occurs(ColumnCall(table[i].0, table[i].1), SubstituteAll(EnumColumnRule(last.0, last.1), prev)) {
        assert EnumEntryWellFormed(table[i]);
        EnumPairStaysClear(table[i].0, table[i].1, last.0, last.1, prev);
      }
    }
  }

  /** Running the enum loop of lines 55-56 a second time changes nothing:
      after the first run no listed `<enum>("<column>")` call is left. */
  lemma EnumStageIdempotent(s: string)
    ensures EnumColumnStage(EnumColumnStage(s)) == EnumColumnStage(s)
  {
    var rules := EnumColumnRules(EnumColumns);
    EnumColumnsWellFormed();
    EnumRulesClear(EnumColumns, s, |EnumColumns|);
    assert rules[..|EnumColumns|] == rules;
    forall i | 0 <= i < |rules| ensures !Occurs(Lead(rules[i]), EnumColumnStage(s)) {
      EnumColumnRulesAt(EnumColumns, i);
    }
    ApplyRulesAbsent(EnumColumnStage(s), rules);
  }
  // ---------------------------------------------------------------------------
  // The boolean-column loop (lines 66-75)

  /** The characters of an options call, position by position. */
  lemma OptionsCallChars(callee: string, column: string, options: string)
    ensures |OptionsCall(callee, column, options)| == |callee| + |column| + |options| + 5
    ensures forall k :: 0 <= k < |callee| ==> OptionsCall(callee, column, options)[k] == callee[k]
    ensures OptionsCall(callee, column, options)[|callee|] == '('
    ensures OptionsCall(callee, column, options)[|callee| + 1] == '"'
    ensures forall k :: 0 <= k < |column| ==> OptionsCall(callee, column, options)[|callee| + 2 + k] == column[k]
    ensures OptionsCall(callee, column, options)[|callee| + 2 + |column|] == '"'
    ensures OptionsCall(callee, column, options)[|callee| + 3 + |column|] == ','
    ensures forall k :: 0 <= k < |options| ==> OptionsCall(callee, column, options)[|callee| + 4 + |column| + k] == options[k]
    ensures OptionsCall(callee, column, options)[|callee| + 4 + |column| + |options|] == ')'
  {
    var p1 := callee + "(\"";
    var p2 := p1 + column;
    var p3 := p2 + "\",";
    var p4 := p3 + options;
    assert OptionsCall(callee, column, options) == p4 + ")";
  }

  /** A text made of one options call between two parenthesis-free texts has
      its parenthesis and quoted name where the call puts them, and a comma
      after the name. */
  lemma OptionsTextQuoted(a: string, callee: string, column: string, options: string, b: string)
    requires '(' !in a && '(' !in callee && '(' !in column && '(' !in options && '(' !in b
    ensures QuotedAfterParen(a + OptionsCall(callee, column, options) + b, |a| + |callee|, column)
    ensures (a + OptionsCall(callee, column, options) + b)[|a| + |callee| + 3 + |column|] == ','
  {
    var m := OptionsCall(callee, column, options);
    var u := a + m;
    var t := u + b;
    OptionsCallChars(callee, column, options);
    var q := |a| + |callee|;
    forall i | 0 <= i < |t| && i != q ensures t[i] != '(' {
      if i < |a| {
        assert t[i] == a[i];
        assert a[i] in a;
      } else if i < q {
        assert t[i] == m[i - |a|] == callee[i - |a|];
        assert callee[i - |a|] in callee;
      } else if i < q + 2 {
        assert t[i] == m[i - |a|];
      } else if i < q + 2 + |column| {
        assert t[i] == m[i - |a|] == column[i - q - 2];
        assert column[i - q - 2] in column;
      } else if i < q + 4 + |column| {
        assert t[i] == m[i - |a|];
      } else if i < q + 4 + |column| + |options| {
        assert t[i] == m[i - |a|] == options[i - q - 4 - |column|];
        assert options[i - q - 4 - |column|] in options;
      } else if i < |u| {
        assert t[i] == m[i - |a|];
      } else {
        assert t[i] == b[i - |u|];
        assert b[i - |u|] in b;
      }
    }
    forall k | 0 <= k < |column| ensures t[q + 2 + k] == column[k] {
      assert t[q + 2 + k] == m[|callee| + 2 + k];
    }
    assert t[q] == m[|callee|];
    assert t[q + 1] == m[|callee| + 1];
    assert t[q + 2 + |column|] == m[|callee| + 2 + |column|];
    assert t[q + 3 + |column|] == m[|callee| + 3 + |column|];
  }

  /** A column call cannot be found in a text whose quoted name is followed
      by a comma, not by the closing parenthesis. */
  lemma NoCallBeforeComma(e: string, c: string, t: string, q: nat, name: string)
    requires QuotedAfterParen(t, q, name) && '"' !in name && '"' !in c
    requires q + 3 + |name| < |t| && t[q + 3 + |name|] == ','
    ensures !Occurs(ColumnCall(e, c), t)
  {
    forall p: nat | p <= |t| ensures !(ColumnCall(e, c) <= t[p..]) {
      if ColumnCall(e, c) <= t[p..] {
        CallAligned(e, c, t, q, name, p);
      }
    }
  }

  /** A column call cannot be found in a text whose only call already has an
      options argument. */
  lemma CallNotInOptionsCall(e: string, c: string, a: string, callee: string, column: string, options: string, b: string)
    requires '(' !in a && '(' !in callee && '(' !in column && '(' !in options && '(' !in b
    requires '"' !in column && '"' !in c
    ensures !Occurs(ColumnCall(e, c), a + OptionsCall(callee, column, options) + b)
  {
    OptionsTextQuoted(a, callee, column, options, b);
    NoCallBeforeComma(e, c, a + OptionsCall(callee, column, options) + b, |a| + |callee|, column);
  }

  /** The suffixes of `x` past its first character are told from `y` by the
      parenthesis `y` holds at index 7 and the closing parenthesis `x` ends
      with, which `y` lacks before index 7. */
  lemma LateSuffixesIncompatible(x: string, y: string)
    requires 7 < |y| && y[7] == '(' && (forall k :: 0 <= k < 7 ==> y[k] != ')')
    requires 0 < |x| && x[|x| - 1] == ')' && (forall i :: 7 < i < |x| ==> x[i] != '(')
    ensures forall k :: 1 <= k < |x| ==> !Compatible(x[k..], y)
  {
    forall k | 1 <= k < |x| ensures !Compatible(x[k..], y) {
      if |x| - k > 7 {
        assert x[k..][7] == x[k + 7];
      } else {
        assert x[k..][|x| - k - 1] == ')';
      }
    }
  }

  lemma BooleanModeNoParen()
    ensures '(' !in BooleanMode
  {
  }

  /** The parenthesis facts of a boolean rule's pattern and replacement. */
  lemma BooleanRuleParens(c: string)
    requires IsIdent(c)
    ensures BooleanCall(c)[7] == '(' && (forall k :: 0 <= k < 7 ==> BooleanCall(c)[k] != ')')
    ensures BooleanModeCall(c)[7] == '(' && (forall k :: 0 <= k < 7 ==> BooleanModeCall(c)[k] != ')')
    ensures BooleanCall(c)[|BooleanCall(c)| - 1] == ')' && (forall i :: 7 < i < |BooleanCall(c)| ==> BooleanCall(c)[i] != '(')
    ensures BooleanModeCall(c)[|BooleanModeCall(c)| - 1] == ')' && (forall i :: 7 < i < |BooleanModeCall(c)| ==> BooleanModeCall(c)[i] != '(')
  {
    BooleanCallParens(c);
    BooleanModeCallParens(c);
  }

  lemma BooleanCallParens(c: string)
    requires IsIdent(c)
    ensures BooleanCall(c)[7] == '(' && (forall k :: 0 <= k < 7 ==> BooleanCall(c)[k] != ')')
    ensures BooleanCall(c)[|BooleanCall(c)| - 1] == ')' && (forall i :: 7 < i < |BooleanCall(c)| ==> BooleanCall(c)[i] != '(')
  {
    IdentDelimiters(c);
    IdentDelimiters("integer");
    ColumnCallChars("integer", c);
    CallTextQuoted([], "integer", c, []);
    assert [] + BooleanCall(c) + [] == BooleanCall(c);
  }

  lemma BooleanModeCallParens(c: string)
    requires IsIdent(c)
    ensures BooleanModeCall(c)[7] == '(' && (forall k :: 0 <= k < 7 ==> BooleanModeCall(c)[k] != ')')
    ensures BooleanModeCall(c)[|BooleanModeCall(c)| - 1] == ')' && (forall i :: 7 < i < |BooleanModeCall(c)| ==> BooleanModeCall(c)[i] != '(')
  {
    IdentDelimiters(c);
    IdentDelimiters("integer");
    OptionsCallChars("integer", c, BooleanMode);
    BooleanModeNoParen();
    OptionsTextQuoted([], "integer", c, BooleanMode, []);
    assert [] + BooleanModeCall(c) + [] == BooleanModeCall(c);
  }

  /** No boolean replacement can be cut into a boolean pattern, and no
      pattern can start inside a replacement: the parentheses never line up,
      and where they do the names' closing quotes disagree. */
  lemma BooleanRulesSeparate(c: string, d: string)
    requires IsIdent(c) && IsIdent(d)
    ensures NoSuffixCompatible(BooleanModeCall(d), BooleanCall(c))
    ensures NoSuffixCompatible(BooleanCall(c)[1..], BooleanModeCall(d))
  {
    var pat := BooleanCall(c);
    var rep := BooleanModeCall(d);
    BooleanRuleParens(c);
    BooleanRuleParens(d);
    IdentDelimiters(c);
    IdentDelimiters(d);
    IdentDelimiters("integer");
    BooleanModeNoParen();
    CallNotInOptionsCall("integer", c, [], "integer", d, BooleanMode, []);
    assert [] + rep + [] == rep;
    assert rep[0..] == rep;
    ColumnCallChars("integer", c);
    OptionsCallChars("integer", d, BooleanMode);
    assert !Compatible(rep[0..], pat);
    LateSuffixesIncompatible(rep, pat);
    LateSuffixesIncompatible(pat, rep);
    forall k | 0 <= k < |pat[1..]| ensures !Compatible(pat[1..][k..], rep) {
      assert pat[1..][k..] == pat[k + 1..];
    }
  }

  /** The patterns and replacements of a column list's boolean rules. */
  lemma BooleanModeRulesAt(columns: seq<string>, j: nat)
    requires j < |columns|
    ensures |BooleanModeRules(columns)| == |columns|
    ensures BooleanModeRules(columns)[j] == Literal(BooleanCall(columns[j]), BooleanModeCall(columns[j]))
  {
  }

  /** After the first `n` boolean rules of a list of identifiers, none of
      their patterns is left in the text. */
  lemma {:induction false} BooleanRulesClear(columns: seq<string>, s: string, n: nat)
    requires n <= |columns| && forall j :: 0 <= j < |columns| ==> IsIdent(columns[j])
    ensures forall i :: 0 <= i < n ==> !Occurs(BooleanCall(columns[i]), ApplyRules(s, BooleanModeRules(columns)[..n]))
  {
    var rules := BooleanModeRules(columns);
    if n > 0 {
      BooleanRulesClear(columns, s, n - 1);
      var prev := ApplyRules(s, rules[..n - 1]);
      var d := columns[n - 1];
      BooleanModeRulesAt(columns, n - 1);
      ApplyRulesPrefixStep(s, rules, n);
      var cur := SubstituteAll(Literal(BooleanCall(d), BooleanModeCall(d)), prev);
      forall i | 0 <= i < n ensures !Occurs(BooleanCall(columns[i]), cur) {
        BooleanColumnStaysClear(columns[i], d, prev);
      }
    }
  }

  /** One boolean rule leaves no call of its own column behind, and brings
      back no call of a column already cleared. */
  lemma BooleanColumnStaysClear(c: string, d: string, prev: string)
    requires IsIdent(c) && IsIdent(d)
    requires c == d || !Occurs(BooleanCall(c), prev)
    ensures !Occurs(BooleanCall(c), SubstituteAll(Literal(BooleanCall(d), BooleanModeCall(d)), prev))
  {
    ColumnCallChars("integer", c);
    ColumnCallChars("integer", d);
    BooleanRulesSeparate(c, d);
    AbsentAfter(BooleanCall(d), BooleanModeCall(d), BooleanCall(c), prev);
  }

  /** Running the boolean loop of lines 74-75 a second time changes nothing:
      after the first run no listed `integer("<column>")` call is left. */
  lemma BooleanStageIdempotent(s: string)
    ensures BooleanStage(BooleanStage(s)) == BooleanStage(s)
  {
    var rules := BooleanModeRules(BooleanColumns);
    BooleanColumnsWellFormed();
    BooleanRulesClear(BooleanColumns, s, |BooleanColumns|);
    assert rules[..|BooleanColumns|] == rules;
    forall i | 0 <= i < |rules| ensures !Occurs(Lead(rules[i]), BooleanStage(s)) {
      BooleanModeRulesAt(BooleanColumns, i);
    }
    ApplyRulesAbsent(BooleanStage(s), rules);
  }

  /** The rule of a column rewrites that column's call, the only call in a
      text with no other parenthesis, into `rep`. */
  lemma OwnCallRewritten(e: string, c: string, rep: string, a: string, b: string)
    requires IsIdent(e) && IsIdent(c) && '(' !in a && '(' !in b
    ensures SubstituteAll(Literal(ColumnCall(e, c), rep), a + ColumnCall(e, c) + b) == a + rep + b
  {
    IdentDelimiters(e);
    IdentDelimiters(c);
    var m := ColumnCall(e, c);
    var r := Literal(m, rep);
    var t := a + m + b;
    assert t == a + (m + b);
    CallTextQuoted(a, e, c, b);
    var q: nat := |a| + |e|;
    forall p: nat | p < |a| ensures MatchAt(r, t[p..]).None? {
      if m <= t[p..] {
        CallAligned(e, c, t, q, c, p);
      }
    }
    ColumnCallChars(e, c);
    AbsentByChar(m, b, |e|);
    ReplaceUnique(r, a, m, b, rep);
    assert a + (rep + b) == a + rep + b;
  }

  /** The boolean rules before a column's own find nothing in its call. */
  lemma EarlierBooleanRulesQuiet(columns: seq<string>, i: nat, a: string, b: string)
    requires i < |columns| && forall j :: 0 <= j < |columns| ==> IsIdent(columns[j])
    requires forall j, k :: 0 <= j < k < |columns| ==> columns[j] != columns[k]
    requires '(' !in a && '(' !in b
    ensures ApplyRules(a + BooleanCall(columns[i]) + b, BooleanModeRules(columns)[..i]) == a + BooleanCall(columns[i]) + b
  {
    var c := columns[i];
    var t := a + BooleanCall(c) + b;
    IdentDelimiters(c);
    IdentDelimiters("integer");
    var front := BooleanModeRules(columns)[..i];
    forall j | 0 <= j < |front| ensures !Occurs(Lead(front[j]), t) {
      BooleanModeRulesAt(columns, j);
      IdentDelimiters(columns[j]);
      assert columns[j] != c;
      CallInCall("integer", columns[j], a, "integer", c, b);
    }
    ApplyRulesAbsent(t, front);
  }

  /** No boolean pattern can be found in a text whose only call is an
      annotated one. */
  lemma BooleanCallNotInModeCall(c: string, d: string, a: string, b: string)
    requires IsIdent(c) && IsIdent(d) && '(' !in a && '(' !in b
    ensures !Occurs(BooleanCall(c), a + BooleanModeCall(d) + b)
  {
    IdentDelimiters(c);
    IdentDelimiters(d);
    IdentDelimiters("integer");
    BooleanModeNoParen();
    CallNotInOptionsCall("integer", c, a, "integer", d, BooleanMode, b);
  }

  /** The boolean rules after a column's own find nothing in the annotated
      call. */
  lemma LaterBooleanRulesQuiet(columns: seq<string>, i: nat, a: string, b: string)
    requires i < |columns| && forall j :: 0 <= j < |columns| ==> IsIdent(columns[j])
    requires '(' !in a && '(' !in b
    ensures ApplyRules(a + BooleanModeCall(columns[i]) + b, BooleanModeRules(columns)[i + 1..])
            == a + BooleanModeCall(columns[i]) + b
  {
    var t := a + BooleanModeCall(columns[i]) + b;
    var back := BooleanModeRules(columns)[i + 1..];
    forall j | 0 <= j < |back| ensures !Occurs(Lead(back[j]), t) {
      BooleanModeRulesAt(columns, i + 1 + j);
      BooleanCallNotInModeCall(columns[i + 1 + j], columns[i], a, b);
    }
    ApplyRulesAbsent(t, back);
  }

  /** For a list of distinct identifiers, the loop turns the call
      `integer("<column>")` of a listed column, in a text with no other
      parenthesis, into `integer("<column>", { mode: "boolean" })`, and
      changes nothing else. */
  lemma ListedColumnAnnotated(columns: seq<string>, i: nat, a: string, b: string)
    requires i < |columns| && forall j :: 0 <= j < |columns| ==> IsIdent(columns[j])
    requires forall j, k :: 0 <= j < k < |columns| ==> columns[j] != columns[k]
    requires '(' !in a && '(' !in b
    ensures ApplyRules(a + BooleanCall(columns[i]) + b, BooleanModeRules(columns)) == a + BooleanModeCall(columns[i]) + b
  {
    BooleanModeRulesAt(columns, i);
    EarlierBooleanRulesQuiet(columns, i, a, b);
    assert IsIdent("integer");
    OwnCallRewritten("integer", columns[i], BooleanModeCall(columns[i]), a, b);
    LaterBooleanRulesQuiet(columns, i, a, b);
    ApplyRulesAround(a + BooleanCall(columns[i]) + b, BooleanModeRules(columns), i, a + BooleanModeCall(columns[i]) + b);
  }

  /** Lines 74-75 add `, { mode: "boolean" }` to the call of each of the five
      columns. */
  lemma BooleanColumnAnnotated(i: nat, a: string, b: string)
    requires i < |BooleanColumns| && '(' !in a && '(' !in b
    ensures BooleanStage(a + BooleanCall(BooleanColumns[i]) + b) == a + BooleanModeCall(BooleanColumns[i]) + b
  {
    BooleanColumnsWellFormed();
    BooleanColumnsDistinct();
    ListedColumnAnnotated(BooleanColumns, i, a, b);
  }

  /** A call that already carries an options argument,
      `integer("<column>",<options>)`, is left as it is, whatever its column
      and options. */
  lemma OptionsCallUnchanged(column: string, options: string, a: string, b: string)
    requires '(' !in column && '"' !in column && '(' !in options && '(' !in a && '(' !in b
    ensures BooleanStage(a + OptionsCall("integer", column, options) + b) == a + OptionsCall("integer", column, options) + b
  {
    var rules := BooleanModeRules(BooleanColumns);
    var t := a + OptionsCall("integer", column, options) + b;
    BooleanColumnsWellFormed();
    IdentDelimiters("integer");
    forall j | 0 <= j < |rules| ensures !Occurs(Lead(rules[j]), t) {
      BooleanModeRulesAt(BooleanColumns, j);
      IdentDelimiters(BooleanColumns[j]);
      CallNotInOptionsCall("integer", BooleanColumns[j], a, "integer", column, options, b);
    }
    ApplyRulesAbsent(t, rules);
  }
}
