/** Applying one rule to a whole text, the way Python's `re.sub` and
    `str.replace` do, and the facts about that scan the conversion relies on. */
module Rewrite {
  import opened Text
  import opened Patterns

  /** `re.sub(pattern, repl, s)` (and `s.replace(pat, rep)`) for a pattern that
      never matches the empty text: at the scan position, a match is replaced
      and the scan resumes after it; otherwise one character is kept and the
      scan moves on by one. Matches therefore never overlap, and the leftmost
      one wins. */
  function SubstituteAll(r: Rule, s: string): string
    decreases |s|
  {
    if s == [] then []
    else
      match MatchAt(r, s)
      case Some(h) => h.rep + SubstituteAll(r, s[h.len..])
      case None => [s[0]] + SubstituteAll(r, s[1..])
  }

  /** No match of `r` starts at any of the first `n` positions of `s`. */
  ghost predicate QuietBefore(r: Rule, s: string, n: nat)
    requires n <= |s|
  {
    forall j :: 0 <= j < n ==> MatchAt(r, s[j..]).None?
  }

  /** A prefix where no match starts is copied unchanged, and the scan then
      carries on in the rest of the text as if the prefix were absent. */
  lemma {:induction false} SubstituteQuietPrefix(r: Rule, a: string, b: string)
    requires QuietBefore(r, a + b, |a|)
    ensures SubstituteAll(r, a + b) == a + SubstituteAll(r, b)
    decreases |a|
  {
    if a != [] {
      var s := a + b;
      assert s[0..] == s;
      assert MatchAt(r, s).None?;
      assert s[1..] == a[1..] + b;
      forall j | 0 <= j < |a| - 1 ensures MatchAt(r, (a[1..] + b)[j..]).None? {
        assert (a[1..] + b)[j..] == s[j + 1..];
      }
      SubstituteQuietPrefix(r, a[1..], b);
      var tail := SubstituteAll(r, b);
      assert SubstituteAll(r, s) == [a[0]] + (a[1..] + tail);
      assert a == [a[0]] + a[1..];
      assert ([a[0]] + a[1..]) + tail == [a[0]] + (a[1..] + tail);
    } else {
      assert a + b == b;
    }
  }

  /** A text in which no match starts is left as it is. */
  lemma SubstituteIdentity(r: Rule, s: string)
    requires QuietBefore(r, s, |s|)
    ensures SubstituteAll(r, s) == s
  {
    assert s + [] == s;
    SubstituteQuietPrefix(r, s, []);
  }

  /** A rule whose leading text does not appear in `s` leaves `s` as it is. */
  lemma SubstituteWithoutLead(r: Rule, s: string)
    requires !Occurs(Lead(r), s)
    ensures SubstituteAll(r, s) == s
  {
    forall j | 0 <= j < |s| ensures MatchAt(r, s[j..]).None? {
      assert j <= |s|;
    }
    SubstituteIdentity(r, s);
  }

  /** A match at the start is replaced and the scan resumes right after it. */
  lemma ReplaceAtStart(r: Rule, m: string, b: string, rep: string)
    requires MatchAt(r, m + b) == Some(Hit(|m|, rep))
    ensures SubstituteAll(r, m + b) == rep + SubstituteAll(r, b)
  {
    assert (m + b)[|m|..] == b;
  }

  /** A match that covers the whole text replaces all of it. */
  lemma ReplaceWhole(r: Rule, s: string, rep: string)
    requires MatchAt(r, s) == Some(Hit(|s|, rep))
    ensures SubstituteAll(r, s) == rep
  {
    assert s[|s|..] == [];
    assert rep + [] == rep;
  }

  /** A match at the start, followed by a rest without the leading text, is
      the only change. */
  lemma ReplaceThenCopy(r: Rule, m: string, b: string, rep: string)
    requires MatchAt(r, m + b) == Some(Hit(|m|, rep))
    requires !Occurs(Lead(r), b)
    ensures SubstituteAll(r, m + b) == rep + b
  {
    ReplaceAtStart(r, m, b, rep);
    SubstituteWithoutLead(r, b);
  }

  /** A match found after a quiet prefix is replaced, and a rest that does not
      hold the leading text again is copied: the single occurrence is the only
      change. */
  lemma ReplaceUnique(r: Rule, a: string, m: string, b: string, rep: string)
    requires QuietBefore(r, a + (m + b), |a|)
    requires MatchAt(r, m + b) == Some(Hit(|m|, rep))
    requires !Occurs(Lead(r), b)
    ensures SubstituteAll(r, a + (m + b)) == a + (rep + b)
  {
    SubstituteQuietPrefix(r, a, m + b);
    ReplaceThenCopy(r, m, b, rep);
  }

  /** No suffix of `a` is compatible with `b`: a text that starts inside `a`
      and runs on past it never begins with `b`, and `b` never begins inside
      `a`. */
  predicate NoSuffixCompatible(a: string, b: string) {
    forall k :: 0 <= k < |a| ==> !Compatible(a[k..], b)
  }

  /** Two characters are enough to tell the suffixes of `a` from `b` when
      every position of `a` holding the first character of `b` is followed by
      a character other than the second. */
  lemma NoSuffixCompatibleByChars(a: string, b: string)
    requires |b| >= 2
    requires forall k :: 0 <= k < |a| && a[k] == b[0] ==> k + 1 < |a| && a[k + 1] != b[1]
    ensures NoSuffixCompatible(a, b)
  {
    forall k | 0 <= k < |a| ensures !Compatible(a[k..], b) {
      if a[k] == b[0] {
        assert a[k..][1] != b[1];
      } else {
        assert a[k..][0] != b[0];
      }
    }
  }

  /** When the first character of `b` appears in `a` only at its start, the
      suffixes of `a` are told from `b` by one differing position `d`. */
  lemma NoSuffixCompatibleAt(a: string, b: string, d: nat)
    requires 0 < |b| && d < |a| && d < |b| && a[d] != b[d]
    requires b[0] !in a[1..]
    ensures NoSuffixCompatible(a, b)
  {
    forall k | 0 <= k < |a| ensures !Compatible(a[k..], b) {
      if k == 0 {
        assert a[0..] == a;
      } else {
        assert a[k] in a[1..];
        assert a[k..][0] != b[0];
      }
    }
  }

  /** When the replacement cannot start inside `w`, an output that begins with
      `w` was copied from an input that begins with `w`. */
  lemma {:induction false} CopiedPrefix(pat: string, rep: string, x: string, w: string)
    requires |pat| > 0
    requires NoSuffixCompatible(w, rep)
    requires w <= SubstituteAll(Literal(pat, rep), x)
    ensures w <= x
    decreases |x|
  {
    var r := Literal(pat, rep);
    if w != [] && x != [] {
      assert w[0..] == w;
      assert !Compatible(w, rep);
      if MatchAt(r, x).Some? {
        PrefixOfJoin(w, rep, SubstituteAll(r, x[|pat|..]));
        assert false;
      } else {
        var rest := SubstituteAll(r, x[1..]);
        assert SubstituteAll(r, x) == [x[0]] + rest;
        PrefixOfJoin(w, [x[0]], rest);
        forall k | 0 <= k < |w[1..]| ensures !Compatible(w[1..][k..], rep) {
          assert w[1..][k..] == w[k + 1..];
        }
        CopiedPrefix(pat, rep, x[1..], w[1..]);
        assert w == [w[0]] + w[1..];
      }
    }
  }

  /** A literal replacement leaves no occurrence of `pat` behind, provided
      every occurrence of `pat` in the input is also a match of the rule and
      the replacement text can neither contain a new occurrence nor be cut
      into one. With `pat2 == pat` this says the rule removes its own
      pattern; with `pat` absent from `s` it says the rule does not create it. */
  lemma {:induction false} AbsentAfter(pat2: string, rep2: string, pat: string, s: string)
    requires |pat2| > 0 && |pat| > 0
    requires NoSuffixCompatible(rep2, pat) && NoSuffixCompatible(pat[1..], rep2)
    requires forall j :: 0 <= j <= |s| && pat <= s[j..] ==> pat2 <= s[j..]
    ensures !Occurs(pat, SubstituteAll(Literal(pat2, rep2), s))
    decreases |s|
  {
    var r := Literal(pat2, rep2);
    var out := SubstituteAll(r, s);
    if s != [] {
      if MatchAt(r, s).Some? {
        var rest := s[|pat2|..];
        forall j | 0 <= j <= |rest| && pat <= rest[j..] ensures pat2 <= rest[j..] {
          assert rest[j..] == s[j + |pat2|..];
        }
        AbsentAfter(pat2, rep2, pat, rest);
        var tail := SubstituteAll(r, rest);
        assert out == rep2 + tail;
        forall j | 0 <= j <= |out| ensures !(pat <= out[j..]) {
          if j < |rep2| {
            assert out[j..] == rep2[j..] + tail;
            if pat <= out[j..] {
              PrefixOfJoin(pat, rep2[j..], tail);
            }
          } else {
            assert out[j..] == tail[j - |rep2|..];
          }
        }
      } else {
        var rest := s[1..];
        forall j | 0 <= j <= |rest| && pat <= rest[j..] ensures pat2 <= rest[j..] {
          assert rest[j..] == s[j + 1..];
        }
        AbsentAfter(pat2, rep2, pat, rest);
        var tail := SubstituteAll(r, rest);
        assert out == [s[0]] + tail;
        assert s[0..] == s;
        assert !(pat <= s) by {
          assert !(pat2 <= s);
        }
        forall j | 0 <= j <= |out| ensures !(pat <= out[j..]) {
          if j == 0 {
            if pat <= out {
              PrefixOfJoin(pat, [s[0]], tail);
              CopiedPrefix(pat2, rep2, rest, pat[1..]);
              ConsPrefix(pat, s);
              assert false;
            }
          } else {
            assert out[j..] == tail[j - 1..];
          }
        }
      }
    }
  }

  /** The rules of a list applied one after another, first rule first. */
  function ApplyRules(s: string, rules: seq<Rule>): string
    decreases |rules|
  {
    if rules == [] then s
    else SubstituteAll(rules[|rules| - 1], ApplyRules(s, rules[..|rules| - 1]))
  }

  /** Applying a list and then one more rule is applying the longer list. */
  lemma ApplyRulesSnoc(s: string, rules: seq<Rule>, r: Rule)
    ensures ApplyRules(s, rules + [r]) == SubstituteAll(r, ApplyRules(s, rules))
  {
    assert (rules + [r])[..|rules|] == rules;
  }

  /** Applying the first `n` rules is applying the first `n - 1` and then
      rule `n - 1`. */
  lemma ApplyRulesPrefixStep(s: string, rules: seq<Rule>, n: nat)
    requires 0 < n <= |rules|
    ensures ApplyRules(s, rules[..n]) == SubstituteAll(rules[n - 1], ApplyRules(s, rules[..n - 1]))
  {
    assert rules[..n][..n - 1] == rules[..n - 1];
  }

  /** A list of rules none of whose leading texts occur in `s` leaves `s` as
      it is. */
  lemma {:induction false} ApplyRulesAbsent(s: string, rules: seq<Rule>)
    requires forall i :: 0 <= i < |rules| ==> !Occurs(Lead(rules[i]), s)
    ensures ApplyRules(s, rules) == s
    decreases |rules|
  {
    if rules != [] {
      var front := rules[..|rules| - 1];
      ApplyRulesAbsent(s, front);
      var last := rules[|rules| - 1];
      SubstituteWithoutLead(last, s);
    }
  }

  /** Applying two lists one after the other is applying their concatenation. */
  lemma {:induction false} ApplyRulesAppend(s: string, front: seq<Rule>, back: seq<Rule>)
    ensures ApplyRules(s, front + back) == ApplyRules(ApplyRules(s, front), back)
    decreases |back|
  {
    if back == [] {
      assert front + back == front;
    } else {
      var init := back[..|back| - 1];
      var last := back[|back| - 1];
      ApplyRulesAppend(s, front, init);
      assert back == init + [last];
      assert front + back == (front + init) + [last];
      ApplyRulesSnoc(s, front + init, last);
      ApplyRulesSnoc(ApplyRules(s, front), init, last);
    }
  }

  /** When the rules before rule `i` leave `s` alone, rule `i` turns it into
      `mid` and the rules after leave `mid` alone, the whole list turns `s`
      into `mid`. */
  lemma ApplyRulesAround(s: string, rules: seq<Rule>, i: nat, mid: string)
    requires i < |rules|
    requires ApplyRules(s, rules[..i]) == s
    requires SubstituteAll(rules[i], s) == mid
    requires ApplyRules(mid, rules[i + 1..]) == mid
    ensures ApplyRules(s, rules) == mid
  {
    var front := rules[..i + 1];
    assert rules == front + rules[i + 1..];
    ApplyRulesPrefixStep(s, rules, i + 1);
    ApplyRulesAppend(s, front, rules[i + 1..]);
  }

  /** The rules after rule `i`, none of whose leading texts occur in `s`,
      leave `s` as it is. */
  lemma ApplyRulesAbsentAfter(s: string, rules: seq<Rule>, i: nat)
    requires i < |rules| && forall k :: i < k < |rules| ==> !Occurs(Lead(rules[k]), s)
    ensures ApplyRules(s, rules[i + 1..]) == s
  {
    var back := rules[i + 1..];
    forall j | 0 <= j < |back| ensures !Occurs(Lead(back[j]), s) {
      assert back[j] == rules[i + 1 + j];
    }
    ApplyRulesAbsent(s, back);
  }
}
