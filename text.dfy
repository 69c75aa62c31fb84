/** Character classes and prefix facts shared by the pattern scanners. */
module Text {

  /** The `\w` class of the conversion script's patterns, restricted to ASCII:
      letters, digits and the underscore. */
  predicate IsWordChar(c: char) {
    ('a' <= c <= 'z') || ('A' <= c <= 'Z') || ('0' <= c <= '9') || c == '_'
  }

  /** The `\s` class of a Python 3 str pattern: exactly the characters for which
      `str.isspace()` holds. */
  predicate IsSpaceChar(c: char) {
    ('\t' <= c <= '\r') || ('\U{1C}' <= c <= '\U{1F}') || c == ' '
    || c == '\U{85}' || c == '\U{A0}' || c == '\U{1680}'
    || ('\U{2000}' <= c <= '\U{200A}') || c == '\U{2028}' || c == '\U{2029}'
    || c == '\U{202F}' || c == '\U{205F}' || c == '\U{3000}'
  }

  /** An identifier of the schema source: a non-empty run of word characters. */
  predicate IsIdent(s: string) {
    |s| > 0 && forall c :: c in s ==> IsWordChar(c)
  }

  /** The three character classes the script's patterns repeat: `\w`, `\s`
      and a negated single character such as `[^)]`. */
  datatype CharClass = Word | Space | Except(excluded: char)

  predicate InClass(k: CharClass, c: char) {
    match k
    case Word => IsWordChar(c)
    case Space => IsSpaceChar(c)
    case Except(x) => c != x
  }

  /** Where a greedy run of class `k` that starts at `i` stops: the first
      index at or after `i` whose character is outside the class. */
  function RunEnd(s: string, i: nat, k: CharClass): (e: nat)
    requires i <= |s|
    ensures i <= e <= |s|
    ensures forall j :: i <= j < e ==> InClass(k, s[j])
    ensures e == |s| || !InClass(k, s[e])
    decreases |s| - i
  {
    if i == |s| || !InClass(k, s[i]) then i else RunEnd(s, i + 1, k)
  }

  /** A run that is all in the class and is stopped by the end or by a
      character outside it is the one RunEnd finds. */
  lemma RunEndIs(s: string, i: nat, k: CharClass, e: nat)
    requires i <= e <= |s|
    requires forall j :: i <= j < e ==> InClass(k, s[j])
    requires e == |s| || !InClass(k, s[e])
    ensures RunEnd(s, i, k) == e
  {
  }

  /** One of `a` and `b` is a prefix of the other: `a` could be the start of
      a text that begins with `b`. */
  predicate Compatible(a: string, b: string) {
    a <= b || b <= a
  }

  /** `pat` appears somewhere in `s`. */
  ghost predicate Occurs(pat: string, s: string) {
    exists j :: 0 <= j <= |s| && pat <= s[j..]
  }

  /** A pattern that contains a character the text lacks cannot appear in it. */
  lemma AbsentByChar(pat: string, s: string, k: nat)
    requires k < |pat| && pat[k] !in s
    ensures !Occurs(pat, s)
  {
  }

  /** A prefix of a concatenation either fits inside its first part or runs
      past it into the second. */
  lemma PrefixOfJoin(w: string, a: string, b: string)
    requires w <= a + b
    ensures Compatible(w, a)
    ensures |w| > |a| ==> w[|a|..] <= b
  {
    if |w| <= |a| {
      assert w == (a + b)[..|w|] == a[..|w|];
    } else {
      assert w[..|a|] == (a + b)[..|a|] == a;
      assert w[|a|..] == (a + b)[|a|..|w|] == b[..|w| - |a|];
    }
  }

  /** A text starts with `w` when its first character and its rest agree with
      those of `w`. */
  lemma ConsPrefix(w: string, s: string)
    requires 0 < |w| && 0 < |s| && w[0] == s[0] && w[1..] <= s[1..]
    ensures w <= s
  {
    assert w == [w[0]] + w[1..];
    assert s == [s[0]] + s[1..];
  }
}
