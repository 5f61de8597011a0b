/** Text primitives the classification rule is built from: ASCII case
    folding (Python's `str.lower()` and `re.IGNORECASE` on ASCII letters),
    substring search (Python's `in` on strings), and the one regular
    expression the rule matches, `\bfrice\s*\(kg\)`, written out by hand. */
module Text {

  /** `str.lower()` on one character, restricted to ASCII letters. */
  function LowerChar(c: char): char {
    if 'A' <= c <= 'Z' then (c as int + 32) as char else c
  }

  /** `str.lower()` on a whole string, character by character. */
  function Lower(s: string): string {
    seq(|s|, i requires 0 <= i < |s| => LowerChar(s[i]))
  }

  /** The two strings differ at most in the case of their ASCII letters. */
  predicate SameIgnoringCase(a: string, b: string) {
    Lower(a) == Lower(b)
  }

  /** `p` occurs in `s` starting at index `i`. */
  predicate OccursAt(s: string, p: string, i: nat) {
    i + |p| <= |s| && s[i..i + |p|] == p
  }

  /** Python's `p in s`. */
  predicate Contains(s: string, p: string) {
    exists i: nat | i <= |s| :: OccursAt(s, p, i)
  }

  /** `p` occurs in `s` at index `i` when letter case is ignored. */
  predicate OccursAtIgnoringCase(s: string, p: string, i: nat) {
    i + |p| <= |s| && SameIgnoringCase(s[i..i + |p|], p)
  }

  /** `re.search(p, s, re.IGNORECASE)` for a pattern without metacharacters. */
  predicate ContainsIgnoringCase(s: string, p: string) {
    exists i: nat | i <= |s| :: OccursAtIgnoringCase(s, p, i)
  }

  /** The regular-expression class `\w`, restricted to ASCII. */
  predicate IsWordChar(c: char) {
    'a' <= c <= 'z' || 'A' <= c <= 'Z' || '0' <= c <= '9' || c == '_'
  }

  /** The regular-expression class `\s` on `str` patterns: the characters
      for which `str.isspace()` holds. */
  predicate IsSpace(c: char) {
    || '\t' <= c <= '\r'
    || '\U{1C}' <= c <= ' '
    || c == '\U{85}' || c == '\U{A0}' || c == '\U{1680}'
    || '\U{2000}' <= c <= '\U{200A}'
    || c == '\U{2028}' || c == '\U{2029}' || c == '\U{202F}' || c == '\U{205F}' || c == '\U{3000}'
  }

  /** The anchor `\b` at index `i`: exactly one of the characters on either
      side of `i` is a word character (outside the string counts as none). */
  predicate WordBoundary(t: string, i: nat)
    requires i <= |t|
  {
    (0 < i && IsWordChar(t[i - 1])) != (i < |t| && IsWordChar(t[i]))
  }

  /** Every character of `t[a..b]` is whitespace. */
  predicate AllSpace(t: string, a: nat, b: nat)
    requires a <= b <= |t|
  {
    forall j | a <= j < b :: IsSpace(t[j])
  }

  /** After "frice" at index `i`, `\s*` takes `k` characters and "(kg)"
      follows them. */
  predicate KgAfterFrice(t: string, i: nat, k: nat) {
    i + 5 + k <= |t| && AllSpace(t, i + 5, i + 5 + k) && OccursAtIgnoringCase(t, "(kg)", i + 5 + k)
  }

  /** `\bfrice\s*\(kg\)` matches case-insensitively starting at index `i`:
      a word boundary, then "frice", then some number of whitespace
      characters, then "(kg)". */
  predicate FriceKgAt(t: string, i: nat) {
    && i + 5 <= |t|
    && WordBoundary(t, i)
    && OccursAtIgnoringCase(t, "frice", i)
    && exists k: nat | k <= |t| :: KgAfterFrice(t, i, k)
  }

  /** `re.search(r'\bfrice\s*\(kg\)', t, re.IGNORECASE)` finds a match. */
  predicate HasFriceKg(t: string) {
    exists i: nat | i <= |t| :: FriceKgAt(t, i)
  }

  // ---------------------------------------------------------------------
  // Case folding

  /** Lowering commutes with slicing. */
  lemma LowerSlice(s: string, a: nat, b: nat)
    requires a <= b <= |s|
    ensures Lower(s[a..b]) == Lower(s)[a..b]
  {
  }

  /** Lowering twice is lowering once. */
  lemma LowerIdempotent(s: string)
    ensures Lower(Lower(s)) == Lower(s)
  {
  }

  /** Characters equal up to case are alike for `\w` and for `\s`. */
  lemma CaseKeepsClasses(c: char, d: char)
    requires LowerChar(c) == LowerChar(d)
    ensures IsWordChar(c) == IsWordChar(d)
    ensures IsSpace(c) == IsSpace(d)
  {
  }

  /** Searching an already lowered text for a lower-case pattern while
      ignoring case is plain substring search. */
  lemma {:induction false} SearchLoweredText(s: string, p: string)
    requires Lower(p) == p
    ensures ContainsIgnoringCase(Lower(s), p) <==> Contains(Lower(s), p)
  {
    var t := Lower(s);
    LowerIdempotent(s);
    forall i: nat | i <= |t|
      ensures OccursAtIgnoringCase(t, p, i) <==> OccursAt(t, p, i)
    {
      if i + |p| <= |t| {
        LowerSlice(t, i, i + |p|);
        assert Lower(t[i..i + |p|]) == t[i..i + |p|];
      }
    }
  }

  /** Strings equal up to case have the same length. */
  lemma SameIgnoringCaseLength(t: string, u: string)
    requires SameIgnoringCase(t, u)
    ensures |t| == |u|
  {
    assert |Lower(t)| == |Lower(u)|;
  }

  /** A case-insensitive occurrence survives any change of letter case. */
  lemma OccursAtIgnoringCaseTransfer(t: string, u: string, p: string, i: nat)
    requires SameIgnoringCase(t, u)
    requires OccursAtIgnoringCase(t, p, i)
    ensures OccursAtIgnoringCase(u, p, i)
  {
    SameIgnoringCaseLength(t, u);
    LowerSlice(t, i, i + |p|);
    LowerSlice(u, i, i + |p|);
  }

  /** At every index, strings equal up to case agree on `\w` and `\s`. */
  lemma ClassesAgree(t: string, u: string, j: nat)
    requires SameIgnoringCase(t, u)
    requires j < |t|
    ensures j < |u|
    ensures IsWordChar(t[j]) == IsWordChar(u[j]) && IsSpace(t[j]) == IsSpace(u[j])
  {
    SameIgnoringCaseLength(t, u);
    assert Lower(t)[j] == Lower(u)[j];
    CaseKeepsClasses(t[j], u[j]);
  }

  /** A match of `\bfrice\s*\(kg\)` at `i` survives any change of letter case. */
  lemma FriceKgAtCaseInsensitive(t: string, u: string, i: nat)
    requires SameIgnoringCase(t, u)
    requires FriceKgAt(t, i)
    ensures FriceKgAt(u, i)
  {
    SameIgnoringCaseLength(t, u);
    if 0 < i {
      ClassesAgree(t, u, i - 1);
    }
    ClassesAgree(t, u, i);
    assert WordBoundary(u, i);
    OccursAtIgnoringCaseTransfer(t, u, "frice", i);
    var k: nat :| k <= |t| && KgAfterFrice(t, i, k);
    forall j | i + 5 <= j < i + 5 + k
      ensures IsSpace(u[j])
    {
      ClassesAgree(t, u, j);
    }
    OccursAtIgnoringCaseTransfer(t, u, "(kg)", i + 5 + k);
    assert KgAfterFrice(u, i, k);
  }

  /** Whether the regular expression matches does not depend on letter case. */
  lemma FriceKgCaseInsensitive(t: string, u: string)
    requires SameIgnoringCase(t, u)
    ensures HasFriceKg(t) <==> HasFriceKg(u)
  {
    if HasFriceKg(t) {
      var i: nat :| i <= |t| && FriceKgAt(t, i);
      FriceKgAtCaseInsensitive(t, u, i);
    }
    if HasFriceKg(u) {
      var i: nat :| i <= |u| && FriceKgAt(u, i);
      FriceKgAtCaseInsensitive(u, t, i);
    }
  }
}
