/** Character classes and small string functions shared by the expression
    grammars, the key generator and the HTML unescaping step. */
module Text {

  /** The characters Python's `\s` matches in a `str` pattern (those for which
      `str.isspace()` holds): U+0009 to U+000D, U+001C to U+0020, U+0085,
      U+00A0, U+1680, U+2000 to U+200A, U+2028, U+2029, U+202F, U+205F and U+3000. */
  predicate IsWhitespace(c: char) {
    || '\U{9}' <= c <= '\U{D}'
    || '\U{1C}' <= c <= '\U{20}'
    || c == '\U{85}' || c == '\U{A0}' || c == '\U{1680}'
    || '\U{2000}' <= c <= '\U{200A}'
    || c == '\U{2028}' || c == '\U{2029}' || c == '\U{202F}' || c == '\U{205F}' || c == '\U{3000}'
  }

  /** The arithmetic operators that end an alias. */
  predicate IsOperator(c: char) {
    c == '+' || c == '-' || c == '*' || c == '/' || c == '(' || c == ')'
  }

  /** A character of the regular-expression class that excludes whitespace and the operators `+ - * / ( )`. */
  predicate IsAliasChar(c: char) {
    !IsWhitespace(c) && !IsOperator(c)
  }

  /** `p` occurs in `s` starting at index `i`. */
  predicate OccursAt(s: string, p: string, i: nat) {
    i + |p| <= |s| && s[i..i + |p|] == p
  }

  /** The longest run of alias characters of `s` that starts at `j`: what the
      greedy alias class captures once it has matched at `j`. */
  function AliasRun(s: string, j: nat): (r: string)
    requires j <= |s|
    ensures j + |r| <= |s|
    ensures forall c :: c in r ==> IsAliasChar(c)
    ensures j + |r| == |s| || !IsAliasChar(s[j + |r|])
    decreases |s| - j
  {
    if j < |s| && IsAliasChar(s[j]) then [s[j]] + AliasRun(s, j + 1) else []
  }

  /** A run of alias characters that ends at the end of `s` or before a
      non-alias character is the run found at its start. */
  lemma {:induction false} AliasRunBetween(s: string, j: nat, k: nat)
    requires j <= k <= |s|
    requires forall i :: j <= i < k ==> IsAliasChar(s[i])
    requires k == |s| || !IsAliasChar(s[k])
    ensures AliasRun(s, j) == s[j..k]
    decreases k - j
  {
    if j < k {
      AliasRunBetween(s, j + 1, k);
      assert s[j..k] == [s[j]] + s[j + 1..k];
    }
  }

  /** The same, located by index: alias characters `a` at `k` followed by the
      end or a non-alias character are the run found at `k`. */
  lemma AliasRunAt(s: string, k: nat, a: string)
    requires k + |a| <= |s| && forall i :: 0 <= i < |a| ==> s[k + i] == a[i]
    requires forall c :: c in a ==> IsAliasChar(c)
    requires k + |a| == |s| || !IsAliasChar(s[k + |a|])
    ensures AliasRun(s, k) == a
  {
    forall i | k <= i < k + |a| ensures IsAliasChar(s[i]) {
      assert s[k + (i - k)] == a[i - k];
    }
    AliasRunBetween(s, k, k + |a|);
  }

  /** An alias run is determined by its contents: a string of alias characters
      followed by the end or by a non-alias character is the run found there. */
  lemma AliasRunOf(pre: string, a: string, rest: string)
    requires forall c :: c in a ==> IsAliasChar(c)
    requires rest == [] || !IsAliasChar(rest[0])
    ensures AliasRun(pre + a + rest, |pre|) == a
  {
    var s := pre + a + rest;
    forall i | |pre| <= i < |pre| + |a| ensures IsAliasChar(s[i]) {
      assert s[i] == a[i - |pre|];
    }
    assert |pre| + |a| < |s| ==> s[|pre| + |a|] == rest[0];
    AliasRunBetween(s, |pre|, |pre| + |a|);
    assert s[|pre|..|pre| + |a|] == a;
  }

  // ---------------------------------------------------------------------
  // Decimal numerals, as Python's f"{n}" writes a non-negative int
  // ---------------------------------------------------------------------

  function DigitChar(d: nat): (c: char)
    requires d < 10
    ensures '0' <= c <= '9'
  {
    ['0', '1', '2', '3', '4', '5', '6', '7', '8', '9'][d]
  }

  function DigitValue(c: char): nat {
    if '0' <= c <= '9' then (c as int - '0' as int) as nat else 0
  }

  /** The decimal numeral of `n`, without sign or leading zeros. */
  function NatToString(n: nat): (s: string)
    ensures |s| > 0
    ensures forall c :: c in s ==> '0' <= c <= '9'
  {
    if n < 10 then [DigitChar(n)] else NatToString(n / 10) + [DigitChar(n % 10)]
  }

  /** Reads a string of decimal digits back as a number. */
  function ParseDecimal(s: string): nat {
    if s == [] then 0 else 10 * ParseDecimal(s[..|s| - 1]) + DigitValue(s[|s| - 1])
  }

  lemma DigitRoundTrip(d: nat)
    requires d < 10
    ensures DigitValue(DigitChar(d)) == d
  {
  }

  /** Reading a numeral back gives the number that was written. */
  lemma {:induction false} NumeralRoundTrip(n: nat)
    ensures ParseDecimal(NatToString(n)) == n
  {
    if n < 10 {
      DigitRoundTrip(n);
      assert NatToString(n)[..0] == [];
    } else {
      var s := NatToString(n);
      assert s[..|s| - 1] == NatToString(n / 10);
      NumeralRoundTrip(n / 10);
      DigitRoundTrip(n % 10);
    }
  }

  /** Different numbers have different numerals. */
  lemma NumeralInjective(a: nat, b: nat)
    requires NatToString(a) == NatToString(b)
    ensures a == b
  {
    NumeralRoundTrip(a);
    NumeralRoundTrip(b);
  }

  // ---------------------------------------------------------------------
  // HTML entities: the subset of html.unescape the expression texts use
  // ---------------------------------------------------------------------

  /** Replaces the entities `&lt;`, `&gt;`, `&quot;` and `&amp;` by the
      characters they stand for, scanning left to right without re-reading
      what a replacement produced. */
  function Unescape(s: string): (r: string)
    ensures |r| <= |s|
  {
    if s == [] then []
    else if OccursAt(s, "&lt;", 0) then "<" + Unescape(s[4..])
    else if OccursAt(s, "&gt;", 0) then ">" + Unescape(s[4..])
    else if OccursAt(s, "&quot;", 0) then "\"" + Unescape(s[6..])
    else if OccursAt(s, "&amp;", 0) then "&" + Unescape(s[5..])
    else [s[0]] + Unescape(s[1..])
  }

  /** The escaping that `Unescape` undoes. */
  function EscapeChar(c: char): string {
    if c == '&' then "&amp;"
    else if c == '<' then "&lt;"
    else if c == '>' then "&gt;"
    else if c == '"' then "&quot;"
    else [c]
  }

  function Escape(s: string): string {
    if s == [] then [] else EscapeChar(s[0]) + Escape(s[1..])
  }

  /** An occurrence at the start fixes the first character. */
  lemma OccurrenceHead(s: string, p: string)
    ensures OccursAt(s, p, 0) && p != [] ==> s[0] == p[0]
  {
    if OccursAt(s, p, 0) && p != [] {
      assert s[0..|p|][0] == s[0];
    }
  }

  /** Text without an ampersand has nothing to unescape. */
  lemma {:induction false} UnescapePlain(s: string)
    requires '&' !in s
    ensures Unescape(s) == s
  {
    if s != [] {
      assert s[0] in s;
      OccurrenceHead(s, "&lt;");
      OccurrenceHead(s, "&gt;");
      OccurrenceHead(s, "&quot;");
      OccurrenceHead(s, "&amp;");
      assert '&' !in s[1..] by { assert forall c :: c in s[1..] ==> c in s; }
      UnescapePlain(s[1..]);
    }
  }

  /** The entity text of a character is recognised before anything else. */
  lemma UnescapeAmp(t: string)
    ensures Unescape("&amp;" + t) == "&" + Unescape(t)
  {
    var e := "&amp;" + t;
    assert e[..5] == "&amp;" && e[5..] == t;
    assert e[1] == 'a';
  }

  lemma UnescapeLt(t: string)
    ensures Unescape("&lt;" + t) == "<" + Unescape(t)
  {
    var e := "&lt;" + t;
    assert e[..4] == "&lt;" && e[4..] == t;
  }

  lemma UnescapeGt(t: string)
    ensures Unescape("&gt;" + t) == ">" + Unescape(t)
  {
    var e := "&gt;" + t;
    assert e[..4] == "&gt;" && e[4..] == t;
    assert e[1] == 'g';
  }

  lemma UnescapeQuot(t: string)
    ensures Unescape("&quot;" + t) == "\"" + Unescape(t)
  {
    var e := "&quot;" + t;
    assert e[..6] == "&quot;" && e[6..] == t;
    assert e[1] == 'q';
  }

  /** Unescaping the escape of one character gives that character back and
      leaves the rest of the text to be unescaped on its own. */
  lemma UnescapeEscapedChar(c: char, t: string)
    ensures Unescape(EscapeChar(c) + t) == [c] + Unescape(t)
  {
    if c == '&' {
      UnescapeAmp(t);
    } else if c == '<' {
      UnescapeLt(t);
    } else if c == '>' {
      UnescapeGt(t);
    } else if c == '"' {
      UnescapeQuot(t);
    } else {
      var e := [c] + t;
      assert e[0] == c && e[1..] == t;
      OccurrenceHead(e, "&lt;");
      OccurrenceHead(e, "&gt;");
      OccurrenceHead(e, "&quot;");
      OccurrenceHead(e, "&amp;");
    }
  }

  /** Unescaping undoes escaping. */
  lemma {:induction false} UnescapeEscape(s: string)
    ensures Unescape(Escape(s)) == s
  {
    if s != [] {
      UnescapeEscapedChar(s[0], Escape(s[1..]));
      UnescapeEscape(s[1..]);
    }
  }
}
