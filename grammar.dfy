/** The three recognisers of cell references inside expression text, each a
    hand-written scanner equivalent to the regular expression the package
    hands to `re.search`. */
module ExpressionGrammar {
  import opened Wrappers
  import opened Text

  /** The fixed qualifier the current schema writes before an alias. */
  const GlobalsParams: string := "<<globals>>#<<params>>."

  /** The short form the collector falls back to. */
  const ParamsOnly: string := "<<params>>."

  /** The literal `lit` starts at `i` and is followed by at least one alias
      character: the regular expression `lit` + alias class + `+` matches at `i`. */
  predicate MatchesAt(s: string, lit: string, i: nat) {
    OccursAt(s, lit, i) && i + |lit| < |s| && IsAliasChar(s[i + |lit|])
  }

  /** The leftmost match position at or after `from`, as `re.search` finds it. */
  function FirstMatch(s: string, lit: string, from: nat): (r: Option<nat>)
    requires from <= |s|
    ensures r.Some? ==> from <= r.value < |s| && MatchesAt(s, lit, r.value)
    ensures r.Some? ==> forall j :: from <= j < r.value ==> !MatchesAt(s, lit, j)
    ensures r.None? ==> forall j :: from <= j ==> !MatchesAt(s, lit, j)
    decreases |s| - from
  {
    if MatchesAt(s, lit, from) then Some(from)
    else if from == |s| then None
    else FirstMatch(s, lit, from + 1)
  }

  /** `re.search(re.escape(lit) + alias class + "+", s).group(1)`: the alias
      captured after the leftmost match. */
  function Search(s: string, lit: string): (r: Option<string>)
    ensures r.Some? ==> r.value != [] && forall c :: c in r.value ==> IsAliasChar(c)
  {
    match FirstMatch(s, lit, 0)
    case Some(i) => Some(AliasRun(s, i + |lit|))
    case None => None
  }

  /** `i` is the leftmost position where the literal and an alias character match. */
  predicate LeftmostMatch(s: string, lit: string, i: nat) {
    MatchesAt(s, lit, i) && forall j: nat :: j < i ==> !MatchesAt(s, lit, j)
  }

  /** Search fails exactly when the literal followed by an alias character
      occurs nowhere, and otherwise returns the alias after the leftmost such
      occurrence. */
  lemma SearchMeaning(s: string, lit: string)
    ensures Search(s, lit).None? <==> forall i: nat :: !MatchesAt(s, lit, i)
    ensures Search(s, lit).Some? ==>
      exists i: nat :: LeftmostMatch(s, lit, i) && Search(s, lit).value == AliasRun(s, i + |lit|)
  {
    SearchFails(s, lit);
    if Search(s, lit).Some? {
      var i := SearchFinds(s, lit);
    }
  }

  /** The position of the leftmost match, when there is one. */
  lemma SearchFinds(s: string, lit: string) returns (i: nat)
    requires Search(s, lit).Some?
    ensures LeftmostMatch(s, lit, i) && Search(s, lit).value == AliasRun(s, i + |lit|)
  {
    var r := FirstMatch(s, lit, 0);
    i := r.value;
    assert r == Some(i);
  }

  lemma SearchFails(s: string, lit: string)
    ensures Search(s, lit).None? <==> forall i: nat :: !MatchesAt(s, lit, i)
  {
    var r := FirstMatch(s, lit, 0);
    if r.Some? {
      assert MatchesAt(s, lit, r.value);
    }
  }

  /** `parse_reference` of the current package. */
  function ParseReference(s: string): Option<string> {
    Search(s, GlobalsParams)
  }

  /** A reference written in the fixed form yields its alias, whatever text
      without a match comes before it and whatever operator text follows it. */
  lemma ParseReferenceFinds(pre: string, a: string, rest: string)
    requires a != [] && forall c :: c in a ==> IsAliasChar(c)
    requires rest == [] || !IsAliasChar(rest[0])
    requires forall i: nat :: i < |pre| ==> !MatchesAt(pre + GlobalsParams + a + rest, GlobalsParams, i)
    ensures ParseReference(pre + GlobalsParams + a + rest) == Some(a)
  {
    var s := pre + GlobalsParams + a + rest;
    var k := |pre| + |GlobalsParams|;
    assert s[|pre|..k] == GlobalsParams;
    assert s[k] == a[0];
    assert MatchesAt(s, GlobalsParams, |pre|);
    AliasRunOf(pre + GlobalsParams, a, rest);
    assert pre + GlobalsParams + a + rest == (pre + GlobalsParams) + a + rest;
    var r := FirstMatch(s, GlobalsParams, 0);
    assert r == Some(|pre|);
  }

  // -------------------------------------------------------------------------
  // The collector's recogniser: the full form first, then the short form
  // -------------------------------------------------------------------------

  /** `ReferenceCollector._parse_reference`. */
  function CollectorParseReference(s: string): (r: Option<string>)
    ensures r.Some? ==> r.value != [] && forall c :: c in r.value ==> IsAliasChar(c)
  {
    match Search(s, GlobalsParams)
    case Some(a) => Some(a)
    case None => Search(s, ParamsOnly)
  }

  /** Every full-form match contains a short-form match. */
  lemma FullContainsShort(s: string, i: nat)
    requires MatchesAt(s, GlobalsParams, i)
    ensures MatchesAt(s, ParamsOnly, i + 12)
  {
    assert GlobalsParams == "<<globals>>#" + ParamsOnly;
    assert s[i + 12..i + 23] == s[i..i + 23][12..];
  }

  /** The collector finds nothing exactly when neither form occurs, that is
      exactly when the short form occurs nowhere. */
  lemma CollectorNone(s: string)
    ensures CollectorParseReference(s).None? <==> forall i: nat :: !MatchesAt(s, ParamsOnly, i)
    ensures CollectorParseReference(s).None? <==> (forall i: nat :: !MatchesAt(s, GlobalsParams, i)) && (forall i: nat :: !MatchesAt(s, ParamsOnly, i))
  {
    if exists i: nat :: MatchesAt(s, GlobalsParams, i) {
      var i :| MatchesAt(s, GlobalsParams, i);
      FullContainsShort(s, i);
    }
  }

  /** A full-form match wins, even over a short form earlier in the text. */
  lemma CollectorPrefersFullForm(s: string)
    requires exists i: nat :: MatchesAt(s, GlobalsParams, i)
    ensures CollectorParseReference(s) == ParseReference(s)
    ensures CollectorParseReference(s).Some?
  {
  }

  // -------------------------------------------------------------------------
  // The older package's generic recogniser
  //   (?:<<([^>]+)>>|([^#]+))?#(?:<<([^>]+)>>|([^.]+))\.(alias class +)
  // -------------------------------------------------------------------------

  /** The first index at or after `from` holding `c`. */
  function FirstIndexOf(s: string, c: char, from: nat): (r: Option<nat>)
    ensures r.Some? ==> from <= r.value < |s| && s[r.value] == c
    ensures r.Some? ==> forall j :: from <= j < r.value ==> s[j] != c
    ensures r.None? ==> forall j :: from <= j < |s| ==> s[j] != c
    decreases |s| - from
  {
    if from >= |s| then None
    else if s[from] == c then Some(from)
    else FirstIndexOf(s, c, from + 1)
  }

  lemma FirstIndexOfIs(s: string, c: char, from: nat, k: nat)
    requires from <= k < |s| && s[k] == c
    requires forall j :: from <= j < k ==> s[j] != c
    ensures FirstIndexOf(s, c, from) == Some(k)
  {
  }

  /** `<<([^>]+)>>` at `i`: the index just past the closing `>>`. The bracketed
      name runs to the first `>`, must be non-empty, and must be followed by a
      second `>`; no shorter name can succeed, since the character after it
      would not be a `>`. */
  function AngleQualifierEnd(s: string, i: nat): (r: Option<nat>)
    ensures r.Some? ==> i + 5 <= r.value <= |s| && s[r.value - 1] == '>' && s[r.value - 2] == '>'
  {
    if !OccursAt(s, "<<", i) then None
    else
      match FirstIndexOf(s, '>', i + 2)
      case Some(g) => if g > i + 2 && g + 1 < |s| && s[g + 1] == '>' then Some(g + 2) else None
      case None => None
  }

  /** The positions of the `#` that a match starting at `s0` can use, in the
      order the regular-expression engine tries them: after a `<<name>>`
      qualifier, after a run of non-`#` characters, or at `s0` itself when the
      optional qualifier is skipped. */
  function HashPositions(s: string, s0: nat): (hs: seq<nat>)
    ensures forall h :: h in hs ==> h < |s| && s[h] == '#'
  {
    (match AngleQualifierEnd(s, s0)
     case Some(e) => if e < |s| && s[e] == '#' then [e] else []
     case None => [])
    + (match FirstIndexOf(s, '#', s0)
       case Some(h) => if h > s0 then [h] else []
       case None => [])
    + (if s0 < |s| && s[s0] == '#' then [s0] else [])
  }

  /** The positions where the alias can start after the `#` at `h`, in the
      order they are tried: after `<<sheet>>.` or after a run of non-`.`
      characters and the `.`. */
  function AliasStarts(s: string, h: nat): seq<nat> {
    (match AngleQualifierEnd(s, h + 1)
     case Some(e) => if e < |s| && s[e] == '.' then [e + 1] else []
     case None => [])
    + (match FirstIndexOf(s, '.', h + 1)
       case Some(d) => if d > h + 1 then [d + 1] else []
       case None => [])
  }

  /** The alias at the first start that has at least one alias character. */
  function FirstAlias(s: string, starts: seq<nat>): (r: Option<string>)
    ensures r.Some? ==> r.value != [] && forall c :: c in r.value ==> IsAliasChar(c)
  {
    if starts == [] then None
    else if starts[0] < |s| && IsAliasChar(s[starts[0]]) then Some(AliasRun(s, starts[0]))
    else FirstAlias(s, starts[1..])
  }

  /** A first start with an alias character yields the run there. */
  lemma FirstAliasHead(s: string, starts: seq<nat>)
    requires starts != [] && starts[0] < |s| && IsAliasChar(s[starts[0]])
    ensures FirstAlias(s, starts) == Some(AliasRun(s, starts[0]))
  {
  }

  /** The alias of the first `#` candidate from which the rest of the pattern matches. */
  function TryHashes(s: string, hs: seq<nat>): (r: Option<string>)
    ensures r.Some? ==> r.value != [] && forall c :: c in r.value ==> IsAliasChar(c)
  {
    if hs == [] then None
    else match FirstAlias(s, AliasStarts(s, hs[0]))
      case Some(a) => Some(a)
      case None => TryHashes(s, hs[1..])
  }

  /** A first `#` candidate from which the rest matches decides the result. */
  lemma TryHashesHead(s: string, hs: seq<nat>)
    requires hs != [] && FirstAlias(s, AliasStarts(s, hs[0])).Some?
    ensures TryHashes(s, hs) == FirstAlias(s, AliasStarts(s, hs[0]))
  {
  }

  /** The leftmost start position at or after `s0` where the pattern matches. */
  function LegacyFrom(s: string, s0: nat): (r: Option<string>)
    requires s0 <= |s|
    ensures r.Some? ==> r.value != [] && forall c :: c in r.value ==> IsAliasChar(c)
    decreases |s| - s0
  {
    match TryHashes(s, HashPositions(s, s0))
    case Some(a) => Some(a)
    case None => if s0 == |s| then None else LegacyFrom(s, s0 + 1)
  }

  /** A match at `s0` decides the result. */
  lemma LegacyFromHead(s: string, s0: nat)
    requires s0 <= |s| && TryHashes(s, HashPositions(s, s0)).Some?
    ensures LegacyFrom(s, s0) == TryHashes(s, HashPositions(s, s0))
  {
  }

  /** `parse_reference` of the older package: group 5 of the generic pattern. */
  function LegacyParseReference(s: string): (r: Option<string>)
    ensures r.Some? ==> r.value != [] && forall c :: c in r.value ==> IsAliasChar(c)
  {
    LegacyFrom(s, 0)
  }

  /** Without a `#` the generic pattern cannot match. */
  lemma {:induction false} LegacyNeedsHash(s: string, s0: nat)
    requires s0 <= |s| && '#' !in s
    ensures LegacyFrom(s, s0) == None
    decreases |s| - s0
  {
    if s0 < |s| {
      LegacyNeedsHash(s, s0 + 1);
    }
  }

  lemma LegacyParseNeedsHash(s: string)
    requires '#' !in s
    ensures LegacyParseReference(s) == None
  {
    LegacyNeedsHash(s, 0);
  }

  /** Reading the fixed qualifier at the head of `s`: the `<<globals>>`
      qualifier ends at 11, where the `#` is, and the `<<params>>` qualifier
      after it ends at 22, where the `.` is. */
  lemma FixedQualifiers(s: string)
    requires |s| > 23 && s[..23] == GlobalsParams
    ensures AngleQualifierEnd(s, 0) == Some(11) && s[11] == '#'
    ensures AngleQualifierEnd(s, 12) == Some(22) && s[22] == '.'
  {
    forall j | 0 <= j < 23 ensures s[j] == GlobalsParams[j] {
      assert s[..23][j] == s[j];
    }
    FirstIndexOfIs(s, '>', 2, 9);
    assert OccursAt(s, "<<", 0) by { assert s[0..2] == s[..23][0..2]; }
    FirstIndexOfIs(s, '>', 14, 20);
    assert OccursAt(s, "<<", 12) by { assert s[12..14] == s[..23][12..14]; }
  }

  /** On text opening with the fixed qualifier the generic pattern matches at
      the first character and captures the alias run after the qualifier. */
  lemma LegacyOnFixedPrefix(s: string)
    requires |s| > 23 && s[..23] == GlobalsParams && IsAliasChar(s[23])
    ensures LegacyParseReference(s) == Some(AliasRun(s, 23))
  {
    FixedQualifiers(s);
    assert HashPositions(s, 0)[0] == 11;
    assert AliasStarts(s, 11)[0] == 23;
    assert FirstAlias(s, AliasStarts(s, 11)) == Some(AliasRun(s, 23));
  }

  /** On the fixed form both grammars agree: the generic pattern reads
      `<<globals>>` and `<<params>>` as its two bracketed qualifiers. */
  lemma LegacyAgreesOnFixedForm(a: string, rest: string)
    requires a != [] && forall c :: c in a ==> IsAliasChar(c)
    requires rest == [] || !IsAliasChar(rest[0])
    ensures LegacyParseReference(GlobalsParams + a + rest) == Some(a)
    ensures ParseReference(GlobalsParams + a + rest) == Some(a)
  {
    var s := GlobalsParams + a + rest;
    assert s[..23] == GlobalsParams;
    assert s[23] == a[0];
    LegacyOnFixedPrefix(s);
    AliasRunOf(GlobalsParams, a, rest);
    var empty: string := [];
    assert empty + GlobalsParams == GlobalsParams;
    ParseReferenceFinds(empty, a, rest);
  }

  /** A literal whose first character is absent from the text matches nowhere. */
  lemma NoMatchWithoutHead(s: string, lit: string)
    requires lit != [] && lit[0] !in s
    ensures forall i: nat :: !MatchesAt(s, lit, i)
  {
  }

  /** A match at 0 on unbracketed text can only use the first `#`. */
  lemma PlainHash(s: string, h: nat)
    requires 0 < h < |s| && s[0] != '<' && s[h] == '#'
    requires forall j :: 0 <= j < h ==> s[j] != '#'
    ensures HashPositions(s, 0) == [h]
  {
    FirstIndexOfIs(s, '#', 0, h);
  }

  /** After the `#` at `h`, an unbracketed cell name ending at the `.` at `d`
      leaves the alias to start at `d + 1`. */
  lemma PlainCell(s: string, h: nat, d: nat)
    requires h + 1 < d < |s| && s[h + 1] != '<' && s[d] == '.'
    requires forall j :: h + 1 <= j < d ==> s[j] != '.'
    ensures AliasStarts(s, h) == [d + 1]
  {
    FirstIndexOfIs(s, '.', h + 1, d);
  }

  /** The older package reads a `sheet#cell.alias` reference to another
      sheet: with unbracketed sheet and cell names the pattern matches at the
      first character and captures the alias. */
  lemma LegacyReadsQualified(sheet: string, cell: string, a: string, rest: string)
    requires sheet != [] && sheet[0] != '<' && '#' !in sheet
    requires cell != [] && cell[0] != '<' && '.' !in cell
    requires a != [] && forall c :: c in a ==> IsAliasChar(c)
    requires rest == [] || !IsAliasChar(rest[0])
    ensures LegacyParseReference(sheet + "#" + cell + "." + a + rest) == Some(a)
  {
    QualifiedPrefix(sheet, cell);
    QualifiedFrom(sheet + "#" + cell + ".", |sheet|, a, rest);
  }

  /** `p` is an unbracketed `sheet#cell.` prefix whose `#` sits at `h`. */
  predicate PlainPrefix(p: string, h: nat) {
    && 0 < h && h + 2 < |p|
    && p[0] != '<' && p[h] == '#' && p[h + 1] != '<' && p[|p| - 1] == '.'
    && (forall j :: 0 <= j < h ==> p[j] != '#')
    && (forall j :: h + 1 <= j < |p| - 1 ==> p[j] != '.')
  }

  lemma QualifiedPrefix(sheet: string, cell: string)
    requires sheet != [] && sheet[0] != '<' && '#' !in sheet
    requires cell != [] && cell[0] != '<' && '.' !in cell
    ensures PlainPrefix(sheet + "#" + cell + ".", |sheet|)
  {
    var p := sheet + "#" + cell + ".";
    var h := |sheet|;
    forall j | 0 <= j < h
      ensures p[j] != '#'
    {
      assert p[j] == sheet[j];
    }
    forall j | h + 1 <= j < |p| - 1
      ensures p[j] != '.'
    {
      assert p[j] == cell[j - h - 1];
    }
  }

  /** After a plain prefix, the pattern reads the alias that follows it. */
  lemma QualifiedFrom(pre: string, h: nat, a: string, rest: string)
    requires PlainPrefix(pre, h)
    requires a != [] && forall c :: c in a ==> IsAliasChar(c)
    requires rest == [] || !IsAliasChar(rest[0])
    ensures LegacyParseReference(pre + a + rest) == Some(a)
  {
    var s := pre + a + rest;
    forall j | 0 <= j < |pre|
      ensures s[j] == pre[j]
    {
    }
    PrefixStarts(pre, h, s);
    AliasRunOf(pre, a, rest);
    ReadsFromStarts(s, h, |pre|, a);
  }

  /** Text that begins with a plain prefix: the `#` is at `h` and the alias
      starts right after the prefix. */
  lemma PrefixStarts(pre: string, h: nat, s: string)
    requires PlainPrefix(pre, h)
    requires |pre| < |s| && forall j :: 0 <= j < |pre| ==> s[j] == pre[j]
    ensures HashPositions(s, 0) == [h] && AliasStarts(s, h) == [|pre|]
  {
    forall j | 0 <= j < h
      ensures s[j] != '#'
    {
      assert s[j] == pre[j];
    }
    forall j | h + 1 <= j < |pre| - 1
      ensures s[j] != '.'
    {
      assert s[j] == pre[j];
    }
    assert s[|pre| - 1] == pre[|pre| - 1];
    PlainStarts(s, h, |pre| - 1);
  }

  /** The `#` and the alias start of a plain `sheet#cell.` prefix. */
  lemma PlainStarts(s: string, h: nat, d: nat)
    requires 0 < h && h + 1 < d < |s|
    requires s[0] != '<' && s[h] == '#' && s[h + 1] != '<' && s[d] == '.'
    requires forall j :: 0 <= j < h ==> s[j] != '#'
    requires forall j :: h + 1 <= j < d ==> s[j] != '.'
    ensures HashPositions(s, 0) == [h] && AliasStarts(s, h) == [d + 1]
  {
    PlainHash(s, h);
    PlainCell(s, h, d);
  }

  /** The alias read once the `#` and the alias start are known. */
  lemma ReadsFromStarts(s: string, h: nat, k: nat, a: string)
    requires HashPositions(s, 0) == [h] && AliasStarts(s, h) == [k]
    requires k <= |s| && a != [] && AliasRun(s, k) == a
    ensures LegacyParseReference(s) == Some(a)
  {
    assert k < |s| && IsAliasChar(s[k]);
    LegacyReadsAt(s, h, k);
  }

  /** A match at the first character through the `#` at `h` and the alias
      start `k` captures the alias run at `k`. */
  lemma LegacyReadsAt(s: string, h: nat, k: nat)
    requires HashPositions(s, 0) == [h] && AliasStarts(s, h) == [k]
    requires k < |s| && IsAliasChar(s[k])
    ensures LegacyParseReference(s) == Some(AliasRun(s, k))
  {
    FirstAliasHead(s, [k]);
    TryHashesHead(s, [h]);
    LegacyFromHead(s, 0);
  }

  /** The fixed grammars find nothing in text without a `<`. */
  lemma FixedNeedsAngle(s: string)
    requires '<' !in s
    ensures ParseReference(s) == None
    ensures CollectorParseReference(s) == None
  {
    NoMatchWithoutHead(s, GlobalsParams);
    NoMatchWithoutHead(s, ParamsOnly);
    SearchFails(s, GlobalsParams);
    SearchFails(s, ParamsOnly);
  }

  /** The grammars disagree on a reference to another sheet written without
      brackets, such as `Sheet#Cell.Width`: the older package reads its alias,
      the current recognisers find nothing. */
  lemma GrammarsDisagreeOnSheetReference(sheet: string, cell: string, a: string, rest: string)
    requires sheet != [] && sheet[0] != '<' && '#' !in sheet
    requires cell != [] && cell[0] != '<' && '.' !in cell
    requires a != [] && forall c :: c in a ==> IsAliasChar(c)
    requires rest == [] || !IsAliasChar(rest[0])
    requires '<' !in sheet + "#" + cell + "." + a + rest
    ensures LegacyParseReference(sheet + "#" + cell + "." + a + rest) == Some(a)
    ensures ParseReference(sheet + "#" + cell + "." + a + rest) == None
    ensures CollectorParseReference(sheet + "#" + cell + "." + a + rest) == None
  {
    LegacyReadsQualified(sheet, cell, a, rest);
    FixedNeedsAngle(sheet + "#" + cell + "." + a + rest);
  }

  /** Without a `#` the full form matches nowhere. */
  lemma FullNeedsHash(s: string)
    requires '#' !in s
    ensures forall i: nat :: !MatchesAt(s, GlobalsParams, i)
  {
    forall i: nat
      ensures !OccursAt(s, GlobalsParams, i)
    {
      if i + |GlobalsParams| <= |s| {
        assert s[i..i + |GlobalsParams|][11] == s[i + 11];
      }
    }
  }

  /** The collector also reads the short `<<params>>.alias` form, which the
      current package's own `parse_reference` does not. */
  lemma CollectorReadsShortForm(a: string, rest: string)
    requires a != [] && forall c :: c in a ==> IsAliasChar(c)
    requires rest == [] || !IsAliasChar(rest[0])
    requires '#' !in a && '#' !in rest
    ensures ParseReference(ParamsOnly + a + rest) == None
    ensures CollectorParseReference(ParamsOnly + a + rest) == Some(a)
  {
    var s := ParamsOnly + a + rest;
    assert '#' !in s by {
      forall j | 0 <= j < |s|
        ensures s[j] != '#'
      {
        if j < |ParamsOnly| {
          assert s[j] == ParamsOnly[j];
        } else if j < |ParamsOnly| + |a| {
          assert s[j] == a[j - |ParamsOnly|];
        } else {
          assert s[j] == rest[j - |ParamsOnly| - |a|];
        }
      }
    }
    FullNeedsHash(s);
    SearchFails(s, GlobalsParams);
    AliasRunOf(ParamsOnly, a, rest);
    assert s[0..|ParamsOnly|] == ParamsOnly;
    assert s[|ParamsOnly|] == a[0];
    assert MatchesAt(s, ParamsOnly, 0);
    assert FirstMatch(s, ParamsOnly, 0) == Some(0);
  }
}
