/** `src/fc_audit/reference_outputter.py`: alias filtering, the two pivoted
    views of the alias-keyed references, and the detection of processed files
    that contributed no reference. */
module Outputter {
  import opened Wrappers
  import opened OrderedMaps
  import opened References

  // -------------------------------------------------------------------------
  // Filtering by glob patterns
  // -------------------------------------------------------------------------

  /** Some non-empty pattern of `patterns` matches `alias`. */
  predicate Selects(patterns: seq<string>, matches: (string, string) -> bool, alias: string) {
    exists i :: 0 <= i < |patterns| && patterns[i] != "" && matches(alias, patterns[i])
  }

  /** Every pattern is the empty string (vacuously so for no pattern at all). */
  predicate AllBlank(patterns: seq<string>) {
    forall i :: 0 <= i < |patterns| ==> patterns[i] == ""
  }

  /** The dictionary the filtering loop builds from the first `n` keys of `m`. */
  function FilteredUpTo(m: RefMap, n: nat, patterns: seq<string>, matches: (string, string) -> bool): (r: RefMap)
    requires n <= |m.keys|
    ensures r.Valid()
  {
    if n == 0 then Empty()
    else
      var before := FilteredUpTo(m, n - 1, patterns, matches);
      var k := m.keys[n - 1];
      if k in m.items && Selects(patterns, matches, k) then Put(before, k, m.items[k]) else before
  }

  function Filtered(m: RefMap, patterns: seq<string>, matches: (string, string) -> bool): RefMap {
    FilteredUpTo(m, |m.keys|, patterns, matches)
  }

  /** Among the first `n` keys of `m`, exactly the selected ones survive,
      each with its own list. */
  lemma FilteredUpToItems(m: RefMap, n: nat, patterns: seq<string>, matches: (string, string) -> bool, k: string)
    requires m.Valid() && n <= |m.keys|
    ensures var r := FilteredUpTo(m, n, patterns, matches);
      (k in r.items <==> k in m.keys[..n] && Selects(patterns, matches, k))
      && (k in r.items ==> r.items[k] == m.items[k])
  {
    assert forall j :: 0 <= j < n ==> m.keys[j] in m.keys;
    FilteredUpToHas(m, n, patterns, matches, k);
    FilteredUpToList(m, n, patterns, matches, k);
  }

  lemma {:induction false} FilteredUpToHas(m: RefMap, n: nat, patterns: seq<string>, matches: (string, string) -> bool, k: string)
    requires n <= |m.keys| && forall j :: 0 <= j < n ==> m.keys[j] in m.items
    ensures k in FilteredUpTo(m, n, patterns, matches).items <==> k in m.keys[..n] && Selects(patterns, matches, k)
  {
    if n > 0 {
      var n1: nat := n - 1;
      FilteredUpToHas(m, n1, patterns, matches, k);
      assert m.keys[..n][..n1] == m.keys[..n1];
      InSnoc(m.keys[..n], k);
    }
  }

  lemma {:induction false} FilteredUpToList(m: RefMap, n: nat, patterns: seq<string>, matches: (string, string) -> bool, k: string)
    requires n <= |m.keys|
    ensures var r := FilteredUpTo(m, n, patterns, matches);
      k in r.items ==> k in m.items && r.items[k] == m.items[k]
  {
    if n > 0 {
      var n1: nat := n - 1;
      var before := FilteredUpTo(m, n1, patterns, matches);
      var kn := m.keys[n1];
      FilteredUpToList(m, n1, patterns, matches, k);
      if kn in m.items && Selects(patterns, matches, kn) {
        assert FilteredUpTo(m, n, patterns, matches).items == before.items[kn := m.items[kn]];
      } else {
        assert FilteredUpTo(m, n, patterns, matches) == before;
      }
    }
  }

  /** The keys of `keys` that are present in `items` and selected, in order. */
  function SelectedKeys(keys: seq<string>, items: map<string, seq<Reference>>, patterns: seq<string>, matches: (string, string) -> bool): seq<string> {
    if keys == [] then []
    else
      var k := keys[|keys| - 1];
      SelectedKeys(keys[..|keys| - 1], items, patterns, matches)
        + (if k in items && Selects(patterns, matches, k) then [k] else [])
  }

  /** The surviving keys are the selected keys, in their original order. */
  lemma {:induction false} FilteredUpToKeys(m: RefMap, n: nat, patterns: seq<string>, matches: (string, string) -> bool)
    requires m.Valid() && n <= |m.keys|
    ensures FilteredUpTo(m, n, patterns, matches).keys == SelectedKeys(m.keys[..n], m.items, patterns, matches)
  {
    if n > 0 {
      var k := m.keys[n - 1];
      FilteredUpToKeys(m, n - 1, patterns, matches);
      assert m.keys[..n][..n - 1] == m.keys[..n - 1];
      if k in m.items && Selects(patterns, matches, k) {
        FilteredUpToItems(m, n - 1, patterns, matches, k);
        assert k !in m.keys[..n - 1] by {
          assert forall q :: 0 <= q < n - 1 ==> m.keys[q] != k;
        }
      }
    }
  }

  /** The filtered dictionary keeps exactly the selected aliases, each with its
      own list, in their original relative order. */
  lemma FilteredMeaning(m: RefMap, patterns: seq<string>, matches: (string, string) -> bool)
    requires m.Valid()
    ensures var r := Filtered(m, patterns, matches);
      r.Valid()
      && (forall k :: k in r.items <==> k in m.items && Selects(patterns, matches, k))
      && (forall k :: k in r.items ==> r.items[k] == m.items[k])
      && r.keys == SelectedKeys(m.keys, m.items, patterns, matches)
  {
    FilteredUpToKeys(m, |m.keys|, patterns, matches);
    assert m.keys[..|m.keys|] == m.keys;
    forall k
      ensures var r := Filtered(m, patterns, matches);
        (k in r.items <==> k in m.items && Selects(patterns, matches, k))
        && (k in r.items ==> r.items[k] == m.items[k])
    {
      FilteredUpToItems(m, |m.keys|, patterns, matches, k);
      assert m.keys[..|m.keys|] == m.keys;
    }
  }

  // -------------------------------------------------------------------------
  // Flattening the alias-keyed dictionary in iteration order
  // -------------------------------------------------------------------------

  /** `[(a, r) for r in refs]`. */
  function KeyPairs(a: string, refs: seq<Reference>): (s: seq<Pair>)
    ensures |s| == |refs|
  {
    if refs == [] then [] else KeyPairs(a, refs[..|refs| - 1]) + [(a, refs[|refs| - 1])]
  }

  /** The (alias, reference) pairs the nested `for alias, refs in ...items(): for ref in refs`
      loops visit over the first `n` keys. */
  function Flattened(m: RefMap, n: nat): seq<Pair>
    requires n <= |m.keys|
  {
    if n == 0 then [] else Flattened(m, n - 1) + KeyPairs(m.keys[n - 1], Refs(m, m.keys[n - 1]))
  }

  function AllPairs(m: RefMap): seq<Pair> {
    Flattened(m, |m.keys|)
  }

  /** One more reference of the current key's list has been visited. */
  lemma PairsStep(done: seq<Pair>, a: string, refs: seq<Reference>, j: nat)
    requires j < |refs|
    ensures done + KeyPairs(a, refs[..j + 1]) == (done + KeyPairs(a, refs[..j])) + [(a, refs[j])]
  {
    assert refs[..j + 1][..j] == refs[..j];
  }

  /** The references of `refs` that `keep` accepts, in order. */
  function Where(refs: seq<Reference>, keep: Reference -> bool): (r: seq<Reference>)
    ensures |r| <= |refs|
  {
    if refs == [] then []
    else Where(refs[..|refs| - 1], keep) + (if keep(refs[|refs| - 1]) then [refs[|refs| - 1]] else [])
  }

  /** The references of the pairs filed under alias `a` that `keep` accepts, in order. */
  function Keep(pairs: seq<Pair>, a: string, keep: Reference -> bool): seq<Reference> {
    if pairs == [] then []
    else
      var (b, r) := pairs[|pairs| - 1];
      Keep(pairs[..|pairs| - 1], a, keep) + (if b == a && keep(r) then [r] else [])
  }

  /** Filtering the pairs by alias and acceptance is filtering the alias's
      references by acceptance. */
  lemma {:induction false} KeepWhere(pairs: seq<Pair>, a: string, keep: Reference -> bool)
    ensures Keep(pairs, a, keep) == Where(AliasRefs(pairs, a), keep)
  {
    if pairs != [] {
      var init := pairs[..|pairs| - 1];
      var r := pairs[|pairs| - 1].1;
      KeepWhere(init, a, keep);
      if pairs[|pairs| - 1].0 == a {
        var x := AliasRefs(init, a);
        assert AliasRefs(pairs, a) == x + [r];
        assert Keep(pairs, a, keep) == Keep(init, a, keep) + (if keep(r) then [r] else []);
        assert (x + [r])[..|x|] == x;
        assert Where(x + [r], keep) == Where(x, keep) + (if keep(r) then [r] else []);
      } else {
        assert Keep(pairs, a, keep) == Keep(init, a, keep);
        assert AliasRefs(pairs, a) == AliasRefs(init, a);
      }
    }
  }

  lemma {:induction false} AliasRefsConcat(s: seq<Pair>, t: seq<Pair>, a: string)
    ensures AliasRefs(s + t, a) == AliasRefs(s, a) + AliasRefs(t, a)
  {
    if t == [] {
      assert s + t == s;
    } else {
      assert (s + t)[..|s + t| - 1] == s + t[..|t| - 1];
      AliasRefsConcat(s, t[..|t| - 1], a);
    }
  }

  lemma {:induction false} AliasRefsKeyPairs(k: string, refs: seq<Reference>, a: string)
    ensures AliasRefs(KeyPairs(k, refs), a) == if k == a then refs else []
  {
    if refs != [] {
      var front, last := refs[..|refs| - 1], refs[|refs| - 1];
      AliasRefsKeyPairs(k, front, a);
      AliasRefsSnoc(KeyPairs(k, front), (k, last), a);
      assert front + [last] == refs;
    }
  }

  /** One more pair: its reference is appended when it is filed under `a`. */
  lemma AliasRefsSnoc(s: seq<Pair>, p: Pair, a: string)
    ensures AliasRefs(s + [p], a) == AliasRefs(s, a) + (if p.0 == a then [p.1] else [])
  {
    assert (s + [p])[..|s|] == s;
  }

  /** One more key visited. */
  lemma FlattenedAliasStep(m: RefMap, n: nat, a: string)
    requires 0 < n <= |m.keys|
    ensures AliasRefs(Flattened(m, n), a) ==
      AliasRefs(Flattened(m, n - 1), a) + (if m.keys[n - 1] == a then Refs(m, a) else [])
  {
    var k := m.keys[n - 1];
    AliasRefsConcat(Flattened(m, n - 1), KeyPairs(k, Refs(m, k)), a);
    AliasRefsKeyPairs(k, Refs(m, k), a);
  }

  /** The lists of the keys among the first `n` that equal `a`, concatenated. */
  function KeyedRefs(m: RefMap, n: nat, a: string): seq<Reference>
    requires n <= |m.keys|
  {
    if n == 0 then [] else KeyedRefs(m, n - 1, a) + (if m.keys[n - 1] == a then Refs(m, a) else [])
  }

  /** Over the first `n` keys, the pairs filed under `a` come from the keys equal to `a`. */
  lemma {:induction false} FlattenedAliasRefs(m: RefMap, n: nat, a: string)
    requires n <= |m.keys|
    ensures AliasRefs(Flattened(m, n), a) == KeyedRefs(m, n, a)
  {
    if n == 0 {
      assert Flattened(m, n) == [];
    } else {
      var n1: nat := n - 1;
      FlattenedAliasRefs(m, n1, a);
      FlattenedAliasStep(m, n, a);
    }
  }

  /** Nothing is filed under an alias not among the first `n` keys. */
  lemma {:induction false} KeyedRefsAbsent(m: RefMap, n: nat, a: string)
    requires n <= |m.keys| && forall q :: 0 <= q < n ==> m.keys[q] != a
    ensures KeyedRefs(m, n, a) == []
  {
    if n > 0 {
      var n1: nat := n - 1;
      KeyedRefsAbsent(m, n1, a);
      assert m.keys[n1] != a;
    }
  }

  /** When `a` sits at position `q` only, its list is collected once. */
  lemma {:induction false} KeyedRefsPresent(m: RefMap, n: nat, q: nat, a: string)
    requires q < n <= |m.keys| && m.keys[q] == a
    requires forall p :: 0 <= p < n && p != q ==> m.keys[p] != a
    ensures KeyedRefs(m, n, a) == Refs(m, a)
  {
    var n1: nat := n - 1;
    if q == n1 {
      KeyedRefsAbsent(m, n1, a);
    } else {
      KeyedRefsPresent(m, n1, q, a);
      assert m.keys[n1] != a;
    }
  }

  /** For a well-formed dictionary, the accepted references of all pairs filed
      under `a` are the accepted references of `a`'s list. */
  lemma AllPairsKeep(m: RefMap, a: string, keep: Reference -> bool)
    requires m.Valid()
    ensures Keep(AllPairs(m), a, keep) == Where(Refs(m, a), keep)
  {
    KeepWhere(AllPairs(m), a, keep);
    if a in m.keys {
      var q :| 0 <= q < |m.keys| && m.keys[q] == a;
      assert forall p :: 0 <= p < |m.keys| && p != q ==> m.keys[p] != m.keys[q];
      KeyedRefsPresent(m, |m.keys|, q, a);
    } else {
      KeyedRefsAbsent(m, |m.keys|, a);
    }
    FlattenedAliasRefs(m, |m.keys|, a);
  }

  /** The pairs visited are exactly the (alias, reference) memberships of `m`. */
  lemma {:induction false} FlattenedMembers(m: RefMap, n: nat, p: Pair)
    requires n <= |m.keys| && forall j :: 0 <= j < n ==> m.keys[j] in m.items
    ensures p in Flattened(m, n) <==> p.0 in m.keys[..n] && p.1 in m.items[p.0]
  {
    if n > 0 {
      var n1: nat := n - 1;
      var k := m.keys[n1];
      FlattenedMembers(m, n1, p);
      KeyPairsMembers(k, Refs(m, k), p);
      assert m.keys[..n][..n1] == m.keys[..n1];
      InSnoc(m.keys[..n], p.0);
    }
  }

  lemma {:induction false} KeyPairsMembers(k: string, refs: seq<Reference>, p: Pair)
    ensures p in KeyPairs(k, refs) <==> p.0 == k && p.1 in refs
  {
    if refs != [] {
      KeyPairsMembers(k, refs[..|refs| - 1], p);
      assert refs == refs[..|refs| - 1] + [refs[|refs| - 1]];
    }
  }

  // -------------------------------------------------------------------------
  // format_by_file: filename -> alias -> references
  // -------------------------------------------------------------------------

  type ByFileTable = map<string, map<string, seq<Reference>>>

  function HasFile(f: string): Reference -> bool {
    (r: Reference) => r.filename == Some(f)
  }

  /** `t[f][a]`, the empty list when either key is absent. */
  function FileCell(t: ByFileTable, f: string, a: string): seq<Reference> {
    if f in t && a in t[f] then t[f][a] else []
  }

  /** One step of the pivot: a reference with a filename is appended at
      `[filename][alias]`, creating the levels it needs; one without is dropped. */
  function FileInsert(t: ByFileTable, p: Pair): ByFileTable {
    match p.1.filename
    case None => t
    case Some(f) =>
      var inner := if f in t then t[f] else map[];
      var leaf := if p.0 in inner then inner[p.0] else [];
      t[f := inner[p.0 := leaf + [p.1]]]
  }

  function ByFile(pairs: seq<Pair>): ByFileTable {
    if pairs == [] then map[] else FileInsert(ByFile(pairs[..|pairs| - 1]), pairs[|pairs| - 1])
  }

  lemma ByFileSnoc(s: seq<Pair>, p: Pair)
    ensures ByFile(s + [p]) == FileInsert(ByFile(s), p)
  {
    assert (s + [p])[..|s|] == s;
  }

  /** The body of the inner loop of `format_by_file` for one reference: each
      missing level is created empty, then the reference is appended. */
  method AddToFileTable(t: ByFileTable, alias: string, ref: Reference) returns (r: ByFileTable)
    ensures r == FileInsert(t, (alias, ref))
  {
    r := t;
    if ref.filename.Some? {
      var f := ref.filename.value;
      var aliases := if f in r then r[f] else map[];
      var leaf := if alias in aliases then aliases[alias] else [];
      r := r[f := aliases[alias := leaf + [ref]]];
    }
  }

  /** Every cell of the pivot holds the references of its alias that carry its
      filename, in visiting order. */
  lemma {:induction false} ByFileCell(pairs: seq<Pair>, f: string, a: string)
    ensures FileCell(ByFile(pairs), f, a) == Keep(pairs, a, HasFile(f))
  {
    if pairs != [] {
      ByFileCell(pairs[..|pairs| - 1], f, a);
    }
  }

  /** No file of the pivot has an empty inner table, and no cell is an empty list. */
  ghost predicate NoEmptyFileLevels(t: ByFileTable) {
    (forall f :: f in t ==> t[f] != map[])
    && forall f, a :: f in t && a in t[f] ==> t[f][a] != []
  }

  lemma {:induction false} ByFileNoEmpty(pairs: seq<Pair>)
    ensures NoEmptyFileLevels(ByFile(pairs))
  {
    if pairs != [] {
      ByFileNoEmpty(pairs[..|pairs| - 1]);
      var (b, r) := pairs[|pairs| - 1];
      if r.filename.Some? {
        assert b in ByFile(pairs)[r.filename.value];
      }
    }
  }

  /** `format_by_file` on a well-formed dictionary: `[f][a]` holds exactly the
      references of alias `a` whose filename is `f`, in their order, so every
      reference with a filename appears once, at its own place, and those
      without one appear nowhere; there are no empty entries. */
  lemma ByFileMeaning(m: RefMap)
    requires m.Valid()
    ensures var t := ByFile(AllPairs(m));
      (forall f, a :: FileCell(t, f, a) == Where(Refs(m, a), HasFile(f)))
      && NoEmptyFileLevels(t)
  {
    ByFileNoEmpty(AllPairs(m));
    forall f, a
      ensures FileCell(ByFile(AllPairs(m)), f, a) == Where(Refs(m, a), HasFile(f))
    {
      ByFileCell(AllPairs(m), f, a);
      AllPairsKeep(m, a, HasFile(f));
    }
  }

  // -------------------------------------------------------------------------
  // format_by_object: filename -> object name -> alias -> references
  // -------------------------------------------------------------------------

  type ByObjectTable = map<string, map<string, map<string, seq<Reference>>>>

  function HasFileObject(f: string, o: string): Reference -> bool {
    (r: Reference) => r.filename == Some(f) && r.objectName == o
  }

  /** `t[f][o][a]`, the empty list when any key is absent. */
  function ObjectCell(t: ByObjectTable, f: string, o: string, a: string): seq<Reference> {
    if f in t && o in t[f] && a in t[f][o] then t[f][o][a] else []
  }

  function ObjectInsert(t: ByObjectTable, p: Pair): ByObjectTable {
    match p.1.filename
    case None => t
    case Some(f) =>
      var objs := if f in t then t[f] else map[];
      var o := p.1.objectName;
      var inner := if o in objs then objs[o] else map[];
      var leaf := if p.0 in inner then inner[p.0] else [];
      t[f := objs[o := inner[p.0 := leaf + [p.1]]]]
  }

  function ByObject(pairs: seq<Pair>): ByObjectTable {
    if pairs == [] then map[] else ObjectInsert(ByObject(pairs[..|pairs| - 1]), pairs[|pairs| - 1])
  }

  lemma ByObjectSnoc(s: seq<Pair>, p: Pair)
    ensures ByObject(s + [p]) == ObjectInsert(ByObject(s), p)
  {
    assert (s + [p])[..|s|] == s;
  }

  /** The body of the inner loop of `format_by_object` for one reference:
      each missing level is created empty, then the reference is appended. */
  method AddToObjectTable(t: ByObjectTable, alias: string, ref: Reference) returns (r: ByObjectTable)
    ensures r == ObjectInsert(t, (alias, ref))
  {
    r := t;
    if ref.filename.Some? {
      var f, o := ref.filename.value, ref.objectName;
      var objs := if f in r then r[f] else map[];
      var aliases := if o in objs then objs[o] else map[];
      var leaf := if alias in aliases then aliases[alias] else [];
      r := r[f := objs[o := aliases[alias := leaf + [ref]]]];
    }
  }

  /** No level of the object pivot is empty. */
  ghost predicate NoEmptyLevels(t: ByObjectTable) {
    (forall f :: f in t ==> t[f] != map[])
    && (forall f, o :: f in t && o in t[f] ==> t[f][o] != map[])
    && forall f, o, a :: f in t && o in t[f] && a in t[f][o] ==> t[f][o][a] != []
  }

  lemma {:induction false} ByObjectCell(pairs: seq<Pair>, f: string, o: string, a: string)
    ensures ObjectCell(ByObject(pairs), f, o, a) == Keep(pairs, a, HasFileObject(f, o))
  {
    if pairs != [] {
      ByObjectCell(pairs[..|pairs| - 1], f, o, a);
    }
  }

  lemma {:induction false} ByObjectNoEmpty(pairs: seq<Pair>)
    ensures NoEmptyLevels(ByObject(pairs))
  {
    if pairs != [] {
      ByObjectNoEmpty(pairs[..|pairs| - 1]);
      ObjectInsertNoEmpty(ByObject(pairs[..|pairs| - 1]), pairs[|pairs| - 1]);
    }
  }

  /** Filing one reference creates no empty level. */
  lemma ObjectInsertNoEmpty(t: ByObjectTable, p: Pair)
    requires NoEmptyLevels(t)
    ensures NoEmptyLevels(ObjectInsert(t, p))
  {
    if p.1.filename.Some? {
      InsertKeepsFiles(t, p);
      InsertKeepsObjects(t, p);
      InsertKeepsCells(t, p);
    }
  }

  lemma InsertKeepsFiles(t: ByObjectTable, p: Pair)
    requires NoEmptyLevels(t) && p.1.filename.Some?
    ensures forall f :: f in ObjectInsert(t, p) ==> ObjectInsert(t, p)[f] != map[]
  {
    var u := ObjectInsert(t, p);
    forall f | f in u
      ensures u[f] != map[]
    {
      if f == p.1.filename.value {
        assert p.1.objectName in u[f];
      }
    }
  }

  lemma InsertKeepsObjects(t: ByObjectTable, p: Pair)
    requires NoEmptyLevels(t) && p.1.filename.Some?
    ensures forall f, o :: f in ObjectInsert(t, p) && o in ObjectInsert(t, p)[f] ==> ObjectInsert(t, p)[f][o] != map[]
  {
    var u := ObjectInsert(t, p);
    forall f, o | f in u && o in u[f]
      ensures u[f][o] != map[]
    {
      if f == p.1.filename.value && o == p.1.objectName {
        assert p.0 in u[f][o];
      }
    }
  }

  lemma InsertKeepsCells(t: ByObjectTable, p: Pair)
    requires NoEmptyLevels(t) && p.1.filename.Some?
    ensures forall f, o, a :: f in ObjectInsert(t, p) && o in ObjectInsert(t, p)[f] && a in ObjectInsert(t, p)[f][o] ==>
      ObjectInsert(t, p)[f][o][a] != []
  {
    var u := ObjectInsert(t, p);
    forall f, o, a | f in u && o in u[f] && a in u[f][o]
      ensures u[f][o][a] != []
    {
      if f == p.1.filename.value && o == p.1.objectName && a == p.0 {
        assert |u[f][o][a]| > 0;
      }
    }
  }

  /** `format_by_object` on a well-formed dictionary: `[f][o][a]` holds exactly
      the references of alias `a` whose filename is `f` and whose object is
      `o`, in their order; no level of the result is empty. */
  lemma ByObjectMeaning(m: RefMap)
    requires m.Valid()
    ensures var t := ByObject(AllPairs(m));
      (forall f, o, a :: ObjectCell(t, f, o, a) == Where(Refs(m, a), HasFileObject(f, o)))
      && NoEmptyLevels(t)
  {
    ByObjectNoEmpty(AllPairs(m));
    forall f, o, a
      ensures ObjectCell(ByObject(AllPairs(m)), f, o, a) == Where(Refs(m, a), HasFileObject(f, o))
    {
      ByObjectCell(AllPairs(m), f, o, a);
      AllPairsKeep(m, a, HasFileObject(f, o));
    }
  }

  // -------------------------------------------------------------------------
  // print_empty_files: the set logic
  // -------------------------------------------------------------------------

  /** The non-empty filenames carried by `refs`. */
  function FilesOf(refs: seq<Reference>): set<string> {
    set r | r in refs && r.filename.Some? && r.filename.value != "" :: r.filename.value
  }

  /** One more reference: its filename joins the set when it is present and non-empty. */
  lemma FilesOfSnoc(refs: seq<Reference>, j: nat)
    requires j < |refs|
    ensures FilesOf(refs[..j + 1]) ==
      FilesOf(refs[..j]) + (if refs[j].filename.Some? && refs[j].filename.value != "" then {refs[j].filename.value} else {})
  {
    assert refs[..j + 1] == refs[..j] + [refs[j]];
  }

  /** The inner loop of `print_empty_files` for one alias: the non-empty
      filenames of its references are added to `acc`. */
  method AddFilesOf(acc: set<string>, refs: seq<Reference>) returns (r: set<string>)
    ensures r == acc + FilesOf(refs)
  {
    r := acc;
    var j := 0;
    while j < |refs|
      invariant j <= |refs|
      invariant r == acc + FilesOf(refs[..j])
    {
      FilesOfSnoc(refs, j);
      if refs[j].filename.Some? && refs[j].filename.value != "" {
        r := r + {refs[j].filename.value};
      }
      j := j + 1;
    }
    assert refs[..j] == refs;
  }

  /** The non-empty filenames carried by the references of the aliases `keys`. */
  function FilesUnder(m: RefMap, keys: seq<string>): set<string> {
    set a, r | a in keys && a in m.items && r in m.items[a] && r.filename.Some? && r.filename.value != "" :: r.filename.value
  }

  /** One more alias: the filenames of its references join the set. */
  lemma FilesUnderSnoc(m: RefMap, keys: seq<string>, i: nat)
    requires i < |keys| && keys[i] in m.items
    ensures FilesUnder(m, keys[..i + 1]) == FilesUnder(m, keys[..i]) + FilesOf(m.items[keys[i]])
  {
    var k := keys[i];
    InSnoc(keys[..i + 1], k);
    assert keys[..i + 1][..i] == keys[..i];
    forall x | x in FilesUnder(m, keys[..i + 1])
      ensures x in FilesUnder(m, keys[..i]) + FilesOf(m.items[k])
    {
      var a, r :| a in keys[..i + 1] && a in m.items && r in m.items[a] && r.filename.Some? && r.filename.value != "" && x == r.filename.value;
      InSnoc(keys[..i + 1], a);
    }
  }

  /** `Where` keeps something exactly when some element is accepted. */
  lemma {:induction false} WhereNonEmpty(refs: seq<Reference>, keep: Reference -> bool)
    ensures Where(refs, keep) != [] <==> exists r :: r in refs && keep(r)
  {
    if refs != [] {
      var init := refs[..|refs| - 1];
      WhereNonEmpty(init, keep);
      assert refs == init + [refs[|refs| - 1]];
    }
  }

  /** The files with references are exactly the non-empty names that have an
      entry in the `format_by_file` view. */
  lemma FilesUnderByFile(m: RefMap, f: string)
    requires m.Valid()
    ensures f in FilesUnder(m, m.keys) <==> f != "" && f in ByFile(AllPairs(m))
  {
    var t := ByFile(AllPairs(m));
    ByFileMeaning(m);
    if f in FilesUnder(m, m.keys) {
      var a, r :| a in m.keys && a in m.items && r in m.items[a] && r.filename == Some(f);
      WhereNonEmpty(Refs(m, a), HasFile(f));
      assert FileCell(t, f, a) != [];
    }
    if f != "" && f in t {
      var a :| a in t[f];
      assert FileCell(t, f, a) != [];
      WhereNonEmpty(Refs(m, a), HasFile(f));
      var r :| r in Refs(m, a) && HasFile(f)(r);
      assert a in m.keys && a in m.items && r in m.items[a];
    }
  }

  /** The loop of `filter_by_patterns` over the dictionary: each selected
      alias is copied, with its list, into a new dictionary. */
  method FilterKeys(m: RefMap, patterns: seq<string>, matches: (string, string) -> bool) returns (filtered: RefMap)
    requires m.Valid()
    ensures filtered == Filtered(m, patterns, matches)
  {
    filtered := Empty();
    var i := 0;
    while i < |m.keys|
      invariant i <= |m.keys|
      invariant filtered == FilteredUpTo(m, i, patterns, matches)
    {
      var alias := m.keys[i];
      FilteredUpToStep(m, i, patterns, matches);
      var selected := AnyPatternMatches(patterns, matches, alias);
      if selected {
        filtered := Put(filtered, alias, m.items[alias]);
      }
      i := i + 1;
    }
  }

  /** One more key of the dictionary in the filtering loop. */
  lemma FilteredUpToStep(m: RefMap, i: nat, patterns: seq<string>, matches: (string, string) -> bool)
    requires i < |m.keys| && m.Valid()
    ensures m.keys[i] in m.items
    ensures FilteredUpTo(m, i + 1, patterns, matches) ==
      if Selects(patterns, matches, m.keys[i]) then Put(FilteredUpTo(m, i, patterns, matches), m.keys[i], m.items[m.keys[i]])
      else FilteredUpTo(m, i, patterns, matches)
  {
  }

  /** The inner loop of `filter_by_patterns`: whether some non-empty pattern
      matches the alias; the scan stops at the first one that does. */
  method AnyPatternMatches(patterns: seq<string>, matches: (string, string) -> bool, alias: string)
    returns (selected: bool)
    ensures selected <==> Selects(patterns, matches, alias)
  {
    var j := 0;
    while j < |patterns|
      invariant j <= |patterns|
      invariant forall q :: 0 <= q < j ==> !(patterns[q] != "" && matches(alias, patterns[q]))
    {
      if patterns[j] != "" && matches(alias, patterns[j]) {
        return true;
      }
      j := j + 1;
    }
    return false;
  }

  /** The inner loop of `format_by_file` for one alias: its references are
      added in order. */
  method AddAliasToFileTable(t: ByFileTable, ghost done: seq<Pair>, alias: string, refs: seq<Reference>)
    returns (r: ByFileTable)
    requires t == ByFile(done)
    ensures r == ByFile(done + KeyPairs(alias, refs))
  {
    r := t;
    var j := 0;
    ghost var cur := done;
    assert done + KeyPairs(alias, refs[..j]) == done;
    while j < |refs|
      invariant j <= |refs|
      invariant cur == done + KeyPairs(alias, refs[..j])
      invariant r == ByFile(cur)
    {
      PairsStep(done, alias, refs, j);
      ByFileSnoc(cur, (alias, refs[j]));
      r := AddToFileTable(r, alias, refs[j]);
      cur := cur + [(alias, refs[j])];
      j := j + 1;
    }
    assert refs[..j] == refs;
  }

  /** The inner loop of `format_by_object` for one alias: its references are
      added in order. */
  method AddAliasToObjectTable(t: ByObjectTable, ghost done: seq<Pair>, alias: string, refs: seq<Reference>)
    returns (r: ByObjectTable)
    requires t == ByObject(done)
    ensures r == ByObject(done + KeyPairs(alias, refs))
  {
    r := t;
    var j := 0;
    ghost var cur := done;
    assert done + KeyPairs(alias, refs[..j]) == done;
    while j < |refs|
      invariant j <= |refs|
      invariant cur == done + KeyPairs(alias, refs[..j])
      invariant r == ByObject(cur)
    {
      PairsStep(done, alias, refs, j);
      ByObjectSnoc(cur, (alias, refs[j]));
      r := AddToObjectTable(r, alias, refs[j]);
      cur := cur + [(alias, refs[j])];
      j := j + 1;
    }
    assert refs[..j] == refs;
  }

  class ReferenceOutputter {
    var references: RefMap
    var processedFiles: set<string>

    /** The dictionary keeps its keys listed once each. */
    ghost predicate Valid()
      reads this
    {
      references.Valid()
    }

    /** `__init__`: the outputter holds the dictionary and the processed names it is given. */
    constructor (references: RefMap, processedFiles: set<string>)
      requires references.Valid()
      ensures Valid()
      ensures this.references == references && this.processedFiles == processedFiles
    {
      this.references := references;
      this.processedFiles := processedFiles;
    }

    /** `filter_by_patterns`: with no pattern, or only empty ones, nothing
        changes; otherwise only the aliases some non-empty pattern matches are
        kept. `matches(name, pattern)` stands for `fnmatch.fnmatch`. */
    method FilterByPatterns(patterns: seq<string>, matches: (string, string) -> bool)
      requires Valid()
      modifies this
      ensures Valid()
      ensures processedFiles == old(processedFiles)
      ensures references == if AllBlank(patterns) then old(references) else Filtered(old(references), patterns, matches)
    {
      if patterns == [] || AllBlank(patterns) {
        return;
      }
      references := FilterKeys(references, patterns, matches);
    }

    /** `format_by_object`: the references pivoted to filename, object name, alias. */
    method FormatByObject() returns (byFileObj: ByObjectTable)
      requires Valid()
      ensures byFileObj == ByObject(AllPairs(references))
    {
      var m := references;
      if m.keys == [] {
        return map[];
      }
      byFileObj := map[];
      var i := 0;
      while i < |m.keys|
        invariant i <= |m.keys|
        invariant byFileObj == ByObject(Flattened(m, i))
      {
        var alias := m.keys[i];
        byFileObj := AddAliasToObjectTable(byFileObj, Flattened(m, i), alias, m.items[alias]);
        assert Flattened(m, i + 1) == Flattened(m, i) + KeyPairs(alias, m.items[alias]);
        i := i + 1;
      }
    }

    /** `format_by_file`: the references pivoted to filename, alias. */
    method FormatByFile() returns (byFile: ByFileTable)
      requires Valid()
      ensures byFile == ByFile(AllPairs(references))
    {
      var m := references;
      if m.keys == [] {
        return map[];
      }
      byFile := map[];
      var i := 0;
      while i < |m.keys|
        invariant i <= |m.keys|
        invariant byFile == ByFile(Flattened(m, i))
      {
        var alias := m.keys[i];
        byFile := AddAliasToFileTable(byFile, Flattened(m, i), alias, m.items[alias]);
        assert Flattened(m, i + 1) == Flattened(m, i) + KeyPairs(alias, m.items[alias]);
        i := i + 1;
      }
    }

    /** The set `print_empty_files` reports: processed files that no
        reference names. */
    method EmptyFiles() returns (empty: set<string>)
      requires Valid()
      ensures empty == processedFiles - FilesUnder(references, references.keys)
    {
      var m := references;
      var filesWithRefs: set<string> := {};
      var i := 0;
      while i < |m.keys|
        invariant i <= |m.keys|
        invariant filesWithRefs == FilesUnder(m, m.keys[..i])
      {
        FilesUnderSnoc(m, m.keys, i);
        filesWithRefs := AddFilesOf(filesWithRefs, m.items[m.keys[i]]);
        i := i + 1;
      }
      assert m.keys[..i] == m.keys;
      empty := processedFiles - filesWithRefs;
    }
  }

  /** A file is reported empty exactly when it was processed and either its
      name is empty or it has no entry in the `format_by_file` view. */
  lemma EmptyFilesMeaning(m: RefMap, processed: set<string>, f: string)
    requires m.Valid()
    ensures f in processed - FilesUnder(m, m.keys)
        <==> f in processed && (f == "" || f !in ByFile(AllPairs(m)))
  {
    FilesUnderByFile(m, f);
  }
}
