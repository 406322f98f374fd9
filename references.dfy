/** Reference records and the alias-keyed lists that every extractor, merger
    and formatter in the package passes around. */
module References {
  import opened Wrappers
  import opened OrderedMaps

  /** One place where an object's expression names a spreadsheet cell. */
  datatype Reference = Reference(
    objectName: string,
    expression: string,
    filename: Option<string>,
    spreadsheet: Option<string>,
    alias: string)

  /** `dict[str, list[Reference]]`: for each alias, its references in discovery order. */
  type RefMap = OrderedMap<seq<Reference>>

  /** The (alias, reference) pairs the object parsers emit. */
  type Pair = (string, Reference)

  /** The references filed under `a`, the empty list when `a` is absent. */
  function Refs(m: RefMap, a: string): seq<Reference> {
    if a in m.items then m.items[a] else []
  }

  function Len(items: map<string, seq<Reference>>, k: string): nat {
    if k in items then |items[k]| else 0
  }

  /** Total length of the lists listed under `keys`. */
  function SumLens(keys: seq<string>, items: map<string, seq<Reference>>): nat {
    if keys == [] then 0 else SumLens(keys[..|keys| - 1], items) + Len(items, keys[|keys| - 1])
  }

  /** The number of references held in `m`, over all aliases. */
  function TotalRefs(m: RefMap): nat {
    SumLens(m.keys, m.items)
  }

  /** Changing the list of one listed key changes the sum by the difference of
      lengths; changing an unlisted key changes nothing. */
  lemma {:induction false} SumLensUpdate(keys: seq<string>, items: map<string, seq<Reference>>, k: string, v: seq<Reference>)
    requires Distinct(keys)
    ensures SumLens(keys, items[k := v]) + (if k in keys then Len(items, k) else 0)
         == SumLens(keys, items) + (if k in keys then |v| else 0)
  {
    if keys != [] {
      var init, last := keys[..|keys| - 1], keys[|keys| - 1];
      assert keys == init + [last];
      assert Distinct(init);
      assert k in keys <==> k in init || k == last;
      assert k == last ==> k !in init;
      SumLensUpdate(init, items, k, v);
    }
  }

  /** Appending `v` to the list of `k`, creating the key when absent, adds
      exactly `|v|` references. */
  lemma AppendTotal(m: RefMap, k: string, v: seq<Reference>)
    requires m.Valid()
    ensures TotalRefs(Put(m, k, Refs(m, k) + v)) == TotalRefs(m) + |v|
  {
    var r := Put(m, k, Refs(m, k) + v);
    SumLensUpdate(m.keys, m.items, k, Refs(m, k) + v);
    if k !in m.items {
      assert r.keys[..|r.keys| - 1] == m.keys;
    }
  }

  // -------------------------------------------------------------------------
  // Grouping (alias, reference) pairs by alias
  // -------------------------------------------------------------------------

  /** The references of `pairs` filed under alias `a`, in input order. */
  function AliasRefs(pairs: seq<Pair>, a: string): (r: seq<Reference>)
    ensures |r| <= |pairs|
  {
    if pairs == [] then []
    else AliasRefs(pairs[..|pairs| - 1], a) + (if pairs[|pairs| - 1].0 == a then [pairs[|pairs| - 1].1] else [])
  }

  /** The dictionary the grouping loop builds from `pairs`: each pair's
      reference appended to the list of its alias, a new alias created at the end. */
  function Grouped(pairs: seq<Pair>): (g: RefMap)
    ensures g.Valid()
  {
    if pairs == [] then Empty()
    else
      var g := Grouped(pairs[..|pairs| - 1]);
      var (a, r) := pairs[|pairs| - 1];
      Put(g, a, Refs(g, a) + [r])
  }

  /** One more pair: its reference is appended to the list of its alias. */
  lemma GroupedSnoc(seen: seq<Pair>, p: Pair)
    ensures Grouped(seen + [p]) == Put(Grouped(seen), p.0, Refs(Grouped(seen), p.0) + [p.1])
  {
    assert (seen + [p])[..|seen|] == seen;
  }

  /** `_group_references_by_alias`, and the grouping loops written inline in
      the document parsers. */
  method GroupByAlias(pairs: seq<Pair>) returns (refs: RefMap)
    ensures refs == Grouped(pairs)
  {
    refs := Empty();
    for i := 0 to |pairs|
      invariant refs == Grouped(pairs[..i])
    {
      var (alias, ref) := pairs[i];
      GroupedSnoc(pairs[..i], pairs[i]);
      assert pairs[..i + 1] == pairs[..i] + [pairs[i]];
      refs := CreateAndExtend(refs, alias, [ref]);
    }
    assert pairs[..|pairs|] == pairs;
  }

  /** `g` after the pairs' references are appended to their aliases' lists
      one after the other. */
  function GroupInto(g: RefMap, pairs: seq<Pair>): (r: RefMap)
    ensures g.Valid() ==> r.Valid()
  {
    if pairs == [] then g
    else
      var h := GroupInto(g, pairs[..|pairs| - 1]);
      var (a, r) := pairs[|pairs| - 1];
      Put(h, a, Refs(h, a) + [r])
  }

  /** One more pair: its reference is appended to the list of its alias,
      created when absent, as the grouping loops do it. */
  lemma GroupIntoStep(g: RefMap, pairs: seq<Pair>, j: nat)
    requires j < |pairs|
    ensures var h := GroupInto(g, pairs[..j]);
      var c := if pairs[j].0 in h.items then h else Put(h, pairs[j].0, []);
      GroupInto(g, pairs[..j + 1]) == Put(c, pairs[j].0, c.items[pairs[j].0] + [pairs[j].1])
  {
    assert pairs[..j + 1][..j] == pairs[..j];
    CreateThenExtend(GroupInto(g, pairs[..j]), pairs[j].0, [pairs[j].1]);
  }

  /** The grouping loop run over `pairs` on an existing dictionary `g`. */
  method GroupAppend(g: RefMap, pairs: seq<Pair>) returns (refs: RefMap)
    ensures refs == GroupInto(g, pairs)
  {
    refs := g;
    for j := 0 to |pairs|
      invariant refs == GroupInto(g, pairs[..j])
    {
      GroupIntoStep(g, pairs, j);
      var (alias, ref) := pairs[j];
      if alias !in refs.items {
        refs := Put(refs, alias, []);
      }
      refs := Put(refs, alias, refs.items[alias] + [ref]);
    }
    assert pairs[..|pairs|] == pairs;
  }

  /** Grouping a concatenation is grouping the second part into the grouping
      of the first. */
  lemma {:induction false} GroupedConcat(s: seq<Pair>, t: seq<Pair>)
    ensures Grouped(s + t) == GroupInto(Grouped(s), t)
    decreases |t|
  {
    if t == [] {
      assert s + t == s;
    } else {
      GroupedConcat(s, t[..|t| - 1]);
      assert (s + t)[..|s + t| - 1] == s + t[..|t| - 1];
    }
  }

  /** The grouping files every reference under its own alias, in input order. */
  lemma {:induction false} GroupedRefs(pairs: seq<Pair>, a: string)
    ensures Refs(Grouped(pairs), a) == AliasRefs(pairs, a)
  {
    if pairs != [] {
      GroupedRefs(pairs[..|pairs| - 1], a);
    }
  }

  /** The keys of a grouping are exactly the aliases that occur. */
  lemma {:induction false} GroupedKeys(pairs: seq<Pair>, a: string)
    ensures a in Grouped(pairs).items <==> exists p :: p in pairs && p.0 == a
  {
    if pairs != [] {
      var init := pairs[..|pairs| - 1];
      var last := pairs[|pairs| - 1];
      GroupedKeys(init, a);
      forall p | p in pairs
        ensures p in init || p == last
      {
        InSnoc(pairs, p);
      }
      if exists p :: p in init && p.0 == a {
        var p :| p in init && p.0 == a;
        InSnoc(pairs, p);
      }
    }
  }

  /** The aliases of `pairs` in the order they first occur, each listed once. */
  function FirstSeen(pairs: seq<Pair>): seq<string> {
    if pairs == [] then []
    else
      var init := pairs[..|pairs| - 1];
      var a := pairs[|pairs| - 1].0;
      FirstSeen(init) + (if exists p :: p in init && p.0 == a then [] else [a])
  }

  /** An alias is listed by `FirstSeen` exactly when it occurs. */
  lemma {:induction false} FirstSeenMembers(pairs: seq<Pair>, a: string)
    ensures a in FirstSeen(pairs) <==> exists p :: p in pairs && p.0 == a
  {
    if pairs != [] {
      var init := pairs[..|pairs| - 1];
      FirstSeenMembers(init, a);
      forall p | p in pairs
        ensures p in init || p == pairs[|pairs| - 1]
      {
        InSnoc(pairs, p);
      }
      if exists p :: p in init && p.0 == a {
        var p :| p in init && p.0 == a;
        InSnoc(pairs, p);
      }
    }
  }

  /** `FirstSeen` lists no alias twice. */
  lemma {:induction false} FirstSeenDistinct(pairs: seq<Pair>)
    ensures Distinct(FirstSeen(pairs))
  {
    if pairs != [] {
      var init := pairs[..|pairs| - 1];
      var a := pairs[|pairs| - 1].0;
      FirstSeenDistinct(init);
      FirstSeenMembers(init, a);
    }
  }

  /** An alias listed before another by `FirstSeen` occurs in `pairs` before
      any occurrence of the other. */
  lemma {:induction false} FirstSeenOrder(pairs: seq<Pair>, i: nat, j: nat)
    requires i < j < |FirstSeen(pairs)|
    ensures exists m ::
      && 0 <= m < |pairs| && pairs[m].0 == FirstSeen(pairs)[i]
      && forall n :: 0 <= n <= m ==> pairs[n].0 != FirstSeen(pairs)[j]
  {
    var init := pairs[..|pairs| - 1];
    var f := FirstSeen(pairs);
    assert f[..|FirstSeen(init)|] == FirstSeen(init);
    if j < |FirstSeen(init)| {
      FirstSeenOrder(init, i, j);
      var m :| 0 <= m < |init| && init[m].0 == f[i] && forall n :: 0 <= n <= m ==> init[n].0 != f[j];
      assert forall n :: 0 <= n <= m ==> pairs[n] == init[n];
    } else {
      var a := pairs[|pairs| - 1].0;
      assert f[j] == a && !exists p :: p in init && p.0 == a;
      FirstSeenMembers(init, f[i]);
      var p :| p in init && p.0 == f[i];
      var m :| 0 <= m < |init| && init[m] == p;
      forall n | 0 <= n <= m
        ensures pairs[n].0 != a
      {
        assert pairs[n] == init[n] && init[n] in init;
      }
    }
  }

  /** The grouped dictionary lists each alias once, in the order it first
      occurs among the pairs. */
  lemma {:induction false} GroupedOrder(pairs: seq<Pair>)
    ensures Grouped(pairs).keys == FirstSeen(pairs)
  {
    if pairs != [] {
      var init := pairs[..|pairs| - 1];
      GroupedOrder(init);
      GroupedKeys(init, pairs[|pairs| - 1].0);
    }
  }

  /** No list of a grouping is empty. */
  lemma {:induction false} GroupedNonEmpty(pairs: seq<Pair>, a: string)
    requires a in Grouped(pairs).items
    ensures Grouped(pairs).items[a] != []
  {
    GroupedRefs(pairs, a);
    GroupedKeys(pairs, a);
    var p :| p in pairs && p.0 == a;
    var i :| 0 <= i < |pairs| && pairs[i] == p;
    AliasRefsAt(pairs, a, i);
  }

  lemma {:induction false} AliasRefsAt(pairs: seq<Pair>, a: string, i: nat)
    requires i < |pairs| && pairs[i].0 == a
    ensures pairs[i].1 in AliasRefs(pairs, a)
  {
    var init := pairs[..|pairs| - 1];
    if i < |pairs| - 1 {
      AliasRefsAt(init, a, i);
    }
  }

  /** Every pair's reference is filed under its alias. */
  lemma GroupedHas(pairs: seq<Pair>, p: Pair)
    requires p in pairs
    ensures p.1 in Refs(Grouped(pairs), p.0)
  {
    var i :| 0 <= i < |pairs| && pairs[i] == p;
    AliasRefsAt(pairs, p.0, i);
    GroupedRefs(pairs, p.0);
  }

  /** Conversely, every reference listed under `a` comes from a pair of alias `a`. */
  lemma {:induction false} AliasRefsFrom(pairs: seq<Pair>, a: string, r: Reference)
    requires r in AliasRefs(pairs, a)
    ensures exists p :: p in pairs && p.0 == a && p.1 == r
  {
    var init := pairs[..|pairs| - 1];
    if r in AliasRefs(init, a) {
      AliasRefsFrom(init, a, r);
      var p :| p in init && p.0 == a && p.1 == r;
      assert p in pairs;
    } else {
      assert pairs[|pairs| - 1] in pairs;
    }
  }

  /** Grouping neither loses nor duplicates a reference. */
  lemma {:induction false} GroupedTotal(pairs: seq<Pair>)
    ensures TotalRefs(Grouped(pairs)) == |pairs|
  {
    if pairs != [] {
      var init := pairs[..|pairs| - 1];
      GroupedTotal(init);
      AppendTotal(Grouped(init), pairs[|pairs| - 1].0, [pairs[|pairs| - 1].1]);
    }
  }

  // -------------------------------------------------------------------------
  // The append-only merge of one alias map into another
  // -------------------------------------------------------------------------

  /** The incoming list of `k`, the empty list when `k` is absent. */
  function Get(items: map<string, seq<Reference>>, k: string): seq<Reference> {
    if k in items then items[k] else []
  }

  /** The dictionary `all` becomes when the entries of `items` listed in `ks`
      are merged into it one after the other: each key is created at the end
      when absent, then its incoming list is appended to it. */
  function MergeKeys(all: RefMap, ks: seq<string>, items: map<string, seq<Reference>>): (r: RefMap)
    ensures all.Valid() ==> r.Valid()
  {
    if ks == [] then all
    else
      var m := MergeKeys(all, ks[..|ks| - 1], items);
      var k := ks[|ks| - 1];
      Put(m, k, Refs(m, k) + Get(items, k))
  }

  /** The Python idiom "create the key with an empty list if absent, then
      extend the list" is one `Put` of the extended list. */
  lemma CreateThenExtend(m: RefMap, k: string, v: seq<Reference>)
    ensures var c := if k in m.items then m else Put(m, k, []);
      Put(c, k, c.items[k] + v) == Put(m, k, Refs(m, k) + v)
  {
  }

  /** The idiom written out: `if k not in m: m[k] = []`, then the list of `k`
      is extended by `v`. */
  method CreateAndExtend(m: RefMap, k: string, v: seq<Reference>) returns (r: RefMap)
    ensures r == Put(m, k, Refs(m, k) + v)
  {
    CreateThenExtend(m, k, v);
    r := m;
    if k !in r.items {
      r := Put(r, k, []);
    }
    r := Put(r, k, r.items[k] + v);
  }

  /** `_merge_references(all, incoming)` as a value: `all` after the merge. */
  function Merged(all: RefMap, incoming: RefMap): (r: RefMap)
    ensures all.Valid() ==> r.Valid()
  {
    MergeKeys(all, incoming.keys, incoming.items)
  }

  /** `_merge_references`: for each incoming alias, create the key if absent,
      then extend its list. The caller's dictionary is the returned one. */
  method MergeReferences(all: RefMap, incoming: RefMap) returns (merged: RefMap)
    requires all.Valid() && incoming.Valid()
    ensures merged == Merged(all, incoming)
  {
    merged := all;
    for i := 0 to |incoming.keys|
      invariant merged == MergeKeys(all, incoming.keys[..i], incoming.items)
    {
      MergeKeysStep(all, incoming.keys, incoming.items, i);
      var alias := incoming.keys[i];
      assert alias in incoming.items;
      merged := CreateAndExtend(merged, alias, incoming.items[alias]);
    }
    assert incoming.keys[..|incoming.keys|] == incoming.keys;
  }

  /** One more incoming key merged. */
  lemma MergeKeysStep(all: RefMap, ks: seq<string>, items: map<string, seq<Reference>>, i: nat)
    requires i < |ks|
    ensures var m := MergeKeys(all, ks[..i], items);
      MergeKeys(all, ks[..i + 1], items) == Put(m, ks[i], Refs(m, ks[i]) + Get(items, ks[i]))
  {
    assert ks[..i + 1][..i] == ks[..i];
  }

  /** The merge is append-only: afterwards the keys are the old and the
      incoming ones, each list is the old list followed by the incoming one
      (nothing is deduplicated), and keys that do not come in are untouched. */
  lemma {:induction false} MergeKeysAppends(all: RefMap, ks: seq<string>, items: map<string, seq<Reference>>, a: string)
    requires Distinct(ks)
    ensures Refs(MergeKeys(all, ks, items), a) == Refs(all, a) + (if a in ks then Get(items, a) else [])
  {
    if ks != [] {
      var init, k := ks[..|ks| - 1], ks[|ks| - 1];
      DistinctInit(ks);
      MergeKeysAppends(all, init, items, a);
      ExtendedRefs(MergeKeys(all, init, items), k, Get(items, k), a);
      InSnoc(ks, a);
    }
  }

  /** Extending the list of `k` by `v` changes no other list. */
  lemma ExtendedRefs(m: RefMap, k: string, v: seq<Reference>, a: string)
    ensures Refs(Put(m, k, Refs(m, k) + v), a) == Refs(m, a) + (if a == k then v else [])
  {
  }

  /** The keys after a merge are the old ones and the incoming ones. */
  lemma {:induction false} MergeKeysHas(all: RefMap, ks: seq<string>, items: map<string, seq<Reference>>, a: string)
    ensures a in MergeKeys(all, ks, items).items <==> a in all.items || a in ks
  {
    if ks != [] {
      var init, k := ks[..|ks| - 1], ks[|ks| - 1];
      MergeKeysHas(all, init, items, a);
      InSnoc(ks, a);
    }
  }

  /** The old keys keep their order, ahead of the new ones. */
  lemma {:induction false} MergeKeysPrefix(all: RefMap, ks: seq<string>, items: map<string, seq<Reference>>)
    ensures |MergeKeys(all, ks, items).keys| >= |all.keys|
    ensures MergeKeys(all, ks, items).keys[..|all.keys|] == all.keys
  {
    if ks != [] {
      var init, k := ks[..|ks| - 1], ks[|ks| - 1];
      MergeKeysPrefix(all, init, items);
      var m := MergeKeys(all, init, items);
      assert (m.keys + [k])[..|all.keys|] == m.keys[..|all.keys|];
    }
  }

  /** The keys of `ks` that `known` lacks, in the order of `ks`. */
  function NewKeys(known: map<string, seq<Reference>>, ks: seq<string>): seq<string> {
    if ks == [] then []
    else NewKeys(known, ks[..|ks| - 1]) + (if ks[|ks| - 1] in known then [] else [ks[|ks| - 1]])
  }

  /** Merging distinct keys lists the old keys first, then the incoming keys
      that were new, in incoming order. */
  lemma {:induction false} MergeKeysOrder(all: RefMap, ks: seq<string>, items: map<string, seq<Reference>>)
    requires Distinct(ks)
    ensures MergeKeys(all, ks, items).keys == all.keys + NewKeys(all.items, ks)
  {
    if ks != [] {
      var init, k := ks[..|ks| - 1], ks[|ks| - 1];
      DistinctInit(ks);
      MergeKeysOrder(all, init, items);
      MergeKeysHas(all, init, items, k);
      if k !in all.items {
        ConcatAssoc(all.keys, NewKeys(all.items, init), [k]);
      }
    }
  }

  /** The iteration order after `_merge_references`. */
  lemma MergedOrder(all: RefMap, incoming: RefMap)
    requires incoming.Valid()
    ensures Merged(all, incoming).keys == all.keys + NewKeys(all.items, incoming.keys)
  {
    MergeKeysOrder(all, incoming.keys, incoming.items);
  }

  /** After a merge each list is the old list followed by the incoming one. */
  lemma MergedRefs(all: RefMap, incoming: RefMap, a: string)
    requires incoming.Valid()
    ensures Refs(Merged(all, incoming), a) == Refs(all, a) + Refs(incoming, a)
  {
    MergeKeysAppends(all, incoming.keys, incoming.items, a);
  }

  /** The merge seen from a whole incoming dictionary. */
  lemma MergedAppends(all: RefMap, incoming: RefMap, a: string)
    requires all.Valid() && incoming.Valid()
    ensures a in Merged(all, incoming).items <==> a in all.items || a in incoming.items
    ensures Refs(Merged(all, incoming), a) == Refs(all, a) + Refs(incoming, a)
    ensures a !in incoming.items ==> Refs(Merged(all, incoming), a) == Refs(all, a)
    ensures |Merged(all, incoming).keys| >= |all.keys|
    ensures Merged(all, incoming).keys[..|all.keys|] == all.keys
  {
    MergeKeysAppends(all, incoming.keys, incoming.items, a);
    MergeKeysHas(all, incoming.keys, incoming.items, a);
    MergeKeysPrefix(all, incoming.keys, incoming.items);
  }

  /** A merge adds exactly the incoming references to the count. */
  lemma {:induction false} MergeKeysTotal(all: RefMap, ks: seq<string>, items: map<string, seq<Reference>>)
    requires all.Valid()
    ensures TotalRefs(MergeKeys(all, ks, items)) == TotalRefs(all) + SumLens(ks, items)
  {
    if ks != [] {
      var init, k := ks[..|ks| - 1], ks[|ks| - 1];
      MergeKeysTotal(all, init, items);
      AppendTotal(MergeKeys(all, init, items), k, Get(items, k));
    }
  }

  lemma MergedTotal(all: RefMap, incoming: RefMap)
    requires all.Valid()
    ensures TotalRefs(Merged(all, incoming)) == TotalRefs(all) + TotalRefs(incoming)
  {
    MergeKeysTotal(all, incoming.keys, incoming.items);
  }
}
