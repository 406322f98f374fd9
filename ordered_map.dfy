/** Python dictionaries whose iteration order is observable: a sequence of
    distinct keys in insertion order, and the map from keys to values. */
module OrderedMaps {

  predicate Distinct<T(==)>(s: seq<T>) {
    forall i, j :: 0 <= i < j < |s| ==> s[i] != s[j]
  }

  /** Dropping the last element of a list without repetitions leaves one,
      which does not contain that element. */
  lemma DistinctInit<T>(s: seq<T>)
    requires Distinct(s) && s != []
    ensures Distinct(s[..|s| - 1]) && s[|s| - 1] !in s[..|s| - 1]
  {
  }

  /** Concatenation regroups freely. */
  lemma ConcatAssoc<T>(a: seq<T>, b: seq<T>, c: seq<T>)
    ensures (a + b) + c == a + (b + c)
  {
  }

  /** Membership in a non-empty sequence: in its front or its last element. */
  lemma InSnoc<T>(s: seq<T>, x: T)
    requires s != []
    ensures x in s <==> x in s[..|s| - 1] || x == s[|s| - 1]
  {
    assert s == s[..|s| - 1] + [s[|s| - 1]];
  }

  datatype OrderedMap<V> = OrderedMap(keys: seq<string>, items: map<string, V>) {
    /** The keys are listed once each, and exactly the keys of the map are listed. */
    ghost predicate Valid() {
      Distinct(keys) && forall k :: k in items <==> k in keys
    }
  }

  function Empty<V>(): (m: OrderedMap<V>)
    ensures m.Valid() && m.keys == []
  {
    OrderedMap([], map[])
  }

  /** `d[k] = v`: a new key is added at the end, an existing key keeps its place. */
  function Put<V>(m: OrderedMap<V>, k: string, v: V): (r: OrderedMap<V>)
    ensures m.Valid() ==> r.Valid()
    ensures r.items == m.items[k := v]
    ensures r.keys == if k in m.items then m.keys else m.keys + [k]
  {
    OrderedMap(if k in m.items then m.keys else m.keys + [k], m.items[k := v])
  }
}
