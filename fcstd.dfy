/** The extraction core of the current package (`src/fc_audit/fcstd.py`):
    reading a document, the tree walks over it, context resolution and the
    expression dictionary with collision-free keys. */
module Fcstd {
  import opened Wrappers
  import opened Text
  import opened XmlTree
  import opened OrderedMaps

  // -------------------------------------------------------------------------
  // Reading a document
  // -------------------------------------------------------------------------

  /** `is_fcstd_file`, then `_read_xml_content` (the entry must decode as
      UTF-8 and start with `<?xml` once stripped), then `_parse_xml_content`. */
  function ReadDocument(f: FcFile): Result<Element> {
    if !IsFcstdFile(f) then Err(InvalidFile)
    else if !f.archive.document.utf8 || !f.archive.document.declared then Err(InvalidFile)
    else match f.archive.document.parsed
      case Malformed => Err(XmlParse)
      case Wellformed(root) => Ok(root)
  }

  // -------------------------------------------------------------------------
  // Property names and cell aliases
  // -------------------------------------------------------------------------

  /** The values of `attr` on those of `ns` that carry it. */
  function AttributeValues(ns: seq<Node>, attr: string): set<string> {
    set n | n in ns && attr in n.elem.attrib :: n.elem.attrib[attr]
  }

  /** The loop body of `get_document_properties` and `get_cell_aliases`:
      add the attribute of every selected element to a set. */
  method CollectAttribute(ns: seq<Node>, attr: string) returns (values: set<string>)
    ensures values == AttributeValues(ns, attr)
  {
    values := {};
    for i := 0 to |ns|
      invariant values == AttributeValues(ns[..i], attr)
    {
      assert ns[..i + 1] == ns[..i] + [ns[i]];
      if attr in ns[i].elem.attrib {
        values := values + {ns[i].elem.attrib[attr]};
      }
    }
    assert ns[..|ns|] == ns;
  }

  /** `findall(".//Tag[@attr]")` below `root`, read for `attr`. */
  function TreeAttributes(root: Element, tag: string, attr: string): set<string> {
    AttributeValues(FindAll(Descendants(root, []), tag, Some(attr)), attr)
  }

  /** A value is gathered exactly when some element strictly below the root
      has the tag and carries the value in the attribute. */
  lemma TreeAttributesMeaning(root: Element, tag: string, attr: string, v: string)
    ensures v in TreeAttributes(root, tag, attr) <==>
      exists q: Path :: |q| > 0 && ValidPath(root, q) && At(root, q).tag == tag
        && attr in At(root, q).attrib && At(root, q).attrib[attr] == v
  {
    var ds := Descendants(root, []);
    var found := FindAll(ds, tag, Some(attr));
    if v in TreeAttributes(root, tag, attr) {
      var n :| n in found && attr in n.elem.attrib && n.elem.attrib[attr] == v;
      DescendantPath(root, n);
      assert At(root, n.path) == n.elem;
    }
    if exists q: Path :: |q| > 0 && ValidPath(root, q) && At(root, q).tag == tag
        && attr in At(root, q).attrib && At(root, q).attrib[attr] == v {
      var q: Path :| |q| > 0 && ValidPath(root, q) && At(root, q).tag == tag
        && attr in At(root, q).attrib && At(root, q).attrib[attr] == v;
      ForestComplete(root, [], 0, q);
      assert [] + q == q;
      var n := Node(q, At(root, q));
      FindAllMembers(ds, tag, Some(attr), n);
      assert n in found;
    }
  }

  /** What `get_document_properties` (tag `Property`, attribute `name`) or
      `get_cell_aliases` (tag `Cell`, attribute `alias`) returns or raises. */
  function DocumentAttributes(f: FcFile, tag: string, attr: string): Result<set<string>> {
    match ReadDocument(f)
    case Ok(root) => Ok(TreeAttributes(root, tag, attr))
    case Err(e) => Err(e)
  }

  method GetDocumentProperties(f: FcFile) returns (r: Result<set<string>>)
    ensures r == DocumentAttributes(f, "Property", "name")
  {
    var doc := ReadDocument(f);
    if doc.Err? {
      return Err(doc.error);
    }
    var properties := CollectAttribute(FindAll(Descendants(doc.value, []), "Property", Some("name")), "name");
    r := Ok(properties);
  }

  method GetCellAliases(f: FcFile) returns (r: Result<set<string>>)
    ensures r == DocumentAttributes(f, "Cell", "alias")
  {
    var doc := ReadDocument(f);
    if doc.Err? {
      return Err(doc.error);
    }
    var aliases := CollectAttribute(FindAll(Descendants(doc.value, []), "Cell", Some("alias")), "alias");
    r := Ok(aliases);
  }

  /** What one file adds to a `*_from_files` union: nothing when it is not an
      FCStd archive or its extraction raises. */
  function FileAttributes(f: FcFile, tag: string, attr: string): set<string> {
    match DocumentAttributes(f, tag, attr)
    case Ok(values) => values
    case Err(_) => {}
  }

  /** The union the `*_from_files` drivers build over the files in order. */
  function FilesAttributes(files: seq<FcFile>, tag: string, attr: string): set<string>
    decreases |files|
  {
    if files == [] then {}
    else FilesAttributes(files[..|files| - 1], tag, attr) + FileAttributes(files[|files| - 1], tag, attr)
  }

  /** A value is in the union exactly when some file's extraction succeeds and yields it. */
  lemma {:induction false} FilesAttributesMeaning(files: seq<FcFile>, tag: string, attr: string, v: string)
    ensures v in FilesAttributes(files, tag, attr) <==>
      exists i :: 0 <= i < |files| && v in FileAttributes(files[i], tag, attr)
    decreases |files|
  {
    if files != [] {
      var init := files[..|files| - 1];
      FilesAttributesMeaning(init, tag, attr, v);
      assert forall i :: 0 <= i < |init| ==> files[i] == init[i];
    }
  }

  method GetPropertiesFromFiles(files: seq<FcFile>) returns (all: set<string>)
    ensures all == FilesAttributes(files, "Property", "name")
  {
    all := {};
    for i := 0 to |files|
      invariant all == FilesAttributes(files[..i], "Property", "name")
    {
      assert files[..i + 1][..i] == files[..i];
      if !IsFcstdFile(files[i]) {
        continue;
      }
      var properties := GetDocumentProperties(files[i]);
      if properties.Ok? {
        all := all + properties.value;
      }
    }
    assert files[..|files|] == files;
  }

  method GetCellAliasesFromFiles(files: seq<FcFile>) returns (all: set<string>)
    ensures all == FilesAttributes(files, "Cell", "alias")
  {
    all := {};
    for i := 0 to |files|
      invariant all == FilesAttributes(files[..i], "Cell", "alias")
    {
      assert files[..i + 1][..i] == files[..i];
      if !IsFcstdFile(files[i]) {
        continue;
      }
      var aliases := GetCellAliases(files[i]);
      if aliases.Ok? {
        all := all + aliases.value;
      }
    }
    assert files[..|files|] == files;
  }

  // -------------------------------------------------------------------------
  // Context resolution
  // -------------------------------------------------------------------------

  /** `Tag[name]`, else `Tag[type]`, else `Tag[label]`, else the bare tag. */
  function Label(e: Element): string {
    if "name" in e.attrib then e.tag + "[" + e.attrib["name"] + "]"
    else if "type" in e.attrib then e.tag + "[" + e.attrib["type"] + "]"
    else if "label" in e.attrib then e.tag + "[" + e.attrib["label"] + "]"
    else e.tag
  }

  /** The element at `target` is among the proper descendants of `a`: the
      inner loop over the ancestor's descendants meets it. */
  predicate Encloses(a: Node, target: Path) {
    exists c :: c in Descendants(a.elem, a.path) && c.path == target
  }

  /** The outer loop over all descendants of the root: the first candidate that encloses `target`. */
  function FirstEnclosing(candidates: seq<Node>, target: Path): (r: Option<Node>)
    ensures r.Some? ==> r.value in candidates && Encloses(r.value, target)
  {
    if candidates == [] then None
    else if Encloses(candidates[0], target) then Some(candidates[0])
    else FirstEnclosing(candidates[1..], target)
  }

  /** The search finds nothing exactly when no candidate encloses `target`. */
  lemma {:induction false} FirstEnclosingNone(candidates: seq<Node>, target: Path)
    ensures FirstEnclosing(candidates, target).None? <==> forall a :: a in candidates ==> !Encloses(a, target)
    decreases |candidates|
  {
    if candidates != [] {
      FirstEnclosingNone(candidates[1..], target);
      assert candidates == [candidates[0]] + candidates[1..];
    }
  }

  /** `_find_parent_with_identifier`: the ancestor found and its label, or no
      ancestor and `"unknown"`. */
  function FindParentWithIdentifier(root: Element, target: Path): (r: (Option<Node>, string))
    ensures r.0.Some? ==> r.0.value in Descendants(root, []) && Encloses(r.0.value, target)
  {
    match FirstEnclosing(Descendants(root, []), target)
    case Some(a) => (Some(a), Label(a.elem))
    case None => (None, "unknown")
  }

  /** For a node reached along its path from the root, enclosing `target` means
      lying on the way to it: its path is a proper prefix of a valid `target`. */
  lemma EnclosesIff(root: Element, a: Node, target: Path)
    requires ValidPath(root, a.path) && At(root, a.path) == a.elem
    ensures Encloses(a, target) <==>
      |target| > |a.path| && target[..|a.path|] == a.path && ValidPath(root, target)
  {
    if Encloses(a, target) {
      var c :| c in Descendants(a.elem, a.path) && c.path == target;
      EnclosedOnPath(root, a, c);
    }
    if |target| > |a.path| && target[..|a.path|] == a.path && ValidPath(root, target) {
      OnPathEnclosed(root, a, target);
    }
  }

  /** A descendant of `a` lies along a valid path through `a`. */
  lemma EnclosedOnPath(root: Element, a: Node, c: Node)
    requires ValidPath(root, a.path) && At(root, a.path) == a.elem
    requires c in Descendants(a.elem, a.path)
    ensures |c.path| > |a.path| && c.path[..|a.path|] == a.path && ValidPath(root, c.path)
  {
    ForestPaths(a.elem, a.path, 0, c);
    var q := c.path[|a.path|..];
    ValidPathAppend(root, a.path, q);
    assert a.path + q == c.path;
  }

  /** A valid path through `a` leads to a descendant of `a`. */
  lemma OnPathEnclosed(root: Element, a: Node, target: Path)
    requires ValidPath(root, a.path) && At(root, a.path) == a.elem
    requires |target| > |a.path| && target[..|a.path|] == a.path && ValidPath(root, target)
    ensures Encloses(a, target)
  {
    var q := target[|a.path|..];
    assert a.path + q == target;
    ValidPathSplit(root, a.path, q);
    ForestComplete(a.elem, a.path, 0, q);
    assert Node(a.path + q, At(a.elem, q)) in Descendants(a.elem, a.path);
  }

  /** Every node of the subtree placed at `[k]` has a path starting with `k`. */
  lemma SubtreeHead(c: Element, k: nat, n: Node)
    requires n in Subtree(c, [k])
    ensures |n.path| > 0 && n.path[0] == k
  {
    if n != Node([k], c) {
      ForestPaths(c, [k], 0, n);
      assert n.path[..1][0] == n.path[0];
    }
  }

  lemma {:induction false} FirstEnclosingConcat(xs: seq<Node>, ys: seq<Node>, target: Path)
    ensures FirstEnclosing(xs + ys, target) ==
      if FirstEnclosing(xs, target).Some? then FirstEnclosing(xs, target) else FirstEnclosing(ys, target)
  {
    if xs != [] {
      assert (xs + ys)[0] == xs[0] && (xs + ys)[1..] == xs[1..] + ys;
      FirstEnclosingConcat(xs[1..], ys, target);
    } else {
      assert xs + ys == ys;
    }
  }

  /** A node under another child of the root than the one `target` lies
      under does not enclose it. */
  lemma OtherSubtreeNode(root: Element, k: nat, target: Path, a: Node)
    requires |target| >= 2 && ValidPath(root, target) && k != target[0] && k < |root.children|
    requires a in Subtree(root.children[k], [k])
    ensures !Encloses(a, target)
  {
    var c := root.children[k];
    SubtreeHead(c, k, a);
    assert ChildForest(root, [], k) == Subtree(c, [] + [k]) + ChildForest(root, [], k + 1);
    assert [] + [k] == [k];
    ForestPaths(root, [], k, a);
    assert a.path[0..] == a.path;
    EnclosesIff(root, a, target);
    assert |target| > |a.path| ==> target[..|a.path|][0] == target[0];
  }

  /** No node under an earlier child of the root encloses `target`. */
  lemma SkippedSubtree(root: Element, k: nat, target: Path)
    requires |target| >= 2 && ValidPath(root, target) && k < target[0] && k < |root.children|
    ensures FirstEnclosing(Subtree(root.children[k], [k]), target) == None
  {
    forall a | a in Subtree(root.children[k], [k]) ensures !Encloses(a, target) {
      OtherSubtreeNode(root, k, target, a);
    }
    FirstEnclosingNone(Subtree(root.children[k], [k]), target);
  }

  /** The child of the root that `target` lies under is the first node of its
      own subtree, and it encloses `target`. */
  lemma HeadSubtree(root: Element, target: Path)
    requires |target| >= 2 && ValidPath(root, target)
    ensures target[0] < |root.children|
    ensures FirstEnclosing(Subtree(root.children[target[0]], [target[0]]), target)
      == Some(Node([target[0]], root.children[target[0]]))
  {
    var k := target[0];
    var c := root.children[k];
    var head := Node([k], c);
    assert ValidPath(root, [k]) && At(root, [k]) == c;
    assert target[..1] == [k];
    EnclosesIff(root, head, target);
    assert Subtree(c, [k]) == [head] + ChildForest(c, [k], 0);
  }

  /** One step of the scan over the children's subtrees: an earlier child's
      subtree is passed over, and the child `target` lies under is found. */
  lemma ForestStep(root: Element, k: nat, target: Path)
    requires |target| >= 2 && ValidPath(root, target) && k <= target[0]
    ensures target[0] < |root.children|
    ensures FirstEnclosing(ChildForest(root, [], k), target) ==
      if k < target[0] then FirstEnclosing(ChildForest(root, [], k + 1), target)
      else Some(Node([target[0]], root.children[target[0]]))
  {
    HeadSubtree(root, target);
    var c := root.children[k];
    var rest := ChildForest(root, [], k + 1);
    assert ChildForest(root, [], k) == Subtree(c, [] + [k]) + rest;
    assert [] + [k] == [k];
    FirstEnclosingConcat(Subtree(c, [k]), rest, target);
    if k < target[0] {
      SkippedSubtree(root, k, target);
    }
  }

  /** Scanning the children's subtrees from the `k`-th on, the first node that
      encloses a node two or more levels down is the child it lies under. */
  lemma {:induction false} ForestFirst(root: Element, k: nat, target: Path)
    requires |target| >= 2 && ValidPath(root, target) && k <= target[0]
    ensures target[0] < |root.children|
    ensures FirstEnclosing(ChildForest(root, [], k), target) == Some(Node([target[0]], root.children[target[0]]))
    decreases target[0] - k
  {
    ForestStep(root, k, target);
    if k < target[0] {
      ForestFirst(root, k + 1, target);
    }
  }

  /** `_find_parent_with_identifier` returns the OUTERMOST ancestor below the
      root (the child of the root the element lies under), and finds none for
      an element less than two levels down. */
  lemma OutermostAncestor(root: Element, target: Path)
    ensures |target| >= 2 && ValidPath(root, target) ==>
      target[0] < |root.children| &&
      FindParentWithIdentifier(root, target) == (Some(Node([target[0]], root.children[target[0]])), Label(root.children[target[0]]))
    ensures !(|target| >= 2 && ValidPath(root, target)) ==>
      FindParentWithIdentifier(root, target) == (None, "unknown")
  {
    if |target| >= 2 && ValidPath(root, target) {
      ForestFirst(root, 0, target);
    } else {
      forall a | a in Descendants(root, []) ensures !Encloses(a, target) {
        DescendantPath(root, a);
        EnclosesIff(root, a, target);
      }
      FirstEnclosingNone(Descendants(root, []), target);
    }
  }

  // -------------------------------------------------------------------------
  // Expressions
  // -------------------------------------------------------------------------

  /** `_extract_expression`: the context label and the unescaped expression
      text, or `ExpressionError` when no ancestor is found or the attribute is
      missing. */
  function ExtractExpression(root: Element, n: Node): Result<(string, string)> {
    var (parent, context) := FindParentWithIdentifier(root, n.path);
    if parent.None? then Err(Expression)
    else if "expression" !in n.elem.attrib then Err(Expression)
    else Ok((context, Unescape(n.elem.attrib["expression"])))
  }

  /** An element of the document yields an expression exactly when it lies two
      or more levels down and has the attribute; the context is then the label
      of the child of the root it lies under. */
  lemma ExtractExpressionResolves(root: Element, n: Node)
    requires n in Descendants(root, [])
    ensures ExtractExpression(root, n).Ok? <==> |n.path| >= 2 && "expression" in n.elem.attrib
    ensures ExtractExpression(root, n).Ok? ==>
      n.path[0] < |root.children| &&
      ExtractExpression(root, n).value == (Label(root.children[n.path[0]]), Unescape(n.elem.attrib["expression"]))
  {
    DescendantPath(root, n);
    OutermostAncestor(root, n.path);
  }

  /** The candidate `f"{base} ({n})"`. */
  function Suffixed(base: string, n: nat): string {
    base + " (" + NatToString(n) + ")"
  }

  lemma SuffixedInjective(base: string, a: nat, b: nat)
    requires Suffixed(base, a) == Suffixed(base, b)
    ensures a == b
  {
    var sa := Suffixed(base, a);
    var sb := Suffixed(base, b);
    assert sa[|base| + 2..|sa| - 1] == NatToString(a);
    assert sb[|base| + 2..|sb| - 1] == NatToString(b);
    NumeralInjective(a, b);
  }

  /** `key` is a collision-free key for `base`: not yet taken; `base` itself
      when that is free; otherwise `base (n)` for the least `n >= first` that
      is free. `_make_unique_key` counts from 1; the legacy package's inline
      loop counts from 2. */
  ghost predicate IsUniqueKeyFor(key: string, base: string, existing: set<string>, first: nat) {
    && key !in existing
    && (base !in existing ==> key == base)
    && (base in existing ==> exists n: nat ::
         first <= n && key == Suffixed(base, n) && forall m: nat :: first <= m < n ==> Suffixed(base, m) in existing)
  }

  /** There is only one such key. */
  lemma UniqueKeyDetermined(k1: string, k2: string, base: string, existing: set<string>, first: nat)
    requires IsUniqueKeyFor(k1, base, existing, first) && IsUniqueKeyFor(k2, base, existing, first)
    ensures k1 == k2
  {
    if base in existing {
      var n1: nat :| first <= n1 && k1 == Suffixed(base, n1) && forall m: nat :: first <= m < n1 ==> Suffixed(base, m) in existing;
      var n2: nat :| first <= n2 && k2 == Suffixed(base, n2) && forall m: nat :: first <= m < n2 ==> Suffixed(base, m) in existing;
    }
  }

  /** `_make_unique_key`. The loop ends because each refused candidate is a
      distinct member of the finite set `existing`. */
  method MakeUniqueKey(base: string, existing: set<string>) returns (key: string)
    ensures IsUniqueKeyFor(key, base, existing, 1)
  {
    if base !in existing {
      return base;
    }
    var counter: nat := 1;
    ghost var tried: set<string> := {};
    while true
      invariant 1 <= counter
      invariant tried == Tried(base, 1, counter)
      invariant tried <= existing
      invariant forall m: nat :: 1 <= m < counter ==> Suffixed(base, m) in existing
      decreases |existing - tried|
    {
      key := Suffixed(base, counter);
      if key !in existing {
        return;
      }
      TriedStep(base, 1, counter);
      assert existing - (tried + {key}) < existing - tried;
      tried := tried + {key};
      counter := counter + 1;
    }
  }

  /** The suffixed candidates from `first` up to, not including, `counter`. */
  ghost function Tried(base: string, first: nat, counter: nat): set<string> {
    set m: nat | first <= m < counter :: Suffixed(base, m)
  }

  /** The next candidate has not been tried yet, and trying it extends the set. */
  lemma TriedStep(base: string, first: nat, counter: nat)
    requires first <= counter
    ensures Suffixed(base, counter) !in Tried(base, first, counter)
    ensures Tried(base, first, counter + 1) == Tried(base, first, counter) + {Suffixed(base, counter)}
  {
    var key := Suffixed(base, counter);
    if key in Tried(base, first, counter) {
      var m: nat :| first <= m < counter && key == Suffixed(base, m);
      SuffixedInjective(base, m, counter);
    }
    forall x | x in Tried(base, first, counter + 1)
      ensures x in Tried(base, first, counter) + {key}
    {
      var m: nat :| first <= m < counter + 1 && x == Suffixed(base, m);
      if m < counter {
        assert x in Tried(base, first, counter);
      }
    }
    forall x | x in Tried(base, first, counter)
      ensures x in Tried(base, first, counter + 1)
    {
      var m: nat :| first <= m < counter && x == Suffixed(base, m);
    }
    assert key in Tried(base, first, counter + 1);
  }

  /** The keys already in the dictionary, as `set(expressions.keys())`. */
  function KeySet(keys: seq<string>): set<string> {
    set k | k in keys
  }

  /** The `(context, value)` pairs the elements `ns` yield in order, skipping
      the elements `_extract_expression` rejects. */
  function Extracted(root: Element, ns: seq<Node>): seq<(string, string)>
    decreases |ns|
  {
    if ns == [] then []
    else
      Extracted(root, ns[..|ns| - 1]) +
      match ExtractExpression(root, ns[|ns| - 1])
      case Ok(entry) => [entry]
      case Err(_) => []
  }

  /** One more element adds its entry, or nothing when it is rejected. */
  lemma ExtractedSnoc(root: Element, ns: seq<Node>, i: nat)
    requires i < |ns|
    ensures ExtractExpression(root, ns[i]).Err? ==> Extracted(root, ns[..i + 1]) == Extracted(root, ns[..i])
    ensures ExtractExpression(root, ns[i]).Ok? ==>
      Extracted(root, ns[..i + 1]) == Extracted(root, ns[..i]) + [ExtractExpression(root, ns[i]).value]
  {
    assert ns[..i + 1][..i] == ns[..i];
    assert ns[..i + 1][i] == ns[i];
    if ExtractExpression(root, ns[i]).Err? {
      assert Extracted(root, ns[..i + 1]) == Extracted(root, ns[..i]) + [];
    }
  }

  /** `m` stores `entries` in order, each value under a key that was unique
      for its context when it was made: nothing is overwritten. */
  ghost predicate KeyedEntries(m: OrderedMap<string>, entries: seq<(string, string)>, first: nat) {
    && m.Valid()
    && |m.keys| == |entries|
    && forall i :: 0 <= i < |entries| ==>
         && IsUniqueKeyFor(m.keys[i], entries[i].0, KeySet(m.keys[..i]), first)
         && m.keys[i] in m.items && m.items[m.keys[i]] == entries[i].1
  }

  /** Storing one more entry under a fresh unique key extends the relation. */
  lemma AddKeyed(m: OrderedMap<string>, entries: seq<(string, string)>, key: string, context: string, value: string, first: nat)
    requires KeyedEntries(m, entries, first)
    requires IsUniqueKeyFor(key, context, KeySet(m.keys), first)
    ensures KeyedEntries(Put(m, key, value), entries + [(context, value)], first)
  {
    var r := Put(m, key, value);
    var es := entries + [(context, value)];
    var n := |m.keys|;
    assert key !in m.items;
    assert r.keys == m.keys + [key];
    forall i | 0 <= i < n
      ensures IsUniqueKeyFor(r.keys[i], es[i].0, KeySet(r.keys[..i]), first)
      ensures r.keys[i] in r.items && r.items[r.keys[i]] == es[i].1
    {
      assert r.keys[..i] == m.keys[..i];
      assert r.keys[i] == m.keys[i] != key;
      assert es[i] == entries[i];
    }
    assert r.keys[..n] == m.keys;
    assert r.keys[n] == key && es[n] == (context, value);
  }

  /** The loop body of `get_expressions`: the value is stored under a key
      made unique for its context. */
  method StoreExpression(expressions: OrderedMap<string>, ghost entries: seq<(string, string)>, context: string, value: string)
    returns (r: OrderedMap<string>)
    requires KeyedEntries(expressions, entries, 1)
    ensures KeyedEntries(r, entries + [(context, value)], 1)
  {
    var key := MakeUniqueKey(context, KeySet(expressions.keys));
    AddKeyed(expressions, entries, key, context, value, 1);
    r := Put(expressions, key, value);
  }

  /** The elements `findall(".//Expression[@expression]")` returns. */
  function ExpressionNodes(root: Element): seq<Node> {
    FindAll(Descendants(root, []), "Expression", Some("expression"))
  }

  /** `get_expressions`: one entry per expression whose context resolves,
      none overwritten; reading or parsing failures are raised. */
  method GetExpressions(f: FcFile) returns (r: Result<OrderedMap<string>>)
    ensures r.Err? <==> ReadDocument(f).Err?
    ensures r.Err? ==> r.error == ReadDocument(f).error
    ensures r.Ok? ==> KeyedEntries(r.value, Extracted(ReadDocument(f).value, ExpressionNodes(ReadDocument(f).value)), 1)
  {
    var doc := ReadDocument(f);
    if doc.Err? {
      return Err(doc.error);
    }
    var root := doc.value;
    var found := ExpressionNodes(root);
    var expressions: OrderedMap<string> := Empty();
    for i := 0 to |found|
      invariant KeyedEntries(expressions, Extracted(root, found[..i]), 1)
    {
      ExtractedSnoc(root, found, i);
      var extracted := ExtractExpression(root, found[i]);
      if extracted.Err? {
        continue;
      }
      var (context, value) := extracted.value;
      expressions := StoreExpression(expressions, Extracted(root, found[..i]), context, value);
    }
    assert found[..|found|] == found;
    r := Ok(expressions);
  }

  /** The entries `get_expressions` stores, stated without the search: for
      every element two or more levels down, the label of the child of the
      root it lies under and its unescaped text. */
  function ResolvedEntries(root: Element, ns: seq<Node>): seq<(string, string)>
    requires forall n :: n in ns ==> ValidPath(root, n.path) && "expression" in n.elem.attrib
    decreases |ns|
  {
    if ns == [] then []
    else
      var n := ns[|ns| - 1];
      assert n in ns && ValidPath(root, n.path);
      assert n.path != [] ==> n.path[0] < |root.children|;
      ResolvedEntries(root, ns[..|ns| - 1]) +
      (if |n.path| >= 2 then [(Label(root.children[n.path[0]]), Unescape(n.elem.attrib["expression"]))] else [])
  }

  lemma {:induction false} ExtractedResolved(root: Element, ns: seq<Node>)
    requires forall n :: n in ns ==> n in Descendants(root, []) && "expression" in n.elem.attrib
    ensures forall n :: n in ns ==> ValidPath(root, n.path)
    ensures Extracted(root, ns) == ResolvedEntries(root, ns)
    decreases |ns|
  {
    forall n | n in ns ensures ValidPath(root, n.path) {
      DescendantPath(root, n);
    }
    if ns != [] {
      ExtractedResolved(root, ns[..|ns| - 1]);
      ExtractExpressionResolves(root, ns[|ns| - 1]);
    }
  }

  /** The expressions of a document are exactly the resolved entries of its
      `Expression[@expression]` elements, so `get_expressions` keeps one entry
      per such element two or more levels down. */
  lemma ExpressionsResolved(root: Element)
    ensures forall n :: n in ExpressionNodes(root) ==> ValidPath(root, n.path) && "expression" in n.elem.attrib
    ensures Extracted(root, ExpressionNodes(root)) == ResolvedEntries(root, ExpressionNodes(root))
  {
    var ds := Descendants(root, []);
    forall n | n in ExpressionNodes(root) ensures n in ds && "expression" in n.elem.attrib {
      FindAllMembers(ds, "Expression", Some("expression"), n);
    }
    ExtractedResolved(root, ExpressionNodes(root));
  }
}
