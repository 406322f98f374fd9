/** The parsed `Document.xml` tree, and the archive that holds it.
    ElementTree compares elements by identity; here a node is identified by
    its path, the sequence of child indices that leads to it from the root. */
module XmlTree {
  import opened Wrappers

  type Path = seq<nat>

  /** An XML element: tag, attributes and children in document order. */
  datatype Element = Element(tag: string, attrib: map<string, string>, children: seq<Element>)

  /** An element together with its position below some root. */
  datatype Node = Node(path: Path, elem: Element)

  /** `p` leads from `e` to one of its elements (the empty path to `e` itself). */
  predicate ValidPath(e: Element, p: Path)
    decreases |p|
  {
    p == [] || (p[0] < |e.children| && ValidPath(e.children[p[0]], p[1..]))
  }

  /** The element reached from `e` along `p`. */
  function At(e: Element, p: Path): Element
    requires ValidPath(e, p)
    decreases |p|
  {
    if p == [] then e else At(e.children[p[0]], p[1..])
  }

  /** `e`, placed at `base`, followed by all its descendants in document order. */
  function Subtree(e: Element, base: Path): seq<Node>
    decreases e, 1
  {
    [Node(base, e)] + ChildForest(e, base, 0)
  }

  /** The subtrees of `e`'s children from the `k`-th on, in document order. */
  function ChildForest(e: Element, base: Path, k: nat): seq<Node>
    requires k <= |e.children|
    decreases e, 0, |e.children| - k
  {
    if k == |e.children| then []
    else Subtree(e.children[k], base + [k]) + ChildForest(e, base, k + 1)
  }

  /** What `findall` with the step ".//" and any tag returns when `e` sits at `base`: every proper
      descendant, in document (pre-)order. */
  function Descendants(e: Element, base: Path): seq<Node> {
    ChildForest(e, base, 0)
  }

  /** The element test of an ElementPath step `Tag` or `Tag[@attr]`. */
  predicate Selects(n: Node, tag: string, attr: Option<string>) {
    n.elem.tag == tag && (attr.Some? ==> attr.value in n.elem.attrib)
  }

  /** The nodes of `ns` that the step selects, in order: `findall(".//Tag[@attr]")`
      when `ns` is the descendant list. */
  function FindAll(ns: seq<Node>, tag: string, attr: Option<string>): (r: seq<Node>)
    ensures |r| <= |ns|
    ensures forall n :: n in r ==> n in ns && Selects(n, tag, attr)
  {
    if ns == [] then []
    else FindAll(ns[..|ns| - 1], tag, attr) + (if Selects(ns[|ns| - 1], tag, attr) then [ns[|ns| - 1]] else [])
  }

  /** A node of `ns` is found exactly when the step selects it. */
  lemma {:induction false} FindAllMembers(ns: seq<Node>, tag: string, attr: Option<string>, n: Node)
    ensures n in FindAll(ns, tag, attr) <==> n in ns && Selects(n, tag, attr)
  {
    if ns != [] {
      FindAllMembers(ns[..|ns| - 1], tag, attr, n);
      assert ns == ns[..|ns| - 1] + [ns[|ns| - 1]];
    }
  }

  // -------------------------------------------------------------------------
  // Paths of the nodes in a document-order listing
  // -------------------------------------------------------------------------

  lemma ValidPathAppend(e: Element, p: Path, q: Path)
    requires ValidPath(e, p) && ValidPath(At(e, p), q)
    ensures ValidPath(e, p + q) && At(e, p + q) == At(At(e, p), q)
    decreases |p|
  {
    if p == [] {
      assert p + q == q;
    } else {
      assert (p + q)[0] == p[0] && (p + q)[1..] == p[1..] + q;
      ValidPathAppend(e.children[p[0]], p[1..], q);
    }
  }

  /** A path that is valid from `e` splits at any point into two valid paths. */
  lemma ValidPathSplit(e: Element, p: Path, q: Path)
    requires ValidPath(e, p + q)
    ensures ValidPath(e, p) && ValidPath(At(e, p), q) && At(e, p + q) == At(At(e, p), q)
    decreases |p|
  {
    if p == [] {
      assert p + q == q;
    } else {
      assert (p + q)[0] == p[0] && (p + q)[1..] == p[1..] + q;
      ValidPathSplit(e.children[p[0]], p[1..], q);
    }
  }

  /** A node of the descendant listing of `root` is the element its path reaches. */
  lemma DescendantPath(root: Element, n: Node)
    requires n in Descendants(root, [])
    ensures |n.path| > 0 && ValidPath(root, n.path) && At(root, n.path) == n.elem
  {
    ForestPaths(root, [], 0, n);
    assert n.path[0..] == n.path;
  }

  /** Every node listed by `ChildForest(e, base, k)` lies strictly below `base`,
      under a child of index `k` or more, and is the element its path reaches. */
  lemma {:induction false} ForestPaths(e: Element, base: Path, k: nat, n: Node)
    requires k <= |e.children|
    requires n in ChildForest(e, base, k)
    ensures |n.path| > |base| && n.path[..|base|] == base && n.path[|base|] >= k
    ensures ValidPath(e, n.path[|base|..]) && At(e, n.path[|base|..]) == n.elem
    decreases e, |e.children| - k
  {
    var c := e.children[k];
    var b := base + [k];
    if n in ChildForest(e, base, k + 1) {
      ForestPaths(e, base, k + 1, n);
    } else if n == Node(b, c) {
      assert n.path[|base|..] == [k];
      assert ValidPath(c, []);
    } else {
      assert n in ChildForest(c, b, 0);
      ForestPaths(c, b, 0, n);
      var q := n.path[|b|..];
      assert n.path[|base|..] == [k] + q;
      assert ([k] + q)[1..] == q;
    }
  }

  /** Conversely, every element strictly below `e`, under a child of index `k`
      or more, is listed by `ChildForest(e, base, k)` with its path. */
  lemma {:induction false} ForestComplete(e: Element, base: Path, k: nat, q: Path)
    requires k <= |e.children|
    requires |q| > 0 && q[0] >= k && ValidPath(e, q)
    ensures Node(base + q, At(e, q)) in ChildForest(e, base, k)
    decreases e, |e.children| - k
  {
    var c := e.children[k];
    var b := base + [k];
    if q[0] > k {
      ForestComplete(e, base, k + 1, q);
    } else if |q| == 1 {
      assert q == [k] && base + q == b;
    } else {
      ForestComplete(c, b, 0, q[1..]);
      assert b + q[1..] == base + q;
    }
  }

  // -------------------------------------------------------------------------
  // What the reader of a `.FCStd` archive hands to the extractors
  // -------------------------------------------------------------------------

  /** The outcome of parsing the `Document.xml` entry. */
  datatype Parsed = Malformed | Wellformed(root: Element)

  /** The `Document.xml` entry: whether its bytes decode as UTF-8, whether the
      decoded text (after stripping) starts with `<?xml`, and what the XML parser
      makes of it. One outcome serves parsing the decoded text and parsing the
      raw bytes, so the entry is taken to declare UTF-8 or no encoding at all,
      the one case in which the two parses agree. */
  datatype Entry = Entry(utf8: bool, declared: bool, parsed: Parsed)

  /** A path on disk, as the zip reader sees it. */
  datatype Archive = NotZip | NoDocument | Zip(document: Entry)

  /** An input file: its path, its base name (`Path.name`) and its contents. */
  datatype FcFile = FcFile(path: string, name: string, archive: Archive)

  /** `is_fcstd_file`: a readable zip archive with a `Document.xml` entry. */
  predicate IsFcstdFile(f: FcFile) {
    f.archive.Zip?
  }
}
