/** The older extraction module `fc_audit/fcstd.py`, still shipped beside the
    current package. It reads the archive entry differently, parses references
    with its own grammar, numbers colliding expression keys from 2, keeps every
    expression, and its batch drivers let some failures through. */
module LegacyFcstd {
  import opened Wrappers
  import opened Text
  import opened XmlTree
  import opened OrderedMaps
  import opened References
  import opened ExpressionGrammar
  import Fcstd
  import FcstdReferences

  // -------------------------------------------------------------------------
  // Reading a document
  // -------------------------------------------------------------------------

  /** `etree.parse` on the entry's bytes, after `is_fcstd_file`: an archive
      without the entry raises `ValueError`; bytes that are not valid in the
      declared encoding and malformed XML both raise `ParseError`. No XML
      declaration is required. With the declared encoding UTF-8 or absent,
      as `Entry` assumes, "valid in the declared encoding" is `utf8`. */
  function ParseEntry(f: FcFile): Result<Element> {
    if !IsFcstdFile(f) then Err(Value)
    else if !f.archive.document.utf8 then Err(XmlParse)
    else match f.archive.document.parsed
      case Malformed => Err(XmlParse)
      case Wellformed(root) => Ok(root)
  }

  /** `decode('utf-8')` then `etree.fromstring`: here a decoding failure is a
      `UnicodeDecodeError`, which is a `ValueError`. */
  function DecodeEntry(f: FcFile): Result<Element> {
    if !IsFcstdFile(f) then Err(Value)
    else if !f.archive.document.utf8 then Err(Value)
    else match f.archive.document.parsed
      case Malformed => Err(XmlParse)
      case Wellformed(root) => Ok(root)
  }

  /** A file whose entry cannot be parsed: the failure is a `ParseError` for
      both readers (or a `ValueError` for the decoding reader on bad bytes). */
  predicate Unparsable(f: FcFile) {
    IsFcstdFile(f) && (!f.archive.document.utf8 || f.archive.document.parsed.Malformed?)
  }

  /** A file whose entry decodes but is not well-formed XML: the one failure
      both readers report as a `ParseError`. */
  predicate Malformed(f: FcFile) {
    IsFcstdFile(f) && f.archive.document.utf8 && f.archive.document.parsed.Malformed?
  }

  /** For an entry that declares UTF-8 or no encoding, both readers accept
      what the current package accepts and yield the same tree; they also
      accept entries without an XML declaration, which the current package
      refuses. They fail on the same files, with a `ParseError` exactly on a
      malformed document, except that bytes that do not decode are a
      `ParseError` for one and a `ValueError` for the other. */
  lemma ReadersCompared(f: FcFile)
    ensures Fcstd.ReadDocument(f).Ok? ==> ParseEntry(f) == Fcstd.ReadDocument(f) && DecodeEntry(f) == Fcstd.ReadDocument(f)
    ensures ParseEntry(f).Ok? <==> DecodeEntry(f).Ok?
    ensures ParseEntry(f).Ok? ==> ParseEntry(f) == DecodeEntry(f)
    ensures ParseEntry(f).Err? ==> (ParseEntry(f).error == XmlParse <==> Unparsable(f))
    ensures DecodeEntry(f).Err? ==> (DecodeEntry(f).error == XmlParse <==> Malformed(f))
    ensures ParseEntry(f).Ok? && !f.archive.document.declared ==> Fcstd.ReadDocument(f) == Err(InvalidFile)
  {
  }

  // -------------------------------------------------------------------------
  // Property names and cell aliases
  // -------------------------------------------------------------------------

  /** Selecting by tag and then testing for the attribute, as the property loop
      does, reads the same values as selecting by tag and attribute at once. */
  lemma FilterThenRead(ns: seq<Node>, tag: string, attr: string)
    ensures Fcstd.AttributeValues(FindAll(ns, tag, None), attr) == Fcstd.AttributeValues(FindAll(ns, tag, Some(attr)), attr)
  {
    var byTag := FindAll(ns, tag, None);
    var byAttr := FindAll(ns, tag, Some(attr));
    forall v ensures v in Fcstd.AttributeValues(byTag, attr) <==> v in Fcstd.AttributeValues(byAttr, attr) {
      if v in Fcstd.AttributeValues(byTag, attr) {
        var n :| n in byTag && attr in n.elem.attrib && n.elem.attrib[attr] == v;
        FindAllMembers(ns, tag, None, n);
        FindAllMembers(ns, tag, Some(attr), n);
      }
      if v in Fcstd.AttributeValues(byAttr, attr) {
        var n :| n in byAttr && attr in n.elem.attrib && n.elem.attrib[attr] == v;
        FindAllMembers(ns, tag, Some(attr), n);
        FindAllMembers(ns, tag, None, n);
      }
    }
  }

  /** What `get_document_properties` (tag `Property`, attribute `name`) or
      `get_cell_aliases` (tag `Cell`, attribute `alias`) returns or raises. */
  function DocumentValues(f: FcFile, tag: string, attr: string): Result<set<string>> {
    match ParseEntry(f)
    case Ok(root) => Ok(Fcstd.TreeAttributes(root, tag, attr))
    case Err(e) => Err(e)
  }

  /** Wherever the current package reads a set of values, the legacy one reads
      the same set. */
  lemma DocumentValuesExtend(f: FcFile, tag: string, attr: string)
    ensures Fcstd.DocumentAttributes(f, tag, attr).Ok? ==> DocumentValues(f, tag, attr) == Fcstd.DocumentAttributes(f, tag, attr)
    ensures DocumentValues(f, tag, attr).Err? <==> ParseEntry(f).Err?
  {
    ReadersCompared(f);
  }

  /** `get_document_properties`: every `Property` element, keeping the names of
      those that carry one. */
  method GetDocumentProperties(f: FcFile) returns (r: Result<set<string>>)
    ensures r == DocumentValues(f, "Property", "name")
  {
    var doc := ParseEntry(f);
    if doc.Err? {
      return Err(doc.error);
    }
    var ds := Descendants(doc.value, []);
    var properties := Fcstd.CollectAttribute(FindAll(ds, "Property", None), "name");
    FilterThenRead(ds, "Property", "name");
    r := Ok(properties);
  }

  /** `get_cell_aliases`. */
  method GetCellAliases(f: FcFile) returns (r: Result<set<string>>)
    ensures r == DocumentValues(f, "Cell", "alias")
  {
    var doc := ParseEntry(f);
    if doc.Err? {
      return Err(doc.error);
    }
    var aliases := Fcstd.CollectAttribute(FindAll(Descendants(doc.value, []), "Cell", Some("alias")), "alias");
    r := Ok(aliases);
  }

  /** The result of `get_properties_from_files`: a `ValueError` skips the
      file, a `ParseError` escapes and ends the whole call. */
  function StrictUnion(files: seq<FcFile>, tag: string, attr: string): Result<set<string>>
    decreases |files|
  {
    if files == [] then Ok({})
    else match StrictUnion(files[..|files| - 1], tag, attr)
      case Err(e) => Err(e)
      case Ok(acc) =>
        match DocumentValues(files[|files| - 1], tag, attr)
        case Ok(values) => Ok(acc + values)
        case Err(e) => if e == Value then Ok(acc) else Err(e)
  }

  /** Once a prefix of the files has raised, so has the whole call. */
  lemma {:induction false} StrictUnionStops(files: seq<FcFile>, n: nat, tag: string, attr: string)
    requires n <= |files| && StrictUnion(files[..n], tag, attr).Err?
    ensures StrictUnion(files, tag, attr) == StrictUnion(files[..n], tag, attr)
    decreases |files|
  {
    if n < |files| {
      var init := files[..|files| - 1];
      assert init[..n] == files[..n];
      StrictUnionStops(init, n, tag, attr);
    } else {
      assert files[..n] == files;
    }
  }

  /** The call raises exactly when some file is an archive whose entry cannot
      be parsed, and the error is then a `ParseError`. */
  lemma {:induction false} StrictUnionFails(files: seq<FcFile>, tag: string, attr: string)
    ensures StrictUnion(files, tag, attr).Err? <==> exists i :: 0 <= i < |files| && Unparsable(files[i])
    ensures StrictUnion(files, tag, attr).Err? ==> StrictUnion(files, tag, attr).error == XmlParse
    decreases |files|
  {
    if files != [] {
      var init := files[..|files| - 1];
      StrictUnionFails(init, tag, attr);
      assert forall i :: 0 <= i < |init| ==> files[i] == init[i];
      ReadersCompared(files[|files| - 1]);
    }
  }

  /** When the call returns, a value is in the union exactly when some file's
      extraction succeeds and yields it. */
  lemma {:induction false} StrictUnionMeaning(files: seq<FcFile>, tag: string, attr: string, v: string)
    requires StrictUnion(files, tag, attr).Ok?
    ensures v in StrictUnion(files, tag, attr).value <==>
      exists i :: 0 <= i < |files| && DocumentValues(files[i], tag, attr).Ok? && v in DocumentValues(files[i], tag, attr).value
    decreases |files|
  {
    if files != [] {
      var init := files[..|files| - 1];
      StrictUnionMeaning(init, tag, attr, v);
      assert forall i :: 0 <= i < |init| ==> files[i] == init[i];
    }
  }

  /** `get_properties_from_files`. */
  method GetPropertiesFromFiles(files: seq<FcFile>) returns (r: Result<set<string>>)
    ensures r == StrictUnion(files, "Property", "name")
  {
    var all: set<string> := {};
    for i := 0 to |files|
      invariant StrictUnion(files[..i], "Property", "name") == Ok(all)
    {
      assert files[..i + 1][..i] == files[..i];
      var properties := GetDocumentProperties(files[i]);
      if properties.Err? {
        if properties.error == Value {
          continue;
        }
        StrictUnionStops(files, i + 1, "Property", "name");
        return Err(properties.error);
      }
      all := all + properties.value;
    }
    assert files[..|files|] == files;
    r := Ok(all);
  }

  /** The result of `get_cell_aliases_from_files`: every failure skips the file. */
  function LenientUnion(files: seq<FcFile>, tag: string, attr: string): set<string>
    decreases |files|
  {
    if files == [] then {}
    else
      LenientUnion(files[..|files| - 1], tag, attr) +
      match DocumentValues(files[|files| - 1], tag, attr)
      case Ok(values) => values
      case Err(_) => {}
  }

  /** A value is in the union exactly when some file's extraction succeeds and yields it. */
  lemma {:induction false} LenientUnionMeaning(files: seq<FcFile>, tag: string, attr: string, v: string)
    ensures v in LenientUnion(files, tag, attr) <==>
      exists i :: 0 <= i < |files| && DocumentValues(files[i], tag, attr).Ok? && v in DocumentValues(files[i], tag, attr).value
    decreases |files|
  {
    if files != [] {
      var init := files[..|files| - 1];
      LenientUnionMeaning(init, tag, attr, v);
      assert forall i :: 0 <= i < |init| ==> files[i] == init[i];
    }
  }

  /** The legacy union holds everything the current package's union holds. */
  lemma {:induction false} LenientUnionCovers(files: seq<FcFile>, tag: string, attr: string)
    ensures Fcstd.FilesAttributes(files, tag, attr) <= LenientUnion(files, tag, attr)
    decreases |files|
  {
    if files != [] {
      LenientUnionCovers(files[..|files| - 1], tag, attr);
      DocumentValuesExtend(files[|files| - 1], tag, attr);
    }
  }

  /** `get_cell_aliases_from_files`. */
  method GetCellAliasesFromFiles(files: seq<FcFile>) returns (all: set<string>)
    ensures all == LenientUnion(files, "Cell", "alias")
  {
    all := {};
    for i := 0 to |files|
      invariant all == LenientUnion(files[..i], "Cell", "alias")
    {
      assert files[..i + 1][..i] == files[..i];
      var aliases := GetCellAliases(files[i]);
      if aliases.Ok? {
        all := all + aliases.value;
      }
    }
    assert files[..|files|] == files;
  }

  // -------------------------------------------------------------------------
  // Expressions
  // -------------------------------------------------------------------------

  /** The `(context, value)` entries of the elements `ns`, one per element:
      the context of `_find_parent_with_identifier`, `unknown` when none is
      found, and the unescaped text. */
  function Entries(root: Element, ns: seq<Node>): (r: seq<(string, string)>)
    requires forall n :: n in ns ==> "expression" in n.elem.attrib
    ensures |r| == |ns|
    decreases |ns|
  {
    if ns == [] then []
    else
      var n := ns[|ns| - 1];
      assert n in ns;
      Entries(root, ns[..|ns| - 1]) +
      [(Fcstd.FindParentWithIdentifier(root, n.path).1, Unescape(n.elem.attrib["expression"]))]
  }

  /** One more element. */
  lemma EntriesSnoc(root: Element, ns: seq<Node>, i: nat)
    requires forall n :: n in ns ==> "expression" in n.elem.attrib
    requires i < |ns|
    ensures "expression" in ns[i].elem.attrib
    ensures Entries(root, ns[..i + 1]) ==
      Entries(root, ns[..i]) + [(Fcstd.FindParentWithIdentifier(root, ns[i].path).1, Unescape(ns[i].elem.attrib["expression"]))]
  {
    assert ns[i] in ns;
    assert ns[..i + 1][..i] == ns[..i];
  }

  /** Entry `i` is the label of the child of the root that element `i` lies
      under, or `unknown` for an element directly below the root. */
  lemma {:induction false} EntriesAt(root: Element, ns: seq<Node>, i: nat)
    requires forall n :: n in ns ==> n in Descendants(root, []) && "expression" in n.elem.attrib
    requires i < |ns|
    ensures Entries(root, ns)[i].1 == Unescape(ns[i].elem.attrib["expression"])
    ensures |ns[i].path| >= 2 ==> ns[i].path[0] < |root.children| && Entries(root, ns)[i].0 == Fcstd.Label(root.children[ns[i].path[0]])
    ensures |ns[i].path| < 2 ==> Entries(root, ns)[i].0 == "unknown"
    decreases |ns|
  {
    if i < |ns| - 1 {
      var init := ns[..|ns| - 1];
      assert init[i] == ns[i];
      EntriesAt(root, init, i);
    } else {
      assert ns[i] in ns;
      DescendantPath(root, ns[i]);
      Fcstd.OutermostAncestor(root, ns[i].path);
    }
  }

  /** The inline key loop of `get_expressions`: the counter starts at 1 and is
      raised before the first suffix is formed, so the first candidate after
      the context itself is `context (2)`. */
  method NextFreeKey(base: string, existing: set<string>) returns (key: string)
    ensures Fcstd.IsUniqueKeyFor(key, base, existing, 2)
  {
    key := base;
    var counter: nat := 1;
    ghost var tried: set<string> := {};
    while key in existing
      invariant 1 <= counter
      invariant counter == 1 ==> key == base && tried == {}
      invariant counter >= 2 ==> base in existing && key == Fcstd.Suffixed(base, counter)
      invariant counter >= 2 ==> tried == Fcstd.Tried(base, 2, counter)
      invariant tried <= existing
      invariant forall m: nat :: 2 <= m < counter ==> Fcstd.Suffixed(base, m) in existing
      decreases |existing - tried| + (if counter == 1 then 1 else 0)
    {
      if counter >= 2 {
        Fcstd.TriedStep(base, 2, counter);
        assert existing - (tried + {key}) < existing - tried;
        tried := tried + {key};
      } else {
        assert forall x :: x !in Fcstd.Tried(base, 2, 2);
      }
      counter := counter + 1;
      key := Fcstd.Suffixed(base, counter);
    }
  }

  /** `get_expressions`: one entry per `Expression[@expression]` element,
      none overwritten; a file that is not an archive and an entry that does
      not decode raise `ValueError`, malformed XML raises `ParseError`. */
  method GetExpressions(f: FcFile) returns (r: Result<OrderedMap<string>>)
    ensures r.Err? <==> DecodeEntry(f).Err?
    ensures r.Err? ==> r.error == DecodeEntry(f).error
    ensures r.Ok? ==> forall n :: n in Fcstd.ExpressionNodes(DecodeEntry(f).value) ==> "expression" in n.elem.attrib
    ensures r.Ok? ==>
      Fcstd.KeyedEntries(r.value, Entries(DecodeEntry(f).value, Fcstd.ExpressionNodes(DecodeEntry(f).value)), 2)
  {
    var doc := DecodeEntry(f);
    if doc.Err? {
      return Err(doc.error);
    }
    var root := doc.value;
    var found := Fcstd.ExpressionNodes(root);
    assert forall n :: n in found ==> "expression" in n.elem.attrib;
    var expressions: OrderedMap<string> := Empty();
    for i := 0 to |found|
      invariant Fcstd.KeyedEntries(expressions, Entries(root, found[..i]), 2)
    {
      EntriesSnoc(root, found, i);
      var context := Fcstd.FindParentWithIdentifier(root, found[i].path).1;
      var value := Unescape(found[i].elem.attrib["expression"]);
      expressions := StoreExpression(expressions, Entries(root, found[..i]), context, value);
    }
    assert found[..|found|] == found;
    r := Ok(expressions);
  }

  /** The loop body of `get_expressions`: the value is stored under the next
      free key for its context. */
  method StoreExpression(expressions: OrderedMap<string>, ghost entries: seq<(string, string)>, context: string, value: string)
    returns (r: OrderedMap<string>)
    requires Fcstd.KeyedEntries(expressions, entries, 2)
    ensures Fcstd.KeyedEntries(r, entries + [(context, value)], 2)
  {
    var key := NextFreeKey(context, Fcstd.KeySet(expressions.keys));
    Fcstd.AddKeyed(expressions, entries, key, context, value, 2);
    r := Put(expressions, key, value);
  }

  // -------------------------------------------------------------------------
  // References
  // -------------------------------------------------------------------------

  /** One expression element in `_parse_document_references`: the unescaped
      text is searched with the legacy grammar, and a match becomes a reference
      of the object in the file, with no spreadsheet and the alias field left
      empty. */
  function ExpressionPair(e: Element, objName: string, filename: string): Option<Pair> {
    if "expression" !in e.attrib then None
    else
      var text := Unescape(e.attrib["expression"]);
      match LegacyParseReference(text)
      case Some(alias) => if alias != "" then Some((alias, Reference(objName, text, Some(filename), None, ""))) else None
      case None => None
  }

  /** The pairs of the expression elements `ns` of one object, in order. */
  function ExpressionPairs(ns: seq<Node>, objName: string, filename: string): seq<Pair>
    decreases |ns|
  {
    if ns == [] then []
    else
      ExpressionPairs(ns[..|ns| - 1], objName, filename) +
      match ExpressionPair(ns[|ns| - 1].elem, objName, filename)
      case Some(p) => [p]
      case None => []
  }

  /** The pairs of the named objects `objs`, in order. */
  function ObjectsPairs(objs: seq<Node>, filename: string): seq<Pair>
    requires forall o :: o in objs ==> "name" in o.elem.attrib
    decreases |objs|
  {
    if objs == [] then []
    else
      var o := objs[|objs| - 1];
      assert o in objs;
      ObjectsPairs(objs[..|objs| - 1], filename) +
      ExpressionPairs(FcstdReferences.ObjectExpressions(o), o.elem.attrib["name"], filename)
  }

  /** What `_parse_document_references` returns for a parsed document. */
  function DocumentReferences(root: Element, filename: string): (r: RefMap)
    ensures r.Valid()
  {
    Grouped(ObjectsPairs(FcstdReferences.NamedObjects(root), filename))
  }

  /** Every pair of one object is a reference of that object in the file,
      under the non-empty alias its stored text parses to. */
  lemma {:induction false} ExpressionPairsSound(ns: seq<Node>, objName: string, filename: string, p: Pair)
    requires p in ExpressionPairs(ns, objName, filename)
    ensures p.0 != "" && LegacyParseReference(p.1.expression) == Some(p.0)
    ensures p.1 == Reference(objName, p.1.expression, Some(filename), None, "")
    decreases |ns|
  {
    if p in ExpressionPairs(ns[..|ns| - 1], objName, filename) {
      ExpressionPairsSound(ns[..|ns| - 1], objName, filename, p);
    }
  }

  /** Every pair of the document names one of its named objects. */
  lemma {:induction false} ObjectsPairsSound(objs: seq<Node>, filename: string, p: Pair)
    requires forall o :: o in objs ==> "name" in o.elem.attrib
    requires p in ObjectsPairs(objs, filename)
    ensures p.0 != "" && LegacyParseReference(p.1.expression) == Some(p.0)
    ensures p.1.filename == Some(filename) && p.1.spreadsheet == None && p.1.alias == ""
    ensures exists o :: o in objs && p.1.objectName == o.elem.attrib["name"]
    decreases |objs|
  {
    var init := objs[..|objs| - 1];
    var o := objs[|objs| - 1];
    assert o in objs;
    if p in ObjectsPairs(init, filename) {
      ObjectsPairsSound(init, filename, p);
      var q :| q in init && p.1.objectName == q.elem.attrib["name"];
      assert q in objs;
    } else {
      ExpressionPairsSound(FcstdReferences.ObjectExpressions(o), o.elem.attrib["name"], filename, p);
    }
  }

  /** Every reference the document parser files under `a` has an expression
      the legacy grammar reads as `a`, belongs to a named object and carries
      the file name it was given; no reference is filed under `""`. */
  lemma DocumentReferencesSound(root: Element, filename: string, a: string, r: Reference)
    requires r in Refs(DocumentReferences(root, filename), a)
    ensures a != "" && LegacyParseReference(r.expression) == Some(a)
    ensures r.filename == Some(filename) && r.spreadsheet == None && r.alias == ""
    ensures exists o :: o in FcstdReferences.NamedObjects(root) && r.objectName == o.elem.attrib["name"]
  {
    var objs := FcstdReferences.NamedObjects(root);
    var pairs := ObjectsPairs(objs, filename);
    GroupedRefs(pairs, a);
    AliasRefsFrom(pairs, a, r);
    var p :| p in pairs && p.0 == a && p.1 == r;
    ObjectsPairsSound(objs, filename, p);
  }

  /** Conversely, every expression element that yields a pair contributes it. */
  lemma {:induction false} ExpressionPairsComplete(ns: seq<Node>, objName: string, filename: string, n: Node)
    requires n in ns && ExpressionPair(n.elem, objName, filename).Some?
    ensures ExpressionPair(n.elem, objName, filename).value in ExpressionPairs(ns, objName, filename)
    decreases |ns|
  {
    InSnoc(ns, n);
    if n in ns[..|ns| - 1] {
      ExpressionPairsComplete(ns[..|ns| - 1], objName, filename, n);
    }
  }

  /** Every matching expression of a listed object contributes its pair. */
  lemma {:induction false} ObjectsPairsComplete(objs: seq<Node>, filename: string, o: Node, n: Node)
    requires forall q :: q in objs ==> "name" in q.elem.attrib
    requires o in objs && n in FcstdReferences.ObjectExpressions(o)
    requires ExpressionPair(n.elem, o.elem.attrib["name"], filename).Some?
    ensures ExpressionPair(n.elem, o.elem.attrib["name"], filename).value in ObjectsPairs(objs, filename)
    decreases |objs|
  {
    InSnoc(objs, o);
    if o in objs[..|objs| - 1] {
      ObjectsPairsComplete(objs[..|objs| - 1], filename, o, n);
    } else {
      ExpressionPairsComplete(FcstdReferences.ObjectExpressions(o), o.elem.attrib["name"], filename, n);
    }
  }

  /** Every `Expression[@expression]` under every named `Object` in which the
      legacy grammar finds a non-empty alias is filed under that alias. */
  lemma DocumentReferencesComplete(root: Element, filename: string, o: Node, n: Node)
    requires o in FcstdReferences.NamedObjects(root) && n in FcstdReferences.ObjectExpressions(o)
    requires ExpressionPair(n.elem, o.elem.attrib["name"], filename).Some?
    ensures var p := ExpressionPair(n.elem, o.elem.attrib["name"], filename).value;
      p.1 in Refs(DocumentReferences(root, filename), p.0)
  {
    var objs := FcstdReferences.NamedObjects(root);
    ObjectsPairsComplete(objs, filename, o, n);
    GroupedHas(ObjectsPairs(objs, filename), ExpressionPair(n.elem, o.elem.attrib["name"], filename).value);
  }

  /** One more expression element of an object, after the pairs `pre` of
      the objects before it. */
  lemma ExpressionPairsSnoc(pre: seq<Pair>, exprs: seq<Node>, j: nat, objName: string, filename: string)
    requires j < |exprs|
    ensures var found := ExpressionPair(exprs[j].elem, objName, filename);
      && (found.None? ==> pre + ExpressionPairs(exprs[..j + 1], objName, filename) == pre + ExpressionPairs(exprs[..j], objName, filename))
      && (found.Some? ==> pre + ExpressionPairs(exprs[..j + 1], objName, filename) == (pre + ExpressionPairs(exprs[..j], objName, filename)) + [found.value])
  {
    assert exprs[..j + 1][..j] == exprs[..j];
  }

  /** One more named object. */
  lemma ObjectsPairsSnoc(objs: seq<Node>, i: nat, filename: string)
    requires forall o :: o in objs ==> "name" in o.elem.attrib
    requires i < |objs|
    ensures objs[i] in objs
    ensures ObjectsPairs(objs[..i + 1], filename) ==
      ObjectsPairs(objs[..i], filename) +
      ExpressionPairs(FcstdReferences.ObjectExpressions(objs[i]), objs[i].elem.attrib["name"], filename)
  {
    assert objs[..i + 1][..i] == objs[..i];
  }

  /** `_parse_document_references` on a parsed tree: the nested loops file
      each match under its alias as they go. */
  method ParseDocumentReferences(root: Element, filename: string) returns (refs: RefMap)
    ensures refs == DocumentReferences(root, filename)
  {
    var objs := FcstdReferences.NamedObjects(root);
    refs := Empty();
    ghost var seen: seq<Pair> := [];
    for i := 0 to |objs|
      invariant seen == ObjectsPairs(objs[..i], filename)
      invariant refs == Grouped(seen)
    {
      ObjectsPairsSnoc(objs, i, filename);
      var objName := objs[i].elem.attrib["name"];
      var exprs := FcstdReferences.ObjectExpressions(objs[i]);
      refs := AddObjectReferences(refs, seen, exprs, objName, filename);
      seen := seen + ExpressionPairs(exprs, objName, filename);
    }
    assert objs[..|objs|] == objs;
  }

  /** The inner loop of `_parse_document_references`: the matches among one
      object's expression elements, filed into `refs` as they are found. */
  method AddObjectReferences(refs: RefMap, ghost seen: seq<Pair>, exprs: seq<Node>, objName: string, filename: string)
    returns (r: RefMap)
    requires refs == Grouped(seen)
    ensures r == Grouped(seen + ExpressionPairs(exprs, objName, filename))
  {
    r := refs;
    ghost var cur := seen;
    for j := 0 to |exprs|
      invariant cur == seen + ExpressionPairs(exprs[..j], objName, filename)
      invariant r == Grouped(cur)
    {
      ExpressionPairsSnoc(seen, exprs, j, objName, filename);
      var found := ExpressionPair(exprs[j].elem, objName, filename);
      if found.Some? {
        var (alias, ref) := found.value;
        GroupedSnoc(cur, (alias, ref));
        r := CreateAndExtend(r, alias, [ref]);
        cur := cur + [(alias, ref)];
      }
    }
    assert exprs[..|exprs|] == exprs;
  }

  /** What `get_references` returns or raises; the references carry the path
      the file was opened by. */
  function FileReferences(f: FcFile): (r: Result<RefMap>)
    ensures r.Ok? ==> r.value.Valid()
  {
    match DecodeEntry(f)
    case Ok(root) => Ok(DocumentReferences(root, f.path))
    case Err(e) => Err(e)
  }

  /** `get_references`. */
  method GetReferences(f: FcFile) returns (r: Result<RefMap>)
    ensures r == FileReferences(f)
  {
    var doc := DecodeEntry(f);
    if doc.Err? {
      return Err(doc.error);
    }
    var refs := ParseDocumentReferences(doc.value, f.path);
    r := Ok(refs);
  }

  /** The references `refs` with their file name overwritten by `name`. */
  function Renamed(refs: seq<Reference>, name: string): (r: seq<Reference>)
    ensures |r| == |refs|
    ensures forall i :: 0 <= i < |refs| ==> r[i] == refs[i].(filename := Some(name))
    decreases |refs|
  {
    if refs == [] then []
    else Renamed(refs[..|refs| - 1], name) + [refs[|refs| - 1].(filename := Some(name))]
  }

  /** The inner loop of `get_references_from_files` that sets each
      reference's `filename` to the file's base name. */
  method BackFill(refs: seq<Reference>, name: string) returns (out: seq<Reference>)
    ensures out == Renamed(refs, name)
  {
    out := [];
    for j := 0 to |refs|
      invariant out == Renamed(refs[..j], name)
    {
      assert refs[..j + 1][..j] == refs[..j];
      out := out + [refs[j].(filename := Some(name))];
    }
    assert refs[..|refs|] == refs;
  }

  /** A per-file dictionary after the back-fill: same aliases, same order. */
  function WithFilename(m: RefMap, name: string): (r: RefMap)
    ensures m.Valid() ==> r.Valid()
    ensures r.keys == m.keys
  {
    OrderedMap(m.keys, map a | a in m.items :: Renamed(m.items[a], name))
  }

  /** The back-fill renames every list and moves none. */
  lemma WithFilenameRefs(m: RefMap, name: string, a: string)
    ensures Refs(WithFilename(m, name), a) == Renamed(Refs(m, a), name)
    ensures a in WithFilename(m, name).items <==> a in m.items
  {
  }

  /** The result of `get_references_from_files`: a `ValueError` skips the
      file, a `ParseError` escapes and ends the whole call. */
  function FilesReferences(files: seq<FcFile>): (r: Result<RefMap>)
    ensures r.Ok? ==> r.value.Valid()
    decreases |files|
  {
    if files == [] then Ok(Empty())
    else match FilesReferences(files[..|files| - 1])
      case Err(e) => Err(e)
      case Ok(all) =>
        var f := files[|files| - 1];
        match FileReferences(f)
        case Ok(refs) => Ok(Merged(all, WithFilename(refs, f.name)))
        case Err(e) => if e == Value then Ok(all) else Err(e)
  }

  /** Once a prefix of the files has raised, so has the whole call. */
  lemma {:induction false} FilesReferencesStops(files: seq<FcFile>, n: nat)
    requires n <= |files| && FilesReferences(files[..n]).Err?
    ensures FilesReferences(files) == FilesReferences(files[..n])
    decreases |files|
  {
    if n < |files| {
      var init := files[..|files| - 1];
      assert init[..n] == files[..n];
      FilesReferencesStops(init, n);
    } else {
      assert files[..n] == files;
    }
  }

  /** One more alias of a file's dictionary merged in: its list is extended
      by its renamed references. */
  lemma BackFillStep(start: RefMap, all: RefMap, refs: RefMap, name: string, k: nat)
    requires refs.Valid() && k < |refs.keys|
    requires all == MergeKeys(start, refs.keys[..k], WithFilename(refs, name).items)
    ensures refs.keys[k] in refs.items
    ensures var a := refs.keys[k];
      MergeKeys(start, refs.keys[..k + 1], WithFilename(refs, name).items) == Put(all, a, Refs(all, a) + Renamed(refs.items[a], name))
  {
    var a := refs.keys[k];
    var ks := refs.keys[..k + 1];
    assert ks[..k] == refs.keys[..k] && ks[k] == a;
    var items := WithFilename(refs, name).items;
    assert Get(items, a) == Renamed(refs.items[a], name);
  }

  /** One more file in the batch. */
  lemma FilesReferencesSnoc(files: seq<FcFile>, i: nat)
    requires i < |files| && FilesReferences(files[..i]).Ok?
    ensures var all := FilesReferences(files[..i]).value;
      var f := files[i];
      FilesReferences(files[..i + 1]) ==
        match FileReferences(f)
        case Ok(refs) => Ok(Merged(all, WithFilename(refs, f.name)))
        case Err(e) => if e == Value then Ok(all) else Err(e)
  {
    assert files[..i + 1][..i] == files[..i];
  }

  /** `get_references_from_files`. */
  method GetReferencesFromFiles(files: seq<FcFile>) returns (r: Result<RefMap>)
    ensures r == FilesReferences(files)
  {
    var all: RefMap := Empty();
    for i := 0 to |files|
      invariant FilesReferences(files[..i]) == Ok(all)
    {
      FilesReferencesSnoc(files, i);
      var fileRefs := GetReferences(files[i]);
      if fileRefs.Err? {
        if fileRefs.error == Value {
          continue;
        }
        FilesReferencesStops(files, i + 1);
        return Err(fileRefs.error);
      }
      var refs := fileRefs.value;
      var name := files[i].name;
      ghost var start := all;
      for k := 0 to |refs.keys|
        invariant all == MergeKeys(start, refs.keys[..k], WithFilename(refs, name).items)
      {
        BackFillStep(start, all, refs, name, k);
        var alias := refs.keys[k];
        var renamed := BackFill(refs.items[alias], name);
        all := CreateAndExtend(all, alias, renamed);
      }
      assert refs.keys[..|refs.keys|] == refs.keys;
      assert all == Merged(start, WithFilename(refs, name));
    }
    assert files[..|files|] == files;
    r := Ok(all);
  }

  /** The references of alias `a` over `files`: each readable file's list,
      renamed to the file's base name, in file order. */
  function FilesAliasRefs(files: seq<FcFile>, a: string): seq<Reference>
    decreases |files|
  {
    if files == [] then []
    else
      var f := files[|files| - 1];
      FilesAliasRefs(files[..|files| - 1], a) +
      match FileReferences(f)
      case Ok(refs) => Renamed(Refs(refs, a), f.name)
      case Err(_) => []
  }

  /** When the call returns, each alias holds the per-file lists one after the
      other, every reference carrying its file's base name. */
  lemma {:induction false} FilesReferencesConcat(files: seq<FcFile>, a: string)
    requires FilesReferences(files).Ok?
    ensures Refs(FilesReferences(files).value, a) == FilesAliasRefs(files, a)
    decreases |files|
  {
    if files != [] {
      var init := files[..|files| - 1];
      var f := files[|files| - 1];
      FilesReferencesConcat(init, a);
      if FileReferences(f).Ok? {
        MergedAppends(FilesReferences(init).value, WithFilename(FileReferences(f).value, f.name), a);
        WithFilenameRefs(FileReferences(f).value, f.name, a);
      }
    }
  }

  /** The call raises exactly when some file is an archive whose entry decodes
      but is not well-formed XML, and the error is then a `ParseError`. */
  lemma {:induction false} FilesReferencesFails(files: seq<FcFile>)
    ensures FilesReferences(files).Err? <==> exists i :: 0 <= i < |files| && Malformed(files[i])
    ensures FilesReferences(files).Err? ==> FilesReferences(files).error == XmlParse
    decreases |files|
  {
    if files != [] {
      var init := files[..|files| - 1];
      var last := files[|files| - 1];
      FilesReferencesFails(init);
      if FilesReferences(init).Err? {
        var i :| 0 <= i < |init| && Malformed(init[i]);
        assert files[i] == init[i];
      } else {
        assert forall i :: 0 <= i < |init| ==> files[i] == init[i];
        assert FileReferences(last).Err? && FileReferences(last).error != Value <==> Malformed(last);
      }
    }
  }

}
