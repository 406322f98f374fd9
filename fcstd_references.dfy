/** Reference extraction of the current package (`src/fc_audit/fcstd.py`):
    the per-expression and per-object parsers, the per-document parser with
    its grouping, the per-file entry point and the batch driver. */
module FcstdReferences {
  import opened Wrappers
  import opened Text
  import opened XmlTree
  import opened OrderedMaps
  import opened References
  import opened ExpressionGrammar

  // -------------------------------------------------------------------------
  // `_parse_expression_element` and `_parse_object_element`
  // -------------------------------------------------------------------------

  /** `_parse_expression_element`: the alias and a reference holding the
      unescaped text, or nothing when the attribute is missing or no alias is
      found. */
  function ParseExpressionElement(e: Element, objName: string, filename: string): (r: Option<Pair>)
    ensures r.Some? <==> "expression" in e.attrib && ParseReference(Unescape(e.attrib["expression"])).Some?
    ensures r.Some? ==>
      && r.value.0 == r.value.1.alias
      && ParseReference(r.value.1.expression) == Some(r.value.0)
      && r.value.1.expression == Unescape(e.attrib["expression"])
      && r.value.1.objectName == objName && r.value.1.filename == Some(filename)
      && r.value.1.spreadsheet == None
  {
    if "expression" !in e.attrib then None
    else
      var text := Unescape(e.attrib["expression"]);
      match ParseReference(text)
      case Some(alias) => Some((alias, Reference(objName, text, Some(filename), None, alias)))
      case None => None
  }

  /** The pairs the expression elements `ns` yield in order. */
  function ExpressionPairs(ns: seq<Node>, objName: string, filename: string): seq<Pair>
    decreases |ns|
  {
    if ns == [] then []
    else
      ExpressionPairs(ns[..|ns| - 1], objName, filename) +
      match ParseExpressionElement(ns[|ns| - 1].elem, objName, filename)
      case Some(p) => [p]
      case None => []
  }

  /** Every pair the expression elements yield is a reference of the object,
      in the file, whose stored text parses to the alias it is paired with. */
  lemma {:induction false} ExpressionPairsSound(ns: seq<Node>, objName: string, filename: string, p: Pair)
    requires p in ExpressionPairs(ns, objName, filename)
    ensures p.1.objectName == objName && p.1.filename == Some(filename)
    ensures p.0 == p.1.alias && ParseReference(p.1.expression) == Some(p.0)
    ensures exists n :: n in ns && ParseExpressionElement(n.elem, objName, filename) == Some(p)
    decreases |ns|
  {
    var init := ns[..|ns| - 1];
    if p in ExpressionPairs(init, objName, filename) {
      ExpressionPairsSound(init, objName, filename, p);
      var n :| n in init && ParseExpressionElement(n.elem, objName, filename) == Some(p);
      assert n in ns;
    } else {
      assert ns[|ns| - 1] in ns;
    }
  }

  /** Conversely, every expression element that yields a pair contributes it. */
  lemma {:induction false} ExpressionPairsComplete(ns: seq<Node>, objName: string, filename: string, n: Node)
    requires n in ns && ParseExpressionElement(n.elem, objName, filename).Some?
    ensures ParseExpressionElement(n.elem, objName, filename).value in ExpressionPairs(ns, objName, filename)
    decreases |ns|
  {
    InSnoc(ns, n);
    if n in ns[..|ns| - 1] {
      ExpressionPairsComplete(ns[..|ns| - 1], objName, filename, n);
    }
  }

  /** The elements `obj.findall(".//Expression[@expression]")` returns. */
  function ObjectExpressions(obj: Node): (ns: seq<Node>)
    ensures forall n :: n in ns ==> "expression" in n.elem.attrib
  {
    FindAll(Descendants(obj.elem, obj.path), "Expression", Some("expression"))
  }

  /** What `_parse_object_element` returns: nothing for an object without a
      name, else the pairs of its expressions in document order. */
  function ObjectPairs(obj: Node, filename: string): seq<Pair> {
    if "name" !in obj.elem.attrib then []
    else ExpressionPairs(ObjectExpressions(obj), obj.elem.attrib["name"], filename)
  }

  /** `_parse_object_element`. */
  method ParseObjectElement(obj: Node, filename: string) returns (refs: seq<Pair>)
    ensures refs == ObjectPairs(obj, filename)
  {
    refs := [];
    if "name" !in obj.elem.attrib {
      return;
    }
    var objName := obj.elem.attrib["name"];
    var exprs := ObjectExpressions(obj);
    for i := 0 to |exprs|
      invariant refs == ExpressionPairs(exprs[..i], objName, filename)
    {
      assert exprs[..i + 1][..i] == exprs[..i];
      var result := ParseExpressionElement(exprs[i].elem, objName, filename);
      if result.Some? {
        refs := refs + [result.value];
      }
    }
    assert exprs[..|exprs|] == exprs;
  }

  /** An object's pairs all name it and carry the file's name. */
  lemma ObjectPairsSound(obj: Node, filename: string, p: Pair)
    requires p in ObjectPairs(obj, filename)
    ensures "name" in obj.elem.attrib && p.1.objectName == obj.elem.attrib["name"]
    ensures p.1.filename == Some(filename)
    ensures p.0 == p.1.alias && ParseReference(p.1.expression) == Some(p.0)
  {
    ExpressionPairsSound(ObjectExpressions(obj), obj.elem.attrib["name"], filename, p);
  }

  /** Every expression of a named object that yields a pair is among the
      object's pairs. */
  lemma ObjectPairsComplete(obj: Node, filename: string, n: Node)
    requires "name" in obj.elem.attrib && n in ObjectExpressions(obj)
    requires ParseExpressionElement(n.elem, obj.elem.attrib["name"], filename).Some?
    ensures ParseExpressionElement(n.elem, obj.elem.attrib["name"], filename).value in ObjectPairs(obj, filename)
  {
    ExpressionPairsComplete(ObjectExpressions(obj), obj.elem.attrib["name"], filename, n);
  }

  // -------------------------------------------------------------------------
  // `_parse_document_references`
  // -------------------------------------------------------------------------

  /** The pair the document parser files one expression element under, or
      nothing when the element lacks the attribute. A matching expression goes
      under its alias with the raw text and the alias field left empty; any
      other goes under `Object[name]` with its fields shifted by one position
      (file name as object name, object name as expression, text as file
      name), as the positional constructor call writes them. */
  function DocumentPair(e: Element, objName: string, filename: string): Option<Pair> {
    if "expression" !in e.attrib then None
    else
      var text := e.attrib["expression"];
      match ParseReference(text)
      case Some(alias) => Some((alias, Reference(objName, text, Some(filename), None, "")))
      case None => Some(("Object[" + objName + "]", Reference(filename, objName, Some(text), None, "")))
  }

  /** The pairs of the expression elements `ns` of one object, in order. */
  function DocumentExpressionPairs(ns: seq<Node>, objName: string, filename: string): seq<Pair>
    decreases |ns|
  {
    if ns == [] then []
    else
      DocumentExpressionPairs(ns[..|ns| - 1], objName, filename) +
      match DocumentPair(ns[|ns| - 1].elem, objName, filename)
      case Some(p) => [p]
      case None => []
  }

  /** Every element of `Expression` tag below an object, with or without the attribute. */
  function AllObjectExpressions(obj: Node): seq<Node> {
    FindAll(Descendants(obj.elem, obj.path), "Expression", None)
  }

  /** The pairs of the named objects `objs`, in order. */
  function DocumentObjectsPairs(objs: seq<Node>, filename: string): seq<Pair>
    requires forall o :: o in objs ==> "name" in o.elem.attrib
    decreases |objs|
  {
    if objs == [] then []
    else
      var o := objs[|objs| - 1];
      assert o in objs;
      DocumentObjectsPairs(objs[..|objs| - 1], filename) +
      DocumentExpressionPairs(AllObjectExpressions(o), o.elem.attrib["name"], filename)
  }

  /** The objects `findall(".//Object[@name]")` returns. */
  function NamedObjects(root: Element): (objs: seq<Node>)
    ensures forall o :: o in objs ==> "name" in o.elem.attrib
  {
    FindAll(Descendants(root, []), "Object", Some("name"))
  }

  /** The dictionary `_parse_document_references` returns: the pairs grouped
      by key, or `{}` when the XML does not parse. */
  function DocumentReferences(parsed: Parsed, filename: string): (r: RefMap)
    ensures r.Valid()
  {
    match parsed
    case Malformed => Empty()
    case Wellformed(root) => Grouped(DocumentObjectsPairs(NamedObjects(root), filename))
  }

  /** Every pair of the document parser is either a reference under the alias
      its raw text parses to, or a shifted record under `Object[name]` of a text
      in which no alias is found. */
  lemma {:induction false} DocumentExpressionPairsShape(ns: seq<Node>, objName: string, filename: string, p: Pair)
    requires p in DocumentExpressionPairs(ns, objName, filename)
    ensures p.1.alias == "" && p.1.spreadsheet == None
    ensures
      || (ParseReference(p.1.expression) == Some(p.0) && p.1.objectName == objName && p.1.filename == Some(filename))
      || (&& p.0 == "Object[" + objName + "]" && p.1.objectName == filename && p.1.expression == objName
          && p.1.filename.Some? && ParseReference(p.1.filename.value) == None)
    decreases |ns|
  {
    if p in DocumentExpressionPairs(ns[..|ns| - 1], objName, filename) {
      DocumentExpressionPairsShape(ns[..|ns| - 1], objName, filename, p);
    }
  }

  /** Every expression element with the attribute contributes its pair. */
  lemma {:induction false} DocumentExpressionPairsComplete(ns: seq<Node>, objName: string, filename: string, n: Node)
    requires n in ns && "expression" in n.elem.attrib
    ensures DocumentPair(n.elem, objName, filename).Some?
    ensures DocumentPair(n.elem, objName, filename).value in DocumentExpressionPairs(ns, objName, filename)
    decreases |ns|
  {
    InSnoc(ns, n);
    if n in ns[..|ns| - 1] {
      DocumentExpressionPairsComplete(ns[..|ns| - 1], objName, filename, n);
    }
  }

  /** Every expression element with the attribute of a listed object
      contributes its pair. */
  lemma {:induction false} DocumentObjectsPairsComplete(objs: seq<Node>, filename: string, o: Node, n: Node)
    requires forall q :: q in objs ==> "name" in q.elem.attrib
    requires o in objs && n in AllObjectExpressions(o) && "expression" in n.elem.attrib
    ensures DocumentPair(n.elem, o.elem.attrib["name"], filename).Some?
    ensures DocumentPair(n.elem, o.elem.attrib["name"], filename).value in DocumentObjectsPairs(objs, filename)
    decreases |objs|
  {
    InSnoc(objs, o);
    if o in objs[..|objs| - 1] {
      DocumentObjectsPairsComplete(objs[..|objs| - 1], filename, o, n);
    } else {
      DocumentExpressionPairsComplete(AllObjectExpressions(o), o.elem.attrib["name"], filename, n);
    }
  }

  /** Every `Expression` element carrying `expression` under every named
      `Object` is filed in the document's dictionary, under its key. */
  lemma DocumentReferencesComplete(root: Element, filename: string, o: Node, n: Node)
    requires o in NamedObjects(root) && n in AllObjectExpressions(o) && "expression" in n.elem.attrib
    ensures DocumentPair(n.elem, o.elem.attrib["name"], filename).Some?
    ensures var p := DocumentPair(n.elem, o.elem.attrib["name"], filename).value;
      p.1 in Refs(DocumentReferences(Wellformed(root), filename), p.0)
  {
    var objs := NamedObjects(root);
    DocumentObjectsPairsComplete(objs, filename, o, n);
    GroupedHas(DocumentObjectsPairs(objs, filename), DocumentPair(n.elem, o.elem.attrib["name"], filename).value);
  }

  /** One more named object. */
  lemma DocumentObjectsPairsSnoc(objs: seq<Node>, i: nat, filename: string)
    requires forall o :: o in objs ==> "name" in o.elem.attrib
    requires i < |objs|
    ensures "name" in objs[i].elem.attrib
    ensures DocumentObjectsPairs(objs[..i + 1], filename) ==
      DocumentObjectsPairs(objs[..i], filename) +
      DocumentExpressionPairs(AllObjectExpressions(objs[i]), objs[i].elem.attrib["name"], filename)
  {
    assert objs[i] in objs;
    assert objs[..i + 1][..i] == objs[..i];
  }

  /** `_parse_document_references`: the nested loops gather the pairs, then
      they are grouped. */
  method ParseDocumentReferences(parsed: Parsed, filename: string) returns (refs: RefMap)
    ensures refs == DocumentReferences(parsed, filename)
  {
    if parsed.Malformed? {
      return Empty();
    }
    var objs := NamedObjects(parsed.root);
    var pairs: seq<Pair> := [];
    for i := 0 to |objs|
      invariant pairs == DocumentObjectsPairs(objs[..i], filename)
    {
      DocumentObjectsPairsSnoc(objs, i, filename);
      var objName := objs[i].elem.attrib["name"];
      var found := ParseObjectExpressions(AllObjectExpressions(objs[i]), objName, filename);
      pairs := pairs + found;
    }
    assert objs[..|objs|] == objs;
    refs := GroupByAlias(pairs);
  }

  /** The inner loop of `_parse_document_references`: the pairs of one
      object's expression elements, in order. */
  method ParseObjectExpressions(exprs: seq<Node>, objName: string, filename: string) returns (pairs: seq<Pair>)
    ensures pairs == DocumentExpressionPairs(exprs, objName, filename)
  {
    pairs := [];
    for j := 0 to |exprs|
      invariant pairs == DocumentExpressionPairs(exprs[..j], objName, filename)
    {
      assert exprs[..j + 1][..j] == exprs[..j];
      var p := DocumentPair(exprs[j].elem, objName, filename);
      if p.Some? {
        pairs := pairs + [p.value];
      }
    }
    assert exprs[..|exprs|] == exprs;
  }

  // -------------------------------------------------------------------------
  // `get_references` and `get_references_from_files`
  // -------------------------------------------------------------------------

  /** `get_references`: an invalid archive or an unreadable entry raises;
      a parse failure yields `{}`. */
  function GetReferences(f: FcFile): (r: Result<RefMap>)
    ensures r.Ok? ==> r.value.Valid()
    ensures r.Err? <==> !IsFcstdFile(f) || !f.archive.document.utf8 || !f.archive.document.declared
    ensures r.Ok? && f.archive.document.parsed.Malformed? ==> r.value.keys == []
  {
    if !IsFcstdFile(f) then Err(InvalidFile)
    else if !f.archive.document.utf8 || !f.archive.document.declared then Err(InvalidFile)
    else Ok(DocumentReferences(f.archive.document.parsed, f.name))
  }

  /** What one file adds to the batch: nothing when it raises. */
  function FileReferences(f: FcFile): (r: RefMap)
    ensures r.Valid()
  {
    match GetReferences(f)
    case Ok(refs) => refs
    case Err(_) => Empty()
  }

  /** The batch result: the per-file dictionaries merged in file order. */
  function FilesReferences(files: seq<FcFile>): (r: RefMap)
    ensures r.Valid()
    decreases |files|
  {
    if files == [] then Empty()
    else Merged(FilesReferences(files[..|files| - 1]), FileReferences(files[|files| - 1]))
  }

  /** `get_references_from_files`: every failure is swallowed. */
  method GetReferencesFromFiles(files: seq<FcFile>) returns (all: RefMap)
    ensures all == FilesReferences(files)
  {
    all := Empty();
    for i := 0 to |files|
      invariant all == FilesReferences(files[..i])
    {
      assert files[..i + 1][..i] == files[..i];
      if !IsFcstdFile(files[i]) {
        continue;
      }
      var references := GetReferences(files[i]);
      if references.Err? {
        continue;
      }
      all := MergeReferences(all, references.value);
      assert all == Merged(FilesReferences(files[..i]), FileReferences(files[i]));
    }
    assert files[..|files|] == files;
  }

  /** The references of alias `a` over `files`: each file's list in file order. */
  function FilesAliasRefs(files: seq<FcFile>, a: string): seq<Reference>
    decreases |files|
  {
    if files == [] then []
    else FilesAliasRefs(files[..|files| - 1], a) + Refs(FileReferences(files[|files| - 1]), a)
  }

  /** The batch result holds, under each alias, the per-file lists one after
      the other, and its size is the sum of theirs. */
  lemma {:induction false} FilesReferencesConcat(files: seq<FcFile>, a: string)
    ensures Refs(FilesReferences(files), a) == FilesAliasRefs(files, a)
    decreases |files|
  {
    if files != [] {
      FilesReferencesConcat(files[..|files| - 1], a);
      MergedAppends(FilesReferences(files[..|files| - 1]), FileReferences(files[|files| - 1]), a);
    }
  }

  /** An empty batch, or one where no file can be read, yields `{}`. */
  lemma {:induction false} FilesReferencesEmpty(files: seq<FcFile>)
    requires forall f :: f in files ==> GetReferences(f).Err?
    ensures FilesReferences(files).keys == []
    decreases |files|
  {
    if files != [] {
      FilesReferencesEmpty(files[..|files| - 1]);
      assert files[|files| - 1] in files;
      assert FileReferences(files[|files| - 1]).keys == [];
    }
  }
}
