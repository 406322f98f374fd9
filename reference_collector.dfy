/** `src/fc_audit/reference_collector.py`: the stateful collector that walks a
    list of files and accumulates their references. */
module Collector {
  import opened Wrappers
  import opened Text
  import opened XmlTree
  import opened OrderedMaps
  import opened References
  import opened ExpressionGrammar
  import FcstdReferences

  /** The alias-keyed references of one parsed document, as the collector
      files them: every `Object` element is visited, those without a name
      contribute nothing. */
  function DocumentReferences(parsed: Parsed, filename: string): (r: RefMap)
    ensures r.Valid()
  {
    match parsed
    case Malformed => Empty()
    case Wellformed(root) => Grouped(ObjectsPairs(Objects(root), filename))
  }

  /** The elements `root.findall(".//Object")` returns. */
  function Objects(root: Element): seq<Node> {
    FindAll(Descendants(root, []), "Object", None)
  }

  /** The pairs of the objects `objs`, one object after the other. */
  function ObjectsPairs(objs: seq<Node>, filename: string): seq<Pair>
    decreases |objs|
  {
    if objs == [] then []
    else ObjectsPairs(objs[..|objs| - 1], filename) + ReferenceCollector.ObjectPairs(objs[|objs| - 1], filename)
  }

  /** One more object. */
  lemma ObjectsPairsSnoc(objs: seq<Node>, i: nat, filename: string)
    requires i < |objs|
    ensures ObjectsPairs(objs[..i + 1], filename) ==
      ObjectsPairs(objs[..i], filename) + ReferenceCollector.ObjectPairs(objs[i], filename)
  {
    assert objs[..i + 1][..i] == objs[..i];
  }

  /** What `_process_file` merges for a valid archive: nothing when the entry
      does not decode (the `UnicodeDecodeError` propagates), the parsed
      document's references otherwise. The `<?xml` declaration is not checked. */
  function FileReferences(f: FcFile): (r: RefMap)
    requires IsFcstdFile(f)
    ensures r.Valid()
  {
    if f.archive.document.utf8 then DocumentReferences(f.archive.document.parsed, f.name) else Empty()
  }

  /** The base names `collect` records: those of the valid archives among `files`. */
  function ProcessedNames(files: seq<FcFile>): set<string>
    decreases |files|
  {
    if files == [] then {}
    else
      var f := files[|files| - 1];
      ProcessedNames(files[..|files| - 1]) + (if IsFcstdFile(f) then {f.name} else {})
  }

  /** `references` after `collect` has merged the files' results into `start` in order. */
  function CollectedReferences(start: RefMap, files: seq<FcFile>): (r: RefMap)
    ensures start.Valid() ==> r.Valid()
    decreases |files|
  {
    if files == [] then start
    else
      var f := files[|files| - 1];
      var before := CollectedReferences(start, files[..|files| - 1]);
      if IsFcstdFile(f) then Merged(before, FileReferences(f)) else before
  }

  class ReferenceCollector {
    var filePaths: seq<FcFile>
    var references: RefMap
    var processedFiles: set<string>

    /** The dictionary keeps its keys listed once each. */
    ghost predicate Valid()
      reads this
    {
      references.Valid()
    }

    /** `__init__`: nothing collected, nothing processed. */
    constructor (filePaths: seq<FcFile>)
      ensures Valid()
      ensures this.filePaths == filePaths
      ensures references.keys == [] && references.items == map[]
      ensures processedFiles == {}
    {
      this.filePaths := filePaths;
      references := Empty();
      processedFiles := {};
    }

    /** `_parse_expression_element`: the alias and a reference to the
        `params` spreadsheet holding the unescaped text, or nothing. */
    static function ParseExpressionElement(e: Element, objName: string, filename: string): (r: Option<Pair>)
      requires "expression" in e.attrib
      ensures r.Some? <==> CollectorParseReference(Unescape(e.attrib["expression"])).Some?
      ensures r.Some? ==>
        && r.value.0 == r.value.1.alias
        && CollectorParseReference(r.value.1.expression) == Some(r.value.0)
        && r.value.1.expression == Unescape(e.attrib["expression"])
        && r.value.1.objectName == objName && r.value.1.filename == Some(filename)
        && r.value.1.spreadsheet == Some("params")
    {
      var text := Unescape(e.attrib["expression"]);
      match CollectorParseReference(text)
      case Some(alias) => Some((alias, Reference(objName, text, Some(filename), Some("params"), alias)))
      case None => None
    }

    /** The pairs the expressions `ns` of object `objName` yield, in order. */
    static function ExpressionPairs(ns: seq<Node>, objName: string, filename: string): seq<Pair>
      requires forall n :: n in ns ==> "expression" in n.elem.attrib
      decreases |ns|
    {
      if ns == [] then []
      else
        assert ns[|ns| - 1] in ns;
        ExpressionPairs(ns[..|ns| - 1], objName, filename) +
        match ParseExpressionElement(ns[|ns| - 1].elem, objName, filename)
        case Some(p) => [p]
        case None => []
    }

    /** What `_parse_object_element` returns. */
    static function ObjectPairs(obj: Node, filename: string): seq<Pair> {
      if "name" !in obj.elem.attrib then []
      else ExpressionPairs(FcstdReferences.ObjectExpressions(obj), obj.elem.attrib["name"], filename)
    }

    /** `_parse_object_element`. */
    method ParseObjectElement(obj: Node, filename: string) returns (refs: seq<Pair>)
      ensures refs == ObjectPairs(obj, filename)
    {
      if "name" !in obj.elem.attrib {
        return [];
      }
      var objName := obj.elem.attrib["name"];
      refs := [];
      var exprs := FcstdReferences.ObjectExpressions(obj);
      for i := 0 to |exprs|
        invariant refs == ExpressionPairs(exprs[..i], objName, filename)
      {
        assert exprs[..i + 1][..i] == exprs[..i];
        assert exprs[i] in exprs;
        var result := ParseExpressionElement(exprs[i].elem, objName, filename);
        if result.Some? {
          refs := refs + [result.value];
        }
      }
      assert exprs[..|exprs|] == exprs;
    }

    /** `_parse_document_references`: `{}` on a parse error, else each
        object's pairs filed under their aliases as they are met. */
    method ParseDocumentReferences(parsed: Parsed, filename: string) returns (refs: RefMap)
      ensures refs == DocumentReferences(parsed, filename)
    {
      if parsed.Malformed? {
        return Empty();
      }
      var objs := Objects(parsed.root);
      refs := Empty();
      ghost var seen: seq<Pair> := [];
      for i := 0 to |objs|
        invariant seen == ObjectsPairs(objs[..i], filename)
        invariant refs == Grouped(seen)
      {
        ObjectsPairsSnoc(objs, i, filename);
        var pairs := ParseObjectElement(objs[i], filename);
        refs := GroupAppend(refs, pairs);
        GroupedConcat(seen, pairs);
        seen := seen + pairs;
      }
      assert objs[..|objs|] == objs;
    }

    /** `_merge_references`: the append-only merge into `references`. */
    method MergeReferences(newRefs: RefMap)
      requires Valid() && newRefs.Valid()
      modifies this
      ensures Valid()
      ensures references == Merged(old(references), newRefs)
      ensures filePaths == old(filePaths) && processedFiles == old(processedFiles)
    {
      references := References.MergeReferences(references, newRefs);
    }

    /** `_process_file`. An invalid archive raises `ValueError` before any
        state changes; a valid one is recorded first, so it counts as
        processed even when its entry fails to decode (which raises) or its XML
        fails to parse (which contributes nothing). */
    method ProcessFile(f: FcFile) returns (raised: Option<Error>)
      requires Valid()
      modifies this
      ensures Valid()
      ensures filePaths == old(filePaths)
      ensures !IsFcstdFile(f) ==>
        raised == Some(Value) && references == old(references) && processedFiles == old(processedFiles)
      ensures IsFcstdFile(f) ==> processedFiles == old(processedFiles) + {f.name}
      ensures IsFcstdFile(f) ==> references == Merged(old(references), FileReferences(f))
      ensures IsFcstdFile(f) ==> (raised.None? <==> f.archive.document.utf8)
    {
      if !IsFcstdFile(f) {
        return Some(Value);
      }
      processedFiles := processedFiles + {f.name};
      if !f.archive.document.utf8 {
        MergedEmpty(references);
        return Some(Value);
      }
      var fileRefs := ParseDocumentReferences(f.archive.document.parsed, f.name);
      MergeReferences(fileRefs);
      raised := None;
    }

    /** `collect`: every file in turn, the errors `ValueError` and `ParseError`
        swallowed. */
    method Collect() returns (refs: RefMap)
      requires Valid()
      modifies this
      ensures Valid()
      ensures filePaths == old(filePaths)
      ensures processedFiles == old(processedFiles) + ProcessedNames(filePaths)
      ensures references == CollectedReferences(old(references), filePaths)
      ensures refs == references
    {
      var i := 0;
      while i < |filePaths|
        invariant 0 <= i <= |filePaths| && filePaths == old(filePaths)
        invariant Valid()
        invariant processedFiles == old(processedFiles) + ProcessedNames(filePaths[..i])
        invariant references == CollectedReferences(old(references), filePaths[..i])
      {
        assert filePaths[..i + 1][..i] == filePaths[..i];
        var raised := ProcessFile(filePaths[i]);
        i := i + 1;
      }
      assert filePaths[..i] == filePaths;
      refs := references;
    }
  }

  /** Merging an empty dictionary changes nothing. */
  lemma MergedEmpty(all: RefMap)
    ensures Merged(all, Empty()) == all
  {
  }

  /** A name is recorded exactly when some valid archive among the inputs has
      it, whatever its entry holds. */
  lemma {:induction false} ProcessedNamesMeaning(files: seq<FcFile>, name: string)
    ensures name in ProcessedNames(files) <==> exists f :: f in files && IsFcstdFile(f) && f.name == name
    decreases |files|
  {
    if files != [] {
      var init := files[..|files| - 1];
      ProcessedNamesMeaning(init, name);
      assert files == init + [files[|files| - 1]];
    }
  }

  /** The references of alias `a` the collected files contribute, one file after the other. */
  function FilesAliasRefs(files: seq<FcFile>, a: string): seq<Reference>
    decreases |files|
  {
    if files == [] then []
    else
      var f := files[|files| - 1];
      FilesAliasRefs(files[..|files| - 1], a) + (if IsFcstdFile(f) then Refs(FileReferences(f), a) else [])
  }

  /** After `collect` each alias's list is the old list followed by the valid
      files' lists in input order: nothing is lost or deduplicated. */
  lemma {:induction false} CollectedAppends(start: RefMap, files: seq<FcFile>, a: string)
    requires start.Valid()
    ensures Refs(CollectedReferences(start, files), a) == Refs(start, a) + FilesAliasRefs(files, a)
    decreases |files|
  {
    if files != [] {
      var init := files[..|files| - 1];
      var f := files[|files| - 1];
      var before := CollectedReferences(start, init);
      CollectedAppends(start, init, a);
      if IsFcstdFile(f) {
        var y := Refs(FileReferences(f), a);
        MergedRefs(before, FileReferences(f), a);
        assert FilesAliasRefs(files, a) == FilesAliasRefs(init, a) + y;
        ConcatAssoc(Refs(start, a), FilesAliasRefs(init, a), y);
      } else {
        assert FilesAliasRefs(files, a) == FilesAliasRefs(init, a) + [];
      }
    }
  }

  /** Every pair of one object refers to the `params` sheet of the file,
      under the alias its stored text parses to. */
  lemma {:induction false} ExpressionPairsSound(ns: seq<Node>, objName: string, filename: string, p: Pair)
    requires forall n :: n in ns ==> "expression" in n.elem.attrib
    requires p in ReferenceCollector.ExpressionPairs(ns, objName, filename)
    ensures CollectorParseReference(p.1.expression) == Some(p.0)
    ensures p.1 == Reference(objName, p.1.expression, Some(filename), Some("params"), p.0)
    decreases |ns|
  {
    var init := ns[..|ns| - 1];
    assert forall n :: n in init ==> n in ns;
    if p in ReferenceCollector.ExpressionPairs(init, objName, filename) {
      ExpressionPairsSound(init, objName, filename, p);
    }
  }

  /** Every pair of the objects comes from one of them, and that object has
      a name. */
  lemma {:induction false} ObjectsPairsSound(objs: seq<Node>, filename: string, p: Pair)
    requires p in ObjectsPairs(objs, filename)
    ensures CollectorParseReference(p.1.expression) == Some(p.0)
    ensures p.1.filename == Some(filename) && p.1.spreadsheet == Some("params") && p.1.alias == p.0
    ensures exists o :: o in objs && "name" in o.elem.attrib && p.1.objectName == o.elem.attrib["name"]
    decreases |objs|
  {
    var init, o := objs[..|objs| - 1], objs[|objs| - 1];
    if p in ObjectsPairs(init, filename) {
      ObjectsPairsSound(init, filename, p);
      var q :| q in init && "name" in q.elem.attrib && p.1.objectName == q.elem.attrib["name"];
      assert q in objs;
    } else {
      ExpressionPairsSound(FcstdReferences.ObjectExpressions(o), o.elem.attrib["name"], filename, p);
      assert o in objs;
    }
  }

  /** Conversely, every expression element that yields a pair contributes it. */
  lemma {:induction false} ExpressionPairsComplete(ns: seq<Node>, objName: string, filename: string, n: Node)
    requires forall n :: n in ns ==> "expression" in n.elem.attrib
    requires n in ns && ReferenceCollector.ParseExpressionElement(n.elem, objName, filename).Some?
    ensures ReferenceCollector.ParseExpressionElement(n.elem, objName, filename).value
      in ReferenceCollector.ExpressionPairs(ns, objName, filename)
    decreases |ns|
  {
    var init := ns[..|ns| - 1];
    assert forall n :: n in init ==> n in ns;
    InSnoc(ns, n);
    if n in init {
      ExpressionPairsComplete(init, objName, filename, n);
    }
  }

  /** Every pair of a listed object is among the pairs of the objects. */
  lemma {:induction false} ObjectsPairsComplete(objs: seq<Node>, filename: string, o: Node, p: Pair)
    requires o in objs && p in ReferenceCollector.ObjectPairs(o, filename)
    ensures p in ObjectsPairs(objs, filename)
    decreases |objs|
  {
    InSnoc(objs, o);
    if o in objs[..|objs| - 1] {
      ObjectsPairsComplete(objs[..|objs| - 1], filename, o, p);
    }
  }

  /** Every `Expression[@expression]` under every named `Object` whose text
      the collector's grammar reads is filed under its alias. */
  lemma DocumentReferencesComplete(root: Element, filename: string, o: Node, n: Node)
    requires o in Objects(root) && "name" in o.elem.attrib && n in FcstdReferences.ObjectExpressions(o)
    requires ReferenceCollector.ParseExpressionElement(n.elem, o.elem.attrib["name"], filename).Some?
    ensures var p := ReferenceCollector.ParseExpressionElement(n.elem, o.elem.attrib["name"], filename).value;
      p.1 in Refs(DocumentReferences(Wellformed(root), filename), p.0)
  {
    var objs := Objects(root);
    var p := ReferenceCollector.ParseExpressionElement(n.elem, o.elem.attrib["name"], filename).value;
    ExpressionPairsComplete(FcstdReferences.ObjectExpressions(o), o.elem.attrib["name"], filename, n);
    ObjectsPairsComplete(objs, filename, o, p);
    GroupedHas(ObjectsPairs(objs, filename), p);
  }

  /** Every reference the collector files under `a` in a document was read
      from an expression of a named `Object`, refers to alias `a` of the
      `params` sheet and carries the file's base name. */
  lemma DocumentReferencesSound(root: Element, filename: string, a: string, r: Reference)
    requires r in Refs(DocumentReferences(Wellformed(root), filename), a)
    ensures CollectorParseReference(r.expression) == Some(a)
    ensures r.filename == Some(filename) && r.spreadsheet == Some("params") && r.alias == a
    ensures exists o :: o in Objects(root) && "name" in o.elem.attrib && r.objectName == o.elem.attrib["name"]
  {
    var pairs := ObjectsPairs(Objects(root), filename);
    GroupedRefs(pairs, a);
    AliasRefsFrom(pairs, a, r);
    var p :| p in pairs && p.0 == a && p.1 == r;
    ObjectsPairsSound(Objects(root), filename, p);
  }
}
