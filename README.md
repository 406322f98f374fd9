# fc-audit extraction core, modelled in Dafny

fc-audit audits FreeCAD `.FCStd` documents. It reads each archive's
`Document.xml` and collects the cell aliases, the property names and the
expressions. It also finds every reference to a spreadsheet alias and
regroups those references by file, object and alias. This project models the
logic behind all of that:

- the three recognisers of alias references: the current package, the
  collector class and the older `fc_audit` package each have their own
  (`grammar.dfy`, `text.dfy`);
- the tree walks of the current package: property names, cell aliases,
  context resolution, and the expression dictionary with its collision-free
  keys (`fcstd.dfy`, over the XML tree of `xml_tree.dfy`);
- per-object and per-document reference extraction, grouping by alias, the
  append-only merge and the batch drivers (`fcstd_references.dfy`,
  `references.dfy`, `ordered_map.dfy`);
- the stateful `ReferenceCollector` (`reference_collector.dfy`);
- `ReferenceOutputter`'s filtering, its two regroupings and its
  "processed but empty" set (`reference_outputter.dfy`);
- the older package's readers, its key numbering, its document parser and its
  file-name back-fill (`legacy_fcstd.dfy`).

Python dictionaries are `OrderedMap`s: a list of distinct keys in insertion
order plus a map. The order matters because it decides the order of each
grouped list. An XML element is a datatype with a tag, an attribute map and
children. ElementTree compares elements by identity, so a node is identified
by its path of child indices from the root. `findall(".//X")` lists the proper
descendants in document order.

Reading an archive is an input: `FcFile` says whether the path is a zip
archive with a `Document.xml` entry, whether that entry decodes as UTF-8,
whether it starts with `<?xml`, and what the XML parser makes of it.
Exceptions become the `Error` datatype:

- `InvalidFile` is `InvalidFileError`;
- `XmlParse` is `XMLParseError` or `ParseError`;
- `Expression` is `ExpressionError`;
- `Value` is `ValueError`.

Where the code and its docstrings disagree, the model follows the code:

- `_find_parent_with_identifier` promises the nearest ancestor. The code scans
  the root's descendants in document order and returns the first that contains
  the element. That is always the child of the root the element lies under, so
  the *outermost* ancestor below the root (`Fcstd.OutermostAncestor`).
- For an expression that does not parse, `_parse_document_references` in
  `src/fc_audit/fcstd.py` builds `Reference(filename, obj_name, text)`
  positionally. So the file name lands in `object_name`, the object name in
  `expression` and the text in `filename`. The model keeps this
  (`FcstdReferences.DocumentExpressionPairsShape`).
- `get_cell_aliases` keeps an empty alias `""` like any other value.
- The older `get_expressions` numbers repeated contexts from ` (2)`, never
  ` (1)` (`LegacyFcstd.NextFreeKey`).
- The older `get_properties_from_files` and `get_references_from_files` catch
  only `ValueError`. A document whose XML does not parse raises `ParseError`
  and aborts the whole batch (`LegacyFcstd.StrictUnionFails`,
  `LegacyFcstd.FilesReferencesFails`).
- The older `get_references_from_files` overwrites the file name of every
  reference with the path's base name, after `get_references` stored the full
  path (`LegacyFcstd.Renamed`).

## Model

| member | source | states |
|---|---|---|
| Text.AliasRun | src/fc_audit/fcstd.py:347 | the captured alias is a run of characters outside `\s + - * / ( )`, and the run is maximal: it stops at the end of the text or before such a character |
| Text.AliasRunBetween | src/fc_audit/fcstd.py:347 | a span of alias characters followed by a non-alias character or the end is exactly what the `[^\s+\-*/()]+` group captures there |
| Text.AliasRunOf | src/fc_audit/fcstd.py:347 | an alias written between any prefix and operator text is captured whole |
| Text.NumeralRoundTrip | src/fc_audit/fcstd.py:260 | the decimal numeral written into `f"{base_key} ({counter})"` reads back as the counter |
| Text.NumeralInjective | src/fc_audit/fcstd.py:260 | distinct counters give distinct numerals |
| Text.Unescape | src/fc_audit/fcstd.py:238 | unescaping never lengthens the text |
| Text.UnescapePlain | src/fc_audit/fcstd.py:238 | text without `&` is left unchanged by `html.unescape` |
| Text.UnescapeEscape | src/fc_audit/fcstd.py:238 | unescaping inverts escaping of `&`, `<`, `>` and `"`: the round trip returns the original text |
| OrderedMaps.Put | src/fc_audit/fcstd.py:296 | dictionary assignment: the map gets the new value; the key is appended to the iteration order only when it is new; distinct keys stay distinct |
| XmlTree.FindAll | src/fc_audit/fcstd.py:77 | `findall(".//Tag[@attr]")` keeps only elements with that tag (and attribute), taken from the candidates, never more of them |
| XmlTree.FindAllMembers | src/fc_audit/fcstd.py:77 | an element is returned by `findall` exactly when it is a candidate with the tag (and attribute) |
| XmlTree.DescendantPath | src/fc_audit/fcstd.py:152 | every element `root.findall(".//*")` lists lies at a non-empty valid path below the root |
| XmlTree.ForestPaths | src/fc_audit/fcstd.py:154 | the descendants of an element lie strictly below it, along valid paths |
| XmlTree.ForestComplete | src/fc_audit/fcstd.py:152 | every element at a valid non-empty path is listed among the descendants |
| Fcstd.CollectAttribute | src/fc_audit/fcstd.py:77-79 | the loop collects exactly the attribute values of the elements found |
| Fcstd.TreeAttributesMeaning | src/fc_audit/fcstd.py:76-83 | a value is collected exactly when some element below the root has the tag and carries the value in that attribute |
| Fcstd.GetDocumentProperties | src/fc_audit/fcstd.py:54-91 | an invalid or unreadable archive raises `InvalidFileError`, unparsable XML raises `XMLParseError`, otherwise the result is the `name` values of all `Property` elements |
| Fcstd.GetCellAliases | src/fc_audit/fcstd.py:94-131 | the same error cases; otherwise the `alias` values of all `Cell` elements, `""` included |
| Fcstd.FilesAttributesMeaning | src/fc_audit/fcstd.py:604-638 | a batch value is one that some file which does not fail contributes; failing files contribute nothing and never abort the batch |
| Fcstd.GetPropertiesFromFiles | src/fc_audit/fcstd.py:604-638 | the batch loop returns the union over the files of their property names, skipping every failure |
| Fcstd.GetCellAliasesFromFiles | src/fc_audit/fcstd.py:567-601 | the batch loop returns the union over the files of their cell aliases, skipping every failure |
| Fcstd.FirstEnclosing | src/fc_audit/fcstd.py:152-155 | a found ancestor is one of the candidates and has the element among its descendants |
| Fcstd.FirstEnclosingNone | src/fc_audit/fcstd.py:152-164 | the scan finds nothing exactly when no candidate contains the element |
| Fcstd.FindParentWithIdentifier | src/fc_audit/fcstd.py:134-164 | a returned ancestor is a descendant of the root containing the element |
| Fcstd.EnclosesIff | src/fc_audit/fcstd.py:154-155 | a node contains the element exactly when its path is a proper prefix of the element's valid path |
| Fcstd.OutermostAncestor | src/fc_audit/fcstd.py:134-164 | an element two or more levels down resolves to the child of the root it lies under, labelled `Tag[name]`, else `Tag[type]`, else `Tag[label]`, else `Tag`; any other element gives `(None, "unknown")` |
| Fcstd.ExtractExpressionResolves | src/fc_audit/fcstd.py:217-242 | an expression element yields an entry exactly when it lies two or more levels down and has the attribute; the entry is the outermost ancestor's label and the unescaped text |
| Fcstd.SuffixedInjective | src/fc_audit/fcstd.py:260 | different counters give different candidate keys |
| Fcstd.UniqueKeyDetermined | src/fc_audit/fcstd.py:245-263 | at most one key is the base when free, else the suffix with the least free counter; so the specification of the key is unambiguous |
| Fcstd.MakeUniqueKey | src/fc_audit/fcstd.py:245-263 | the key is not among the existing keys; it is the base when free, else `base (n)` for the least `n >= 1` not taken |
| Fcstd.AddKeyed | src/fc_audit/fcstd.py:295-296 | storing an entry under a fresh key keeps every earlier entry and adds the new one under its key |
| Fcstd.StoreExpression | src/fc_audit/fcstd.py:295-296 | one loop step: the dictionary holds the earlier entries and the new one under its unique key |
| Fcstd.GetExpressions | src/fc_audit/fcstd.py:266-313 | the file-level errors propagate; otherwise entry `i` of the dictionary is the `i`-th resolving expression, stored under its unique key, with no entry overwritten |
| Fcstd.ExtractedResolved | src/fc_audit/fcstd.py:290-300 | the entries kept are exactly those of the elements at least two levels down, skipping the rest without aborting |
| Fcstd.ExpressionsResolved | src/fc_audit/fcstd.py:290-300 | the same for the expression elements of a whole document |
| ExpressionGrammar.FirstMatch | src/fc_audit/fcstd.py:348 | the position found is a match with no match before it; when none is found there is no match at all |
| ExpressionGrammar.Search | src/fc_audit/fcstd.py:348-351 | a captured alias is non-empty and made of alias characters |
| ExpressionGrammar.SearchMeaning | src/fc_audit/fcstd.py:347-352 | `re.search` fails exactly when the literal followed by an alias character occurs nowhere; otherwise it captures the alias after the leftmost occurrence |
| ExpressionGrammar.SearchFinds | src/fc_audit/fcstd.py:348-351 | a successful search captures the maximal alias after the leftmost match |
| ExpressionGrammar.SearchFails | src/fc_audit/fcstd.py:348-352 | the search returns nothing exactly when the pattern matches nowhere |
| ExpressionGrammar.ParseReferenceFinds | src/fc_audit/fcstd.py:335-352 | `<<globals>>#<<params>>.` then an alias, after any text holding no earlier match and before operator text, yields that alias |
| ExpressionGrammar.FixedNeedsAngle | src/fc_audit/fcstd.py:347 | text without `<` (for example `5`, `=A1 * 2`, `invalid.expression`) yields no alias, in the package and in the collector |
| ExpressionGrammar.CollectorParseReference | src/fc_audit/reference_collector.py:139-151 | a found alias is non-empty and made of alias characters |
| ExpressionGrammar.FullContainsShort | src/fc_audit/reference_collector.py:146 | every full-form match contains a short-form match twelve characters later |
| ExpressionGrammar.CollectorNone | src/fc_audit/reference_collector.py:146-151 | the collector finds nothing exactly when neither form occurs, which is exactly when the short form occurs nowhere |
| ExpressionGrammar.CollectorPrefersFullForm | src/fc_audit/reference_collector.py:147-150 | when the full form occurs, the collector returns its alias, even if a bare short form appears earlier |
| ExpressionGrammar.CollectorReadsShortForm | src/fc_audit/reference_collector.py:146-151 | `<<params>>.ALIAS` alone is read by the collector but not by the package's `parse_reference` |
| ExpressionGrammar.FirstIndexOf | fc_audit/fcstd.py:179 | the first occurrence of a character at or after a position, or none |
| ExpressionGrammar.AngleQualifierEnd | fc_audit/fcstd.py:179 | a `<<…>>` qualifier ends after its closing `>>` and is at least five characters long |
| ExpressionGrammar.HashPositions | fc_audit/fcstd.py:179 | every position tried for the literal `#` holds a `#` |
| ExpressionGrammar.LegacyParseReference | fc_audit/fcstd.py:167-184 | a found alias (group 5) is non-empty and made of alias characters |
| ExpressionGrammar.LegacyParseNeedsHash | fc_audit/fcstd.py:179-184 | text without `#` yields no alias |
| ExpressionGrammar.FixedQualifiers | fc_audit/fcstd.py:179 | on the fixed form, both qualifiers are read as `<<…>>` and end just before the `#` and the `.` |
| ExpressionGrammar.LegacyOnFixedPrefix | fc_audit/fcstd.py:179-184 | text starting with the fixed form and an alias character yields the maximal alias after it |
| ExpressionGrammar.LegacyAgreesOnFixedForm | fc_audit/fcstd.py:179-184 | on `<<globals>>#<<params>>.ALIAS` followed by operator text, the older and the current recognisers return the same alias |
| ExpressionGrammar.LegacyReadsQualified | fc_audit/fcstd.py:179-184 | an unbracketed `Sheet#Cell.ALIAS` reference yields `ALIAS` |
| ExpressionGrammar.GrammarsDisagreeOnSheetReference | fc_audit/fcstd.py:179-184 | on `Sheet#Cell.ALIAS` without `<`, the older grammar finds `ALIAS` and both current recognisers find nothing |
| References.AliasRefs | src/fc_audit/fcstd.py:427-431 | the references grouped under one alias are never more than the input pairs |
| References.Grouped | src/fc_audit/fcstd.py:415-431 | the grouped dictionary is well formed: each alias is listed once, and exactly the listed aliases have lists |
| References.GroupedSnoc | src/fc_audit/fcstd.py:428-430 | one loop step creates the alias if absent, then appends the reference to its list |
| References.GroupByAlias | src/fc_audit/fcstd.py:415-431 | the grouping loop computes the grouped dictionary of its input |
| References.GroupedRefs | src/fc_audit/fcstd.py:415-431 | each alias's list holds that alias's references in input order |
| References.GroupedKeys | src/fc_audit/fcstd.py:415-431 | the keys are exactly the aliases that occur in the input |
| References.FirstSeenMembers | src/fc_audit/fcstd.py:427-429 | an alias is among the aliases in order of first occurrence exactly when some pair carries it |
| References.FirstSeenDistinct | src/fc_audit/fcstd.py:427-429 | the aliases in order of first occurrence are listed once each |
| References.FirstSeenOrder | src/fc_audit/fcstd.py:427-429 | of two aliases in that list, the earlier one occurs among the pairs before any occurrence of the later one |
| References.GroupedOrder | src/fc_audit/fcstd.py:415-431 | the grouped dictionary iterates its aliases in the order they first occur among the pairs |
| References.GroupedHas | src/fc_audit/fcstd.py:427-430 | every input pair's reference is in the list of its alias |
| References.GroupedNonEmpty | src/fc_audit/fcstd.py:429-430 | no alias is left with an empty list |
| References.AliasRefsAt | src/fc_audit/fcstd.py:430 | every input reference appears in its alias's list |
| References.AliasRefsFrom | src/fc_audit/fcstd.py:430 | every listed reference comes from an input pair with that alias |
| References.GroupedTotal | src/fc_audit/fcstd.py:415-431 | grouping keeps the total number of references |
| References.GroupInto | src/fc_audit/reference_collector.py:98-101 | grouping into an existing dictionary keeps it well formed |
| References.GroupAppend | src/fc_audit/reference_collector.py:98-101 | the loop files the pairs into the existing dictionary |
| References.GroupedConcat | src/fc_audit/reference_collector.py:95-101 | grouping the objects one after the other equals grouping all their pairs at once |
| References.CreateThenExtend | src/fc_audit/fcstd.py:562-564 | "create an empty list if absent, then extend" is one append to the alias's list |
| References.CreateAndExtend | src/fc_audit/fcstd.py:562-564 | the two-statement update appends the list to the alias |
| References.MergeKeys | src/fc_audit/fcstd.py:552-564 | merging keeps the dictionary well formed |
| References.MergeReferences | src/fc_audit/fcstd.py:552-564 | the loop merges every incoming alias into the dictionary in the incoming order |
| References.MergeKeysAppends | src/fc_audit/fcstd.py:561-564 | after the merged keys each list is the old list followed by the incoming list |
| References.MergeKeysHas | src/fc_audit/fcstd.py:561-563 | afterwards the keys are the old ones and the incoming ones |
| References.MergeKeysPrefix | src/fc_audit/fcstd.py:563 | old keys keep their order and new keys come after them |
| References.MergeKeysOrder | src/fc_audit/fcstd.py:561-564 | merging distinct keys lists the old keys first, then the incoming keys that were absent, in incoming order |
| References.MergedOrder | src/fc_audit/fcstd.py:552-564 | after `_merge_references` the iteration order is the old keys followed by the new incoming keys in incoming order |
| References.MergedRefs | src/fc_audit/fcstd.py:552-564 | each list after the merge is the old list followed by the incoming one |
| References.MergedAppends | src/fc_audit/fcstd.py:552-564 | the merge is append-only: keys old ∪ new, each list old ++ new, lists of aliases not coming in untouched, old key order kept as a prefix |
| References.AppendTotal | src/fc_audit/fcstd.py:564 | extending a list by `v` adds `|v|` references to the total |
| References.MergedTotal | src/fc_audit/fcstd.py:552-564 | nothing is deduplicated: the merged total is the sum of both totals |
| FcstdReferences.ParseExpressionElement | src/fc_audit/fcstd.py:355-382 | a pair comes back exactly when the unescaped text has an alias; it holds that alias, the unescaped text, the object name and the file name |
| FcstdReferences.ExpressionPairsSound | src/fc_audit/fcstd.py:399-404 | every pair collected for an object comes from one of its expressions and names the object and the file |
| FcstdReferences.ExpressionPairsComplete | src/fc_audit/fcstd.py:399-404 | every expression element that yields a pair contributes that pair |
| FcstdReferences.ObjectExpressions | src/fc_audit/fcstd.py:401 | every element found carries the `expression` attribute |
| FcstdReferences.ParseObjectElement | src/fc_audit/fcstd.py:385-412 | the loop returns the pairs of the object's expressions in document order; an object without a name gives `[]` |
| FcstdReferences.ObjectPairsSound | src/fc_audit/fcstd.py:385-412 | every pair comes from a named object and carries its name, the file and the alias its text parses to |
| FcstdReferences.ObjectPairsComplete | src/fc_audit/fcstd.py:385-412 | every expression of a named object that yields a pair is among the object's pairs |
| FcstdReferences.NamedObjects | src/fc_audit/fcstd.py:453 | every object found carries a `name` |
| FcstdReferences.DocumentReferences | src/fc_audit/fcstd.py:434-479 | the document's dictionary is well formed, and `{}` when the XML does not parse |
| FcstdReferences.DocumentExpressionPairsShape | src/fc_audit/fcstd.py:456-466 | each filed record is either a reference under the alias its raw text parses to, or the shifted record under `Object[name]` whose text has no alias |
| FcstdReferences.DocumentExpressionPairsComplete | src/fc_audit/fcstd.py:456-466 | every expression element carrying `expression` yields a record, and it is among the object's records |
| FcstdReferences.DocumentObjectsPairsComplete | src/fc_audit/fcstd.py:453-466 | every such record of every listed object is among the document's records |
| FcstdReferences.DocumentReferencesComplete | src/fc_audit/fcstd.py:434-471 | every `Expression` carrying `expression` under every `Object[@name]` is filed in the document's dictionary under its key |
| FcstdReferences.ParseObjectExpressions | src/fc_audit/fcstd.py:456-470 | the inner loop files every expression of the object, skipping elements without the attribute |
| FcstdReferences.ParseDocumentReferences | src/fc_audit/fcstd.py:434-479 | the method computes the document's dictionary, `{}` on a parse failure |
| FcstdReferences.GetReferences | src/fc_audit/fcstd.py:482-512 | it raises exactly for an invalid archive or an unreadable entry; unparsable XML gives `{}` |
| FcstdReferences.FileReferences | src/fc_audit/fcstd.py:528-538 | what one file adds to a batch is a well-formed dictionary |
| FcstdReferences.FilesReferences | src/fc_audit/fcstd.py:515-549 | the batch dictionary is well formed |
| FcstdReferences.GetReferencesFromFiles | src/fc_audit/fcstd.py:515-549 | the loop merges the valid files' dictionaries in order and never raises |
| FcstdReferences.FilesReferencesConcat | src/fc_audit/fcstd.py:528-549 | each alias's batch list is the files' lists concatenated in file order |
| FcstdReferences.FilesReferencesEmpty | src/fc_audit/fcstd.py:515-549 | an empty or all-invalid batch gives `{}` |
| Collector.DocumentReferences | src/fc_audit/reference_collector.py:85-103 | the collector's dictionary for a document is well formed |
| Collector.FileReferences | src/fc_audit/reference_collector.py:72-75 | what one valid archive adds is a well-formed dictionary |
| Collector.CollectedReferences | src/fc_audit/reference_collector.py:47-54 | folding the files in keeps the dictionary well formed |
| Collector.ReferenceCollector.constructor | src/fc_audit/reference_collector.py:30-38 | a new collector keeps the paths and has no references and no processed files |
| Collector.ReferenceCollector.ParseExpressionElement | src/fc_audit/reference_collector.py:121-137 | a pair comes back exactly when the unescaped text has an alias under either form; its reference holds the alias, the text, the object, the file and the sheet `params` |
| Collector.ReferenceCollector.ParseObjectElement | src/fc_audit/reference_collector.py:105-119 | `[]` for an object without a name, else one pair per matching expression in document order |
| Collector.ReferenceCollector.ParseDocumentReferences | src/fc_audit/reference_collector.py:85-103 | `{}` on a parse error, else every object's pairs grouped by alias in discovery order |
| Collector.ReferenceCollector.MergeReferences | src/fc_audit/reference_collector.py:153-160 | `references` becomes the append-only merge of the old field and the new dictionary; nothing else changes |
| Collector.ReferenceCollector.ProcessFile | src/fc_audit/reference_collector.py:56-75 | an invalid archive raises `ValueError` before any state changes; a valid one is added to `processed_files` first, then its references are merged, or it raises when its entry does not decode |
| Collector.ReferenceCollector.Collect | src/fc_audit/reference_collector.py:40-54 | afterwards `processed_files` gains exactly the base names of the valid archives, and `references` is the merge of their results in order |
| Collector.ProcessedNamesMeaning | src/fc_audit/reference_collector.py:65-70 | a name is recorded exactly when some valid archive has it, whatever its content |
| Collector.CollectedAppends | src/fc_audit/reference_collector.py:47-54 | each alias's list is the old list followed by the files' lists in input order |
| Collector.ExpressionPairsSound | src/fc_audit/reference_collector.py:113-117 | every pair of an object refers to alias `a` of the `params` sheet, read from the text, in that object and file |
| Collector.ObjectsPairsSound | src/fc_audit/reference_collector.py:95-119 | every pair of the document comes from a named object |
| Collector.ExpressionPairsComplete | src/fc_audit/reference_collector.py:113-117 | every expression element that yields a pair contributes that pair |
| Collector.ObjectsPairsComplete | src/fc_audit/reference_collector.py:95-97 | every pair of a visited object is among the document's pairs |
| Collector.ObjectsPairsSnoc | src/fc_audit/reference_collector.py:95-101 | one more object adds its pairs after those of the objects before it |
| Collector.DocumentReferencesSound | src/fc_audit/reference_collector.py:85-137 | every reference filed under `a` names a named object, the file and the `params` sheet, and its text reads as `a` |
| Collector.DocumentReferencesComplete | src/fc_audit/reference_collector.py:85-137 | every `Expression[@expression]` under every named `Object` whose text the collector's grammar reads is filed under its alias |
| Outputter.FilteredUpTo | src/fc_audit/reference_outputter.py:37-45 | the filtered dictionary is well formed |
| Outputter.FilteredUpToItems | src/fc_audit/reference_outputter.py:40-45 | after the loop's first `n` aliases, exactly the selected ones are kept, with their lists unchanged |
| Outputter.FilteredUpToHas | src/fc_audit/reference_outputter.py:40-45 | an alias is kept exactly when it was visited and some non-empty pattern matches it |
| Outputter.FilteredUpToKeys | src/fc_audit/reference_outputter.py:40-46 | the kept aliases keep their original order |
| Outputter.FilteredMeaning | src/fc_audit/reference_outputter.py:37-46 | exactly the aliases matched by at least one non-empty pattern are kept, in order, with their lists unchanged |
| Outputter.FilterKeys | src/fc_audit/reference_outputter.py:37-46 | the loop builds the filtered dictionary |
| Outputter.AnyPatternMatches | src/fc_audit/reference_outputter.py:42-45 | the inner loop selects an alias exactly when some non-empty pattern matches it |
| Outputter.ReferenceOutputter.constructor | src/fc_audit/reference_outputter.py:18-26 | the outputter holds the given references and processed files |
| Outputter.ReferenceOutputter.FilterByPatterns | src/fc_audit/reference_outputter.py:28-46 | with no pattern or only empty patterns nothing changes; otherwise `references` becomes the filtered dictionary; `processed_files` is untouched |
| Outputter.KeyPairs | src/fc_audit/reference_outputter.py:68-69 | iterating one alias's list gives one pair per reference |
| Outputter.KeyPairsMembers | src/fc_audit/reference_outputter.py:68-69 | the pairs of one alias are exactly that alias with each of its references |
| Outputter.FlattenedMembers | src/fc_audit/reference_outputter.py:68-69 | the nested iteration visits exactly each alias with each of its references |
| Outputter.AllPairsKeep | src/fc_audit/reference_outputter.py:68-77 | the references the nested iteration keeps for an alias are that alias's list filtered, in order |
| Outputter.Where | src/fc_audit/reference_outputter.py:70 | filtering never adds references |
| Outputter.WhereNonEmpty | src/fc_audit/reference_outputter.py:70 | a filtered list is non-empty exactly when some reference passes |
| Outputter.ByFileSnoc | src/fc_audit/reference_outputter.py:100-105 | one step files a reference under its file and alias |
| Outputter.AddToFileTable | src/fc_audit/reference_outputter.py:100-105 | the statement sequence performs that step |
| Outputter.AddAliasToFileTable | src/fc_audit/reference_outputter.py:99-105 | the inner loop files all references of one alias |
| Outputter.ByFileCell | src/fc_audit/reference_outputter.py:94-106 | leaf `[file][alias]` lists, in order, the references of that alias carrying that file |
| Outputter.ByFileNoEmpty | src/fc_audit/reference_outputter.py:94-106 | no empty file table or leaf list is ever created |
| Outputter.ByFileMeaning | src/fc_audit/reference_outputter.py:80-106 | every reference with a file lands exactly once at `[filename][alias]` in order, those without are dropped, no level is empty, and empty input gives `{}` |
| Outputter.ReferenceOutputter.FormatByFile | src/fc_audit/reference_outputter.py:80-106 | the method builds the file/alias table of the references |
| Outputter.ByObjectSnoc | src/fc_audit/reference_outputter.py:70-77 | one step files a reference under its file, object and alias |
| Outputter.AddToObjectTable | src/fc_audit/reference_outputter.py:70-77 | the statement sequence performs that step |
| Outputter.AddAliasToObjectTable | src/fc_audit/reference_outputter.py:69-77 | the inner loop files all references of one alias |
| Outputter.ByObjectCell | src/fc_audit/reference_outputter.py:64-78 | leaf `[file][object][alias]` lists, in order, the references of that alias carrying that file and object |
| Outputter.ByObjectNoEmpty | src/fc_audit/reference_outputter.py:64-78 | no empty level is ever created |
| Outputter.ObjectInsertNoEmpty | src/fc_audit/reference_outputter.py:70-77 | one insertion keeps every level non-empty |
| Outputter.ByObjectMeaning | src/fc_audit/reference_outputter.py:48-78 | every reference with a file lands exactly once at `[filename][object_name][alias]` in order, those without are dropped, no level is empty, and empty input gives `{}` |
| Outputter.ReferenceOutputter.FormatByObject | src/fc_audit/reference_outputter.py:48-78 | the method builds the file/object/alias table of the references |
| Outputter.FilesOfSnoc | src/fc_audit/reference_outputter.py:235-237 | one step adds a reference's file name when it is non-empty |
| Outputter.AddFilesOf | src/fc_audit/reference_outputter.py:235-237 | the inner loop adds the non-empty file names of one list |
| Outputter.FilesUnderSnoc | src/fc_audit/reference_outputter.py:234-237 | the outer loop adds one alias's file names per step |
| Outputter.FilesUnderByFile | src/fc_audit/reference_outputter.py:233-237 | a file has references exactly when it is non-empty and has an entry in the file/alias table |
| Outputter.ReferenceOutputter.EmptyFiles | src/fc_audit/reference_outputter.py:230-240 | the files reported are the processed files minus the non-empty file names occurring in the references |
| Outputter.EmptyFilesMeaning | src/fc_audit/reference_outputter.py:233-240 | a file is reported exactly when it was processed and no reference carries it, the empty name always counting as reference-free |
| LegacyFcstd.ReadersCompared | fc_audit/fcstd.py:47-49 | for an entry declaring UTF-8 or no encoding, the older readers skip the `<?xml` check but otherwise accept the same files and give the current reader's tree; the byte reader reports undecodable or malformed XML as a parse error, the decoding reader only malformed XML |
| LegacyFcstd.FilterThenRead | fc_audit/fcstd.py:52-54 | filtering `Property` by the attribute in the loop gives the same values as `[@name]` in the query |
| LegacyFcstd.DocumentValuesExtend | fc_audit/fcstd.py:29-56 | for an entry declaring UTF-8 or no encoding, the older reader returns the current reader's values wherever that succeeds, and fails exactly when its parse fails |
| LegacyFcstd.GetDocumentProperties | fc_audit/fcstd.py:29-56 | `ValueError` for an invalid archive, the parse error for bad XML, else the `name` values of `Property` elements |
| LegacyFcstd.GetCellAliases | fc_audit/fcstd.py:59-85 | the same errors, else the `alias` values of `Cell[@alias]`, `""` included |
| LegacyFcstd.StrictUnionStops | fc_audit/fcstd.py:300-306 | once a file's parse error escapes, later files change nothing |
| LegacyFcstd.StrictUnionFails | fc_audit/fcstd.py:290-308 | the property batch raises exactly when some valid archive has unparsable XML, and the error is the parse error |
| LegacyFcstd.StrictUnionMeaning | fc_audit/fcstd.py:290-308 | when it succeeds, a property name is in the result exactly when some file that reads yields it |
| LegacyFcstd.GetPropertiesFromFiles | fc_audit/fcstd.py:290-308 | the loop skips `ValueError` files and stops at the first parse error |
| LegacyFcstd.LenientUnionMeaning | fc_audit/fcstd.py:269-287 | an alias is in the result exactly when some file that reads yields it; both error kinds are skipped |
| LegacyFcstd.LenientUnionCovers | fc_audit/fcstd.py:269-287 | for entries declaring UTF-8 or no encoding, the older alias batch finds everything the current one does |
| LegacyFcstd.GetCellAliasesFromFiles | fc_audit/fcstd.py:269-287 | the loop returns the union over the readable files |
| LegacyFcstd.Entries | fc_audit/fcstd.py:137-152 | every expression element gives exactly one entry |
| LegacyFcstd.EntriesAt | fc_audit/fcstd.py:137-143 | entry `i` is the unescaped text under the outermost ancestor's label, or under `unknown` for an element less than two levels down |
| LegacyFcstd.NextFreeKey | fc_audit/fcstd.py:144-150 | the key is not yet used; it is the context when free, else `context (n)` for the least free `n >= 2` |
| LegacyFcstd.StoreExpression | fc_audit/fcstd.py:144-152 | one loop step keeps the earlier entries and adds the new one under its free key |
| LegacyFcstd.GetExpressions | fc_audit/fcstd.py:113-154 | the read errors propagate; otherwise every expression element is kept, entry `i` under its free key, none overwritten |
| LegacyFcstd.DocumentReferences | fc_audit/fcstd.py:187-218 | the document's dictionary is well formed |
| LegacyFcstd.ExpressionPairsSound | fc_audit/fcstd.py:203-211 | every pair of an object is `Reference(object, unescaped text, filename)` under the non-empty alias its text parses to |
| LegacyFcstd.ObjectsPairsSound | fc_audit/fcstd.py:201-214 | every pair of the document comes from a named object |
| LegacyFcstd.ExpressionPairsComplete | fc_audit/fcstd.py:203-214 | every expression element that yields a pair contributes that pair |
| LegacyFcstd.ObjectsPairsComplete | fc_audit/fcstd.py:201-214 | every pair of a listed named object is among the document's pairs |
| LegacyFcstd.DocumentReferencesSound | fc_audit/fcstd.py:187-218 | every reference filed under `a` names a named object and the file, and its text reads as `a`; nothing is filed under `""` |
| LegacyFcstd.DocumentReferencesComplete | fc_audit/fcstd.py:187-218 | every `Expression[@expression]` under every named `Object` in which the legacy grammar finds a non-empty alias is filed under that alias |
| LegacyFcstd.ParseDocumentReferences | fc_audit/fcstd.py:187-218 | the loops compute the document's dictionary, grouped by alias in discovery order |
| LegacyFcstd.AddObjectReferences | fc_audit/fcstd.py:203-214 | the inner loop files one object's references after those already seen |
| LegacyFcstd.FileReferences | fc_audit/fcstd.py:221-239 | a successful read gives a well-formed dictionary |
| LegacyFcstd.GetReferences | fc_audit/fcstd.py:221-239 | `ValueError` for an invalid archive or undecodable entry, the parse error for bad XML, else the document's dictionary keyed with the full path |
| LegacyFcstd.Renamed | fc_audit/fcstd.py:259-260 | the back-fill keeps every reference and its order and changes only `filename`, to the base name |
| LegacyFcstd.BackFill | fc_audit/fcstd.py:259-260 | the loop performs the back-fill |
| LegacyFcstd.WithFilename | fc_audit/fcstd.py:255-261 | back-filling a dictionary keeps its keys and their order |
| LegacyFcstd.WithFilenameRefs | fc_audit/fcstd.py:255-261 | each back-filled list is the renamed original list |
| LegacyFcstd.FilesReferences | fc_audit/fcstd.py:242-266 | a successful batch gives a well-formed dictionary |
| LegacyFcstd.FilesReferencesStops | fc_audit/fcstd.py:252-264 | once a parse error escapes, later files change nothing |
| LegacyFcstd.GetReferencesFromFiles | fc_audit/fcstd.py:242-266 | the loop back-fills and extends per file, skips `ValueError` files and stops at the first parse error |
| LegacyFcstd.FilesReferencesConcat | fc_audit/fcstd.py:252-266 | when the batch succeeds, each alias's list is the files' renamed lists in file order |
| LegacyFcstd.FilesReferencesFails | fc_audit/fcstd.py:242-266 | the batch raises exactly when some valid archive with a decodable entry has unparsable XML, and the error is the parse error |

## Left out

- Reading archives: `is_fcstd_file`, `_read_xml_content`, zip handling, UTF-8 decoding and ElementTree parsing are not modelled. Their outcome is an input (`FcFile`), because they are library I/O.
- LegacyFcstd.ReadersCompared, LegacyFcstd.DocumentValuesExtend, LegacyFcstd.LenientUnionCovers: the entry's parse outcome serves both `etree.parse` on its bytes (fc_audit/fcstd.py:48, 78) and the parse of its UTF-8-decoded text everywhere else. This assumes the entry declares UTF-8 or no encoding, where the two parses agree. Under another declared encoding the byte parse honours the declaration: Latin-1 bytes that fail UTF-8 are read by the older property and alias readers, and UTF-8 bytes read differently. These three lemmas, and the older readers' `ParseError` on undecodable bytes, say nothing about that case.
- `html.unescape` is modelled on `&amp;`, `&lt;`, `&gt;` and `&quot;` only. Other entities and numeric character references pass through unchanged, because the full HTML5 entity table is library data.
- `fnmatch` is a function parameter `matches(alias, pattern)`, because glob semantics belong to the library.
- Logging (`logging`, `loguru`) is left out: it only reports and never changes a result.
- Command-line parsing and rendering are left out because they are presentation. This covers `to_json`, `to_csv`, the `print_by_*` methods, `output`, and the printing in `print_empty_files`; its set computation is modelled.
- The key order of the nested dictionaries built by `format_by_object` and `format_by_file` is left out. Both results are plain maps, because every consumer sorts them. The order inside each leaf list is modelled.
- Aliasing is left out: `ReferenceOutputter` and `ReferenceCollector` share their dictionaries with callers in Python, while the model copies them as values. The older back-fill mutates `Reference` objects in place; this is modelled on values (`LegacyFcstd.Renamed`), because no other holder of those objects is observable.
- Collector.ReferenceCollector.ProcessFile: the collector's own `_is_fcstd_file` can raise on an unreadable path. The model treats it as the package's validity check.
- Exceptions other than those named are left out, because their causes are outside the model: `OSError`, `RecursionError`, an `ExpressionError` from a malformed attribute value, and the generic `except Exception` fallbacks.
- The copies of the outputter logic in `src/fc_audit/cli.py` and `src/fc_audit/output.py` are not part of this model; they repeat `reference_outputter.py`.
- `get_document_properties_with_context`, the alias and properties outputters, `parser.py` and `scripts/verify_docs.py` are not part of this model.
- Python's fixed-width concerns do not arise: counters and lengths are unbounded in both Python and Dafny.
