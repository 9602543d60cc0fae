# pydantree, modelled in Dafny

pydantree wraps Tree-sitter parse trees in immutable Pydantic records. This
project models its pure logic and proves properties of the model. The model
covers four parts of the system.

- **Node-type generators.** `codegen.py` reads the grammar's
  `node-types.json` descriptors and plans one Python class per node type.
  `NameResolver` gives each class a distinct name. `InheritanceAnalyzer`
  orders supertypes before subtypes and picks each class's parent. The
  emitted module holds field accessors, child-edit helpers and the
  `NODE_MAP` table. `generator.py` is the older generator that produced the
  shipped node classes; it has a lookup table and no de-duplication. Both
  generators are modelled as pure functions from descriptors to structured
  records (`Grammar`, `Naming`, `Inheritance`, `CodeGen`, `GeneratedNodes`,
  `Legacy`).
- **Node model and documents.** `core.py` defines `TSNode`, the process-wide
  subclass registry, the materialiser from raw Tree-sitter nodes, `pretty`
  and `__repr__` (`Nodes`, `PyRepr`, `Utf8`). `loader.py` is the one-shot
  bootstrap that loads a generated module's `NODE_MAP` (`Bootstrap`).
  `incremental.py` turns byte offsets into points and runs the edit, splice
  and reparse sequence of `ParsedDocument` (`Incremental`). The parser is a
  parameter.
- **Queries and transforms.** `nodegroup.py` is an algebra of selectors over
  finite node sets, with lazy filters (`NodeGroups`). `views.py` holds the
  field-tag name lookups and `PyTransformer`, which applies recorded
  replacements in descending offset order (`Views`).
- **Code-structure layer.** These Pydantic wrappers sit around graph-sitter
  objects:
  - `BaseCodeNode` (`CodeBase`);
  - parameters (`Parameters`);
  - functions (`PyFunctions`);
  - classes (`PyClasses`);
  - assignments (`PyAssignments`);
  - imports (`PyImports`);
  - statements (`PyStatements`);
  - both `PyFile` variants (`PyFiles`);
  - the fluent builders (`PyBuilders`);
  - the factory (`PyFactory`).

  `src/pydantree/main/builders.py` is a byte-for-byte copy of
  `src/pydantree/core/builders.py`. One model, `PyBuilders`, stands for both.

`PyStrings` holds the Python `str` methods the sources use. `Wrappers`
provides `Option` and `Result`. `Errors` names the exception classes the
code raises.

Python exceptions are `Result` errors and carry only their kind. A
graph-sitter or Tree-sitter object is a record. It has one optional field
per attribute that the code probes with `hasattr`. A method that may be
absent, may raise or may return is a `Call<T>`. Mutating methods (`add_*`,
the `with_*` builders, `register_subclasses`, `ensure`, `edit`) are
functions from the old state to the new one.

## Model

| member | source | states |
|---|---|---|
| PyRepr.HexDigitValue | src/pydantree/core.py:123 | the hex digit written for a value reads back as that value |
| PyRepr.Quote | src/pydantree/core.py:123 | `repr` uses double quotes exactly when the text has a single quote and no double quote |
| PyRepr.EscapeChar | src/pydantree/core.py:123 | a character is written as itself exactly when it is neither the quote, a backslash, a newline, carriage return or tab, nor unprintable; otherwise as an escape of at most ten characters starting with a backslash, and an unprintable one takes `\xhh` (4) up to U+00FF, `\uhhhh` (6) up to U+FFFF and `\Uhhhhhhhh` (10) above |
| PyRepr.Repr | src/pydantree/core.py:123 | the literal is at least two longer than the text and opens and closes with the chosen quote |
| PyRepr.EscapeBodyLength | src/pydantree/core.py:123 | escaping never shortens the text |
| PyRepr.UnescapeChar | src/pydantree/core.py:123 | reading back one escaped character gives that character, whatever follows |
| PyRepr.UnescapeEscape | src/pydantree/core.py:123 | reading back the escaped body gives the text |
| PyRepr.ReprRoundTrip | src/pydantree/core.py:123 | the text between the quotes of `repr(s)` reads back as `s` |
| PyRepr.PlainRepr | src/pydantree/core.py:123 | a text with nothing to escape is shown between single quotes as it is |
| PyRepr.PlainBody | src/pydantree/core.py:123 | a text with nothing to escape is its own escaped body |
| PyRepr.HexRoundTrip | src/pydantree/core.py:123 | the fixed-width hex digits written for a code read back as that code |
| PyRepr.UnescapeHex | src/pydantree/core.py:123 | a `\x`, `\u` or `\U` escape reads back as the character of its code, whatever follows |
| PyRepr.IdeographicSpaceEscaped | src/pydantree/core.py:123 | `repr` of the ideographic space U+3000 is `'\u3000'` |
| Utf8.EncodeChar | src/pydantree/incremental.py:49 | one character encodes to one to four bytes |
| Utf8.Encode | src/pydantree/incremental.py:49 | encoding never has fewer bytes than characters |
| Utf8.DecodeOne | src/pydantree/core.py:52 | a decoded sequence takes between one byte and what is left |
| Utf8.EncodeAppend | src/pydantree/incremental.py:88-89 | encoding a concatenation concatenates the encodings |
| Utf8.DecodeTwo | src/pydantree/core.py:52 | a two-byte encoding decodes to its character, whatever follows |
| Utf8.DecodeThree | src/pydantree/core.py:52 | a three-byte encoding decodes to its character, whatever follows |
| Utf8.DecodeFour | src/pydantree/core.py:52 | a four-byte encoding decodes to its character, whatever follows |
| Utf8.DecodeOneEncodeChar | src/pydantree/core.py:52 | any character's encoding decodes back to it, consuming exactly its bytes |
| Utf8.DecodeEncode | src/pydantree/incremental.py:49-51 | lossy decoding of an encoded text gives the text back |
| Utf8.EncodeAscii | src/pydantree/incremental.py:77-79 | on ASCII text each character encodes to its own code as one byte |
| Utf8.DecodeAscii | src/pydantree/core.py:52 | on ASCII bytes decoding drops nothing and maps each byte to its character |
| Utf8.ContinuationDropped | src/pydantree/core.py:52 | a continuation byte never starts a sequence, so ignore-mode decoding drops it and carries on with the next byte |
| Utf8.IgnoreExamples | src/pydantree/core.py:52 | a stray `0xFF` and a three-byte sequence cut short are dropped, and the two bytes of `é` decode to `é` |
| Nodes.ClassForRegister | src/pydantree/core.py:50 | after a registration, a type it maps gets the mapped class and every other type keeps the class it had |
| Nodes.ClassForEmpty | src/pydantree/core.py:50 | a type nobody registered gets the class the conversion was called on |
| Nodes.Register | src/pydantree/core.py:40-43 | the merged registry has exactly the keys of the old one and the mapping; mapped keys take the mapping's class, the rest keep theirs |
| Nodes.RegisterTwice | src/pydantree/core.py:40-43 | registering the same mapping twice is the same as once |
| Nodes.RegisterLaterWins | src/pydantree/core.py:40-43 | on a key both registrations name, the later one decides |
| Nodes.FromTreeSitter | src/pydantree/core.py:46-62 | the converted node keeps the raw type and `is_named` flag and has one child per raw child |
| Nodes.EraseFromTreeSitter | src/pydantree/core.py:46-62 | dropping what conversion adds gives back the raw tree exactly: every position, flag and child in order |
| Nodes.FromTreeSitterMaterialized | src/pydantree/core.py:50-52 | every node of the converted tree has the registry's class for its type (or the caller's) and the decoded text of its own byte range |
| Nodes.AsciiText | src/pydantree/core.py:52 | on ASCII bytes the node's text is its byte range, character for byte |
| Nodes.Snippet | src/pydantree/core.py:100-105 | no snippet exactly when `max_text` is 0 or the text is blank; a snippet has no newline, fits in `max_text`, keeps the stripped length when that fits and ends in an ellipsis when it does not |
| Nodes.Shorten | src/pydantree/core.py:103-104 | a text longer than `max_text` is cut to fit and ends in an ellipsis; a shorter one is kept whole; no newline is introduced |
| Nodes.ReplaceCharNoChar | src/pydantree/core.py:102 | replacing every newline by a space leaves no newline and keeps the length |
| Nodes.ChildBlocks | src/pydantree/core.py:109-111 | one printout per child |
| Nodes.Indented | src/pydantree/core.py:115 | each part is prefixed by the next level's indentation, one line per part |
| Nodes.Pretty | src/pydantree/core.py:87-116 | the printout opens with the class name and `(` at the node's indentation and closes with `)` at that indentation |
| Nodes.PrettyShowsChild | src/pydantree/core.py:108-113 | every child's own printout, two levels deeper, occurs inside its parent's |
| Nodes.Repr | src/pydantree/core.py:122-123 | the short `repr` starts with `TSNode(` |
| Nodes.ReprIgnoresClass | src/pydantree/core.py:122-123 | two nodes of one type have the same `repr` whatever their class, text or children |
| Nodes.ReprShowsType | src/pydantree/core.py:122-123 | the type name can be read back from the quoted literal in the `repr` |
| Incremental.CountNl | src/pydantree/incremental.py:24 | the newline count is at most the length and is zero exactly when there is no newline |
| Incremental.LastNl | src/pydantree/incremental.py:25 | `rfind` returns -1 or the index of a newline with no newline after it |
| Incremental.CountNlAppend | src/pydantree/incremental.py:24 | newlines of a concatenation add up |
| Incremental.LastNlAppendClean | src/pydantree/incremental.py:25 | appending bytes without a newline does not move the last newline |
| Incremental.PointAtStart | src/pydantree/incremental.py:13-27 | offset 0 is row 0, column 0 |
| Incremental.PointForByte | src/pydantree/incremental.py:13-27 | inside the buffer the column lies between 0 and the position, and the row, never negative, is at most the number of bytes before the line start |
| Incremental.Materialize | src/pydantree/incremental.py:51 | the root built from a parsed tree is the converted tree: the registry's classes, no field tags, each node's decoded text, and the raw tree's exact shape |
| Incremental.ColumnZero | src/pydantree/incremental.py:26 | inside the buffer the column is 0 exactly at the start or right after a newline |
| Incremental.PointLocates | src/pydantree/incremental.py:13-27 | the column counts back to a line start with no newline in between, and the row counts the newlines before that line start |
| Incremental.PointMonotone | src/pydantree/incremental.py:13-27 | a later offset never has an earlier point |
| Incremental.EditTree | src/pydantree/incremental.py:80-87 | `tree.edit` records the edit after the earlier ones and leaves the tree's root alone |
| Incremental.Create | src/pydantree/incremental.py:41-59 | a supplied tree and root are kept untouched; otherwise the text is encoded, parsed afresh and the root materialised from that tree; a failing parse fails the construction; the text is kept |
| Incremental.Reparse | src/pydantree/incremental.py:88-91 | the new text is kept; a failing reparse leaves the edited tree and the old root; otherwise the tree is the reparse of the whole new buffer with the edited tree and the root is materialised from it |
| Incremental.EditAsWritten | src/pydantree/incremental.py:88 | the code as written cuts the text at the byte offsets as if they were character indices |
| Incremental.EditRecordAsWritten | src/pydantree/incremental.py:77-79 | the code as written locates the new end point in the buffer before the edit |
| Incremental.EditRecord | src/pydantree/incremental.py:77-87 | the start and old end are located in the old buffer and the new end in the edited one |
| Incremental.Edit | src/pydantree/incremental.py:70-91 | the new text is the decoded byte splice; if the reparse raises, the tree carries the edit record and the root is unchanged |
| Incremental.EditAtBoundaries | src/pydantree/incremental.py:70-91 | cutting at character boundaries replaces exactly the characters in between, and the buffer reparsed is the byte splice |
| Incremental.AsciiEditAgrees | src/pydantree/incremental.py:88 | on ASCII text the as-written and intended edits give the same text |
| Incremental.NewEndPointCounterexample | src/pydantree/incremental.py:79 | inserting two newlines at the end of `ab`: as written the new end point is (0, 4), as intended (2, 0) |
| Incremental.ByteOffsetCounterexample | src/pydantree/incremental.py:88 | replacing the byte `1` of `é=1`: as written the text becomes `é=12`, as intended `é=2` |
| Bootstrap.TopLevel | src/pydantree/loader.py:21 | the top-level package is the prefix of the name before its first dot |
| Bootstrap.Import | src/pydantree/loader.py:20-26 | `__import__` fails exactly on an empty name or a missing package on the path, and otherwise returns the top-level package |
| Bootstrap.Merge | src/pydantree/loader.py:28-34 | a module without `NODE_MAP` raises RuntimeError and changes nothing; otherwise the flag is set and nothing is raised |
| Bootstrap.MergeClasses | src/pydantree/core.py:41-50 | after a merge every mapped type gets its mapped class and every other type keeps its class |
| Bootstrap.EnsureAsWritten | src/pydantree/loader.py:12-34 | a call that raises leaves the loaded flag and the registry as they were |
| Bootstrap.Ensure | src/pydantree/loader.py:12-34 | a call that raises leaves the loaded flag and the registry as they were |
| Bootstrap.LoadedIsNoop | src/pydantree/loader.py:18-19 | once loaded, a call does nothing whatever module it names |
| Bootstrap.EnsureOutcome | src/pydantree/loader.py:12-34 | an empty name raises ValueError, a missing module or one without `NODE_MAP` raises RuntimeError, and exactly otherwise the map is merged into the registry and the flag set |
| Bootstrap.EnsureAsWrittenOutcome | src/pydantree/loader.py:12-34 | as written: an empty name raises ValueError, a missing module or a top-level package without `NODE_MAP` raises RuntimeError, and exactly otherwise the top-level package's map is merged into the registry and the flag set |
| Bootstrap.EnsureOnce | src/pydantree/loader.py:33-34 | after one successful call every later call is a no-op |
| Bootstrap.AsWrittenAgreesUndotted | src/pydantree/loader.py:21 | for a name without a dot the as-written and intended versions agree |
| Bootstrap.TopLevelOf | src/pydantree/loader.py:21 | the top-level package of `pkg.rest` is `pkg` |
| Bootstrap.AsWrittenMissesLeafModule | src/pydantree/loader.py:21-28 | for the default dotted name the code as written looks for `NODE_MAP` on the package and raises, where the intended lookup loads the module's map |
| Views.ChildByField | src/pydantree/views.py:278 | the lookup finds nothing exactly when no child carries the field, and otherwise the first child that does |
| Views.FirstIdentifier | src/pydantree/views.py:283-285 | nothing is found exactly when no child is an identifier; otherwise the first identifier child is found |
| Views.DefinitionName | src/pydantree/views.py:276-287 | the first child tagged `name` gives the name; failing that the first identifier child; failing both `<anonymous>` |
| Views.FieldText | src/pydantree/views.py:368-373 | the text of the first child tagged with the field, or the empty string when there is none |
| Views.ModuleName | src/pydantree/views.py:364-374 | a plain import reads its `name` field, a from-import its `module_name` field, anything else gives the empty string |
| Views.Texts | src/pydantree/views.py:381-383 | one text per child, in order |
| Views.ImportedNames | src/pydantree/views.py:376-384 | a from-import lists the texts of its children tagged `name` in order; any other node lists nothing |
| Views.LookupsOnMaterialized | src/pydantree/views.py:276-287 | on a tree built by conversion, where no field tag is set, the name falls back to the first identifier, module names are empty and no imported name is found |
| Views.IsAsyncMeaning | src/pydantree/views.py:316-319 | `is_async` implies `async` occurs in the text, and a text starting with `async` is async |
| Views.SortedDescPairwise | src/pydantree/views.py:421 | in a list sorted latest start first, every start is at or above every later one |
| Views.InsertDesc | src/pydantree/views.py:421 | inserting adds one element, at the front or behind the old head |
| Views.InsertDescMultiset | src/pydantree/views.py:421 | inserting adds exactly that element |
| Views.InsertDescLast | src/pydantree/views.py:421 | an element starting no later than all others goes last, so equal starts keep their order |
| Views.InsertDescSorted | src/pydantree/views.py:421 | inserting into a sorted list keeps it sorted |
| Views.SortDesc | src/pydantree/views.py:421 | the sort is a permutation of its input, latest start first |
| Views.SortDescSorted | src/pydantree/views.py:421 | a list already in order is left as it is |
| Views.InsertDescStable | src/pydantree/views.py:421 | inserting into a sorted list puts the new edit behind every edit with its start and leaves the edits of every other start as they were |
| Views.SortDescStable | src/pydantree/views.py:421 | the sort is stable: for every start, the edits with that start keep the order they were recorded in, as Python's `list.sort` keeps them |
| Views.ApplyEdits | src/pydantree/views.py:423-424 | no edits leave the document untouched |
| Views.ApplyEdit | src/pydantree/views.py:445-452 | one edit replaces the node's span, its byte numbers taken as character positions as `ParsedDocument.edit` does, by the replacement |
| Views.ApplyEditAscii | src/pydantree/views.py:445-452 | on ASCII text and replacement, that edit leaves the same text as the byte-correct edit |
| Views.ApplyEditsText | src/pydantree/views.py:423-452 | a run that raises nothing leaves the text that every splice in turn gives |
| Views.SpliceAllFrame | src/pydantree/views.py:420-424 | splices inside the first part carry the rest along unchanged |
| Views.AssembleSnoc | src/pydantree/views.py:420-424 | replacing spans up to a last one is the text before it with its spans replaced, then the last replacement and the rest |
| Views.AssembleSnocStep | src/pydantree/views.py:420-424 | one step of the above: the first span, then the rest as the shorter case gives it |
| Views.SliceOfPrefix | src/pydantree/views.py:445-452 | cutting the text does not change a slice that ends before the cut |
| Views.LastFirstIsSimultaneous | src/pydantree/views.py:420-424 | applying disjoint spans from the last to the first is replacing every span of the original text at once |
| Views.ReverseCons | src/pydantree/views.py:420-424 | reversing a list puts its head last |
| Views.AscendingBelow | src/pydantree/views.py:420-424 | read backwards, the spans after the first of a descending run ascend and end before the first one starts |
| Views.Collect | src/pydantree/views.py:412-418 | exactly the visited nodes whose handler returns a replacement are recorded, with that replacement |
| Views.Visit | src/pydantree/views.py:408-426 | the recorded edits become the old ones plus the collected ones, sorted latest start first, and the document result is applying them in that order |
| Views.VisitAgain | src/pydantree/views.py:406-418 | a second `visit` on the same transformer records every collected edit a second time |
| Views.VisitReplacesAll | src/pydantree/views.py:408-426 | with disjoint spans, a run that raises nothing replaces every recorded node's span at once, spans cut at their byte numbers as `ParsedDocument.edit` cuts them |
| Views.BulkTransform | src/pydantree/views.py:428-443 | the selected nodes' edits are applied latest start first, and the transformer's recorded edits are untouched |
| Views.BulkEdits | src/pydantree/views.py:432-441 | the bulk edits are exactly the selected nodes of the tree with their replacement texts, one per node |
| NodeGroups.TextSelSubstring | src/pydantree/nodegroup.py:118-128 | a non-exact text selector matches exactly the nodes whose text contains the selector's text, and an exact match is also a non-exact one |
| NodeGroups.Matches | src/pydantree/nodegroup.py:62-128 | a text selector matches exactly the nodes whose text equals the selector's text or, when not exact, contains it; `~` negates |
| NodeGroups.ApplySelectors | src/pydantree/nodegroup.py:184-189 | a node survives exactly when it is in the set and every pending selector matches it |
| NodeGroups.Materialize | src/pydantree/nodegroup.py:191-193 | the materialised set lies within the nodes, holds every node every pending selector matches, and is all of them with no selector |
| NodeGroups.Of | src/pydantree/nodegroup.py:148-164 | a group built from nodes holds exactly those nodes and has no pending selector |
| NodeGroups.NewGroupAsWritten | src/pydantree/nodegroup.py:164 | as written, passing `selectors` raises TypeError, and without it the group is built from the input with no selector |
| NodeGroups.NewGroup | src/pydantree/nodegroup.py:148-164 | the corrected initialiser keeps the input's nodes and the given selectors, none when absent |
| NodeGroups.NewGroupSelectorsRejected | src/pydantree/nodegroup.py:164 | selectors given to the initialiser always fail as written; the corrected initialiser agrees otherwise and filters by every selector given |
| NodeGroups.Filter | src/pydantree/nodegroup.py:197-200 | filtering keeps the node set and appends one selector |
| NodeGroups.FilterMaterialize | src/pydantree/nodegroup.py:184-200 | a filter narrows the materialised set to the nodes the new selector matches |
| NodeGroups.FilterAnd | src/pydantree/nodegroup.py:49-68 | two filters in a row are one filter with `&`, in either order |
| NodeGroups.FilterOrNot | src/pydantree/nodegroup.py:53-85 | a filter with `\|` keeps the union of the two filtered groups, and one with `~` keeps what the plain filter drops |
| NodeGroups.FilterType | src/pydantree/nodegroup.py:202-204 | the group keeps its nodes and materialises to exactly the nodes of that type |
| NodeGroups.FilterClass | src/pydantree/nodegroup.py:206-208 | the group keeps its nodes and materialises to exactly the nodes of one of those classes |
| NodeGroups.FilterText | src/pydantree/nodegroup.py:210-212 | the group keeps its nodes and materialises to exactly the nodes with that text, or whose text contains it when not exact |
| NodeGroups.Where | src/pydantree/nodegroup.py:214-216 | the group keeps its nodes and materialises to exactly the nodes meeting the predicate |
| NodeGroups.Union | src/pydantree/nodegroup.py:220-223 | the union holds what either group materialises, with no selector |
| NodeGroups.Intersection | src/pydantree/nodegroup.py:225-228 | the intersection holds what both groups materialise |
| NodeGroups.Difference | src/pydantree/nodegroup.py:230-233 | the difference holds what the first group materialises and the second does not |
| NodeGroups.SymmetricDifference | src/pydantree/nodegroup.py:235-238 | the symmetric difference holds what exactly one of the groups materialises |
| NodeGroups.SymmetricDifferenceSplit | src/pydantree/nodegroup.py:220-238 | the symmetric difference is the union of the two differences, and it and the intersection split the union |
| NodeGroups.SelfAlgebra | src/pydantree/nodegroup.py:220-238 | a group with itself: union and intersection keep its set, difference and symmetric difference are empty |
| NodeGroups.MapNodes | src/pydantree/nodegroup.py:242-245 | `map` holds exactly the images of the materialised nodes |
| NodeGroups.Transform | src/pydantree/nodegroup.py:247-256 | `transform` holds exactly the non-`None` images of the materialised nodes |
| NodeGroups.TransformTotal | src/pydantree/nodegroup.py:242-256 | a transformer that never returns `None` is a `map` |
| NodeGroups.Selected | src/pydantree/nodegroup.py:260-279 | a query looks at the materialised set, filtered again by the selector when one is given |
| NodeGroups.Count | src/pydantree/nodegroup.py:274-279 | `count` is at most the group's size and is the size without a selector |
| NodeGroups.FindFirst | src/pydantree/nodegroup.py:260-265 | `find_first` returns `None` exactly when nothing is selected, and otherwise a selected node |
| NodeGroups.FindAll | src/pydantree/nodegroup.py:267-272 | `find_all` lists every selected node exactly once |
| NodeGroups.GroupBy | src/pydantree/nodegroup.py:281-290 | every materialised node is in the group of its key, and each group is non-empty, selector-free and holds only nodes with its key |
| NodeGroups.GroupByPartition | src/pydantree/nodegroup.py:281-290 | groups of distinct keys are disjoint and lie in the materialised set |
| NodeGroups.FromTree | src/pydantree/nodegroup.py:167-175 | a group built from a tree has no selector |
| NodeGroups.Subtree | src/pydantree/nodegroup.py:170-173 | the walk holds the node and each of its children |
| NodeGroups.Below | src/pydantree/nodegroup.py:297-300 | everything strictly below a node includes each of its children |
| NodeGroups.Descendants | src/pydantree/nodegroup.py:294-306 | the descendants group has no selector |
| NodeGroups.Siblings | src/pydantree/nodegroup.py:317-326 | the siblings are exactly the parent's children outside the group |
| NodeGroups.SiblingsSplit | src/pydantree/nodegroup.py:317-326 | the siblings and the children inside the group split the parent's children |
| NodeGroups.HeightChild | src/pydantree/nodegroup.py:170-173 | a child is lower than its parent, so the walk ends |
| NodeGroups.SubtreeHeight | src/pydantree/nodegroup.py:170-173 | nothing in a subtree is higher than its root |
| NodeGroups.NotBelowItself | src/pydantree/nodegroup.py:297-300 | no node lies strictly below itself |
| NodeGroups.FromTreeIsRootAndDescendants | src/pydantree/nodegroup.py:167-175 | the group built from a tree is its root plus the root's descendants, the root not among them |
| NodeGroups.SubtreeClosed | src/pydantree/nodegroup.py:170-173 | the walk holds every child of each node it holds |
| NodeGroups.SubtreeLeast | src/pydantree/nodegroup.py:170-173 | the walk lies inside every set holding the root and closed under children |
| Naming.CapitalizeAll | src/pydantree/codegen.py:96 | each word capitalised, in order |
| Naming.CapitalizeAllAppend | src/pydantree/codegen.py:96 | capitalising a concatenation of word lists concatenates the results |
| Naming.PascalCaseWord | src/pydantree/codegen.py:96 | a type without underscores converts to itself capitalised |
| Naming.PascalCaseAround | src/pydantree/codegen.py:96 | an underscore only separates: the pieces on either side convert on their own and concatenate |
| Naming.PascalCaseEdgeUnderscore | src/pydantree/codegen.py:96 | a leading or trailing underscore changes nothing |
| Naming.PascalCase | src/pydantree/codegen.py:96 | the converted name holds no underscore |
| Naming.BaseName | src/pydantree/codegen.py:92-102 | the name starts with the symbol table's name or the PascalCase form and ends in `Node` for named types or the token suffix for anonymous ones |
| Naming.Candidate | src/pydantree/codegen.py:105-108 | every name tried starts with the original and is the original exactly for the first try |
| Naming.CandidateInjective | src/pydantree/codegen.py:105-109 | different counters give different candidate names |
| Naming.CandidatesSize | src/pydantree/codegen.py:105-109 | the first k candidates are k distinct names |
| Naming.FirstFree | src/pydantree/codegen.py:107-109 | the loop stops at the first candidate not yet issued, every earlier one being issued |
| Naming.FirstFreeName | src/pydantree/codegen.py:104-109 | the name is the base name when unseen, else the base name plus the smallest counter from 1 whose name is unseen |
| Naming.NewResolver | src/pydantree/codegen.py:86-88 | a new resolver has issued no name |
| Naming.FreshResolverFirstName | src/pydantree/codegen.py:86-112 | a fresh resolver issues the base name itself and then records only it |
| Naming.Issue | src/pydantree/codegen.py:104-112 | the name issued is new, and it alone is added to the issued set |
| Naming.Resolve | src/pydantree/codegen.py:90-112 | `resolve` returns a name never issued before and records it, keeping the suffix |
| Naming.ResolveName | src/pydantree/codegen.py:90-112 | `resolve` picks the base name when unseen, else the base name plus the smallest unused positive counter |
| Naming.BaseNames | src/pydantree/codegen.py:92-102 | the base name of each type, in order |
| Naming.IssueAll | src/pydantree/codegen.py:169-171 | one name per base name, the suffix kept |
| Naming.ResolveAll | src/pydantree/codegen.py:169-171 | one name per type, the suffix kept |
| Naming.IssueAllDistinct | src/pydantree/codegen.py:104-111 | names issued in a row are distinct and none was issued before |
| Naming.ResolveAllDistinct | src/pydantree/codegen.py:104-111 | no two calls on one resolver return the same name, and none returns a name issued before |
| Naming.IssueAllSeen | src/pydantree/codegen.py:111 | afterwards the issued set is the old one plus exactly the names returned |
| Naming.ResolveAllSeen | src/pydantree/codegen.py:111 | after resolving a list the issued set is the old one plus exactly the names returned |
| Naming.IssueAllFresh | src/pydantree/codegen.py:104-111 | distinct base names never issued are returned unchanged |
| Naming.ResolveAllFresh | src/pydantree/codegen.py:104-111 | when no base name was issued and no two types share one, every type gets its base name with no counter |
| Inheritance.SubtypeEdges | src/pydantree/codegen.py:131-136 | one entry's edges are exactly its listed subtypes that are keys, each pointing at the entry's type |
| Inheritance.EdgesFrom | src/pydantree/codegen.py:130-136 | every edge added points from a key to a walked entry |
| Inheritance.EdgesFromMembers | src/pydantree/codegen.py:130-136 | an edge is added exactly for a listed subtype of a walked entry that is itself a key |
| Inheritance.BuildGraph | src/pydantree/codegen.py:123-136 | the graph has one node per spec key and only edges between nodes |
| Inheritance.BuildGraphEdges | src/pydantree/codegen.py:129-136 | an edge sub to sup exists exactly when both are keys and entry sup lists sub among its subtypes |
| Inheritance.Targets | src/pydantree/codegen.py:148 | the targets leaving a node are exactly its edges' ends |
| Inheritance.Successors | src/pydantree/codegen.py:148 | successors list each target once |
| Inheritance.GetParent | src/pydantree/codegen.py:146-149 | no parent exactly when no edge leaves the type; otherwise the first target added |
| Inheritance.FirstIn | src/pydantree/codegen.py:141 | an order meeting a set has a first position in it |
| Inheritance.EarliestHasNoPred | src/pydantree/codegen.py:141 | in a topological order no node set is cyclic: its earliest member has no predecessor in it |
| Inheritance.TopoOrderAcyclic | src/pydantree/codegen.py:141 | a graph with a topological order has no cycle |
| Inheritance.SuccessorNotEmitted | src/pydantree/codegen.py:141 | a successor of the node being processed is not emitted yet |
| Inheritance.PredsAppend | src/pydantree/codegen.py:141 | emitting a node whose predecessors are all out keeps predecessors first |
| Inheritance.Sources | src/pydantree/codegen.py:141 | the start queue is exactly the nodes without predecessors, each once |
| Inheritance.BlockedStep | src/pydantree/codegen.py:141 | nodes blocked before a round stay blocked unless they are successors of the node processed |
| Inheritance.VisitInit | src/pydantree/codegen.py:141 | the round invariant holds before a round |
| Inheritance.VisitEmit | src/pydantree/codegen.py:141 | emitting a ready successor keeps the round invariant |
| Inheritance.VisitSkip | src/pydantree/codegen.py:141 | skipping a successor that is not ready keeps the round invariant |
| Inheritance.VisitDone | src/pydantree/codegen.py:141 | a finished round re-establishes the algorithm's invariant one position on |
| Inheritance.Visit | src/pydantree/codegen.py:141 | a round extends the emission and keeps the invariant |
| Inheritance.CompleteIsTopo | src/pydantree/codegen.py:141 | a complete emission with predecessors first is a topological order |
| Inheritance.StuckCyclic | src/pydantree/codegen.py:141-144 | the nodes left over when every one waits on another form a cycle |
| Inheritance.KahnStart | src/pydantree/codegen.py:141 | the start queue meets the invariant |
| Inheritance.KahnEnd | src/pydantree/codegen.py:141-144 | when the queue runs dry the emission is complete exactly when there is no cycle, and then it is a topological order |
| Inheritance.TopologicalSort | src/pydantree/codegen.py:141-144 | an order is returned exactly when the graph has no cycle, and it is topological |
| Inheritance.ReverseTopo | src/pydantree/codegen.py:141 | reversing a topological order lists every node once, supertypes before subtypes |
| Inheritance.InheritanceOrder | src/pydantree/codegen.py:138-144 | every spec type once; supertypes first when there is no cycle, the key order when there is |
| Grammar.Types | src/pydantree/codegen.py:161 | the type of each spec entry, in order |
| Grammar.SpecKeys | src/pydantree/codegen.py:161 | the dictionary's keys are every type once |
| Grammar.SpecFor | src/pydantree/codegen.py:161 | the value under a type is the last entry with that type |
| Grammar.SameTypeCollapses | src/pydantree/codegen.py:161 | two entries of one type collapse into one key holding the later entry |
| CodeGen.NewGenerator | src/pydantree/codegen.py:155-165 | a new generator has a fresh resolver with the given suffix and an empty class-name table |
| CodeGen.NewGeneratorAsWritten | src/pydantree/codegen.py:24 | as written, building the inheritance graph fails with AttributeError for every grammar |
| CodeGen.AsWrittenNeverGenerates | src/pydantree/codegen.py:118-144 | whatever the grammar, the generator as written never gets as far as a module, while the corrected one, with its names resolved, emits a well-emitted module for the same specs in any order listing each type once |
| CodeGen.NamedKeys | src/pydantree/codegen.py:169-170 | one (type, named) pair per spec key, in the table's order |
| CodeGen.NameTable | src/pydantree/codegen.py:169-171 | the table's keys are exactly the types, and with distinct types each gets the name resolved at its position |
| CodeGen.ResolveAllNames | src/pydantree/codegen.py:167-171 | resolving leaves the specs, base class and suffix alone, and the table gains exactly the spec types |
| CodeGen.ResolvedName | src/pydantree/codegen.py:169-171 | a type's class name is the resolver's answer at that type's position among the spec keys |
| CodeGen.ResolvedNamesDistinct | src/pydantree/codegen.py:104-111 | different types get different class names, none issued before and all recorded as issued afterwards |
| CodeGen.FreshNamesAreBaseNames | src/pydantree/codegen.py:90-112 | with a fresh resolver and no colliding base names every type gets its base name with no counter |
| CodeGen.SecondRunRenames | src/pydantree/codegen.py:104-111 | resolving a second time with the same resolver gives names that clash with none of the first run's |
| CodeGen.HintNames | src/pydantree/codegen.py:228 | one class name per field type, in order |
| CodeGen.TypeHint | src/pydantree/codegen.py:218-234 | an optional field's hint is wrapped in `Optional[...]`, a required multiple one in `List[...]`; a required single field with no type is `TSNode` and with one type is that type's class |
| CodeGen.TypeHintShape | src/pydantree/codegen.py:218-234 | every field type's class name occurs in the hint, `TSNode` stands in for no types, an optional field's hint is the required one's in `Optional[...]` and a multiple field's the single one's in `List[...]` |
| CodeGen.FieldProperty | src/pydantree/codegen.py:214-266 | the accessor has the field's name and the shape its multiple and required flags choose |
| CodeGen.ParentClass | src/pydantree/codegen.py:179-184 | the parent class is the resolved class of the first supertype when that is a non-empty known type, else the base class |
| CodeGen.ParentAfterResolve | src/pydantree/codegen.py:179-184 | after resolving, any non-empty first supertype has a class, so the parent is its class or the base class |
| CodeGen.Properties | src/pydantree/codegen.py:201-202 | one accessor per field, in order |
| CodeGen.FieldNames | src/pydantree/codegen.py:188 | the field names in order |
| CodeGen.GenerateClass | src/pydantree/codegen.py:173-212 | the class has the type's resolved name and the parent the graph gives |
| CodeGen.ClassBody | src/pydantree/codegen.py:187-209 | the body is the docstring, `__match_args__` exactly when there are fields, one accessor per field in order, then the edit helpers, and never `pass` |
| CodeGen.BodyLayout | src/pydantree/codegen.py:191-209 | docstring, optional match arguments, accessors and edit helpers sit in that order and `pass` is not among them |
| CodeGen.WithPass | src/pydantree/codegen.py:207-209 | the body is kept as a prefix and gains `pass` exactly when it holds only the docstring |
| CodeGen.EntryFor | src/pydantree/codegen.py:330-337 | the entry pairs the type with its class and its `NODE_MAP` line |
| CodeGen.MapKeys | src/pydantree/codegen.py:336 | the `NODE_MAP` keys of the entries, in order |
| CodeGen.NodeMap | src/pydantree/codegen.py:325-336 | the map holds exactly the entries' keys, each sent to its class name |
| CodeGen.Entries | src/pydantree/codegen.py:330-337 | one entry per type of the order, in that order |
| CodeGen.ModuleFor | src/pydantree/codegen.py:316-347 | the module's entries follow the emission order |
| CodeGen.ParentsFirst | src/pydantree/codegen.py:138-141 | an order with every supertype first puts each type's parent before it |
| CodeGen.EmittedModule | src/pydantree/codegen.py:329-337 | an order listing each spec type once gives one class and one `NODE_MAP` entry per type, the map sending each type to its class |
| CodeGen.WellEmittedOrderFree | src/pydantree/codegen.py:316-347 | emitting in any two orders that list every spec type once gives the same entries and the same `NODE_MAP`: only the order is open |
| CodeGen.EmitModule | src/pydantree/codegen.py:329-347 | the module is well emitted, and on an acyclic graph every class comes after its parent's |
| CodeGen.GenerateModule | src/pydantree/codegen.py:312-347 | names are resolved first, the module is well emitted, and on an acyclic graph parents come first |
| Legacy.SnakeToCamel | src/pydantree/generator.py:145-152 | outside the two special cases the class name is the PascalCase form followed by `Node` |
| Legacy.Alias | src/pydantree/generator.py:9-104 | an alias is a non-empty name and never the name it replaces |
| Legacy.Ident | src/pydantree/generator.py:125-141 | a name outside the table is kept, and one inside it is replaced by a non-empty different name |
| Legacy.LegacyResolve | src/pydantree/generator.py:121-152 | the class name is the PascalCase form of the alias followed by `Node` when the table has one, and of the raw name otherwise: the special cases of `_snake_to_camel` are never reached |
| Legacy.SpecialCasesUnreachable | src/pydantree/generator.py:125-152 | no type reaches the `_` or `except*` special cases through the resolver, so every class name is a PascalCase form followed by `Node` |
| Legacy.AliasCollides | src/pydantree/generator.py:125-141 | a type whose alias is another type's name resolves to that type's class |
| Legacy.AssertCollides | src/pydantree/generator.py:139-141 | `assert` and `assert_statement` get the same class name |
| Legacy.FieldKeys | src/pydantree/generator.py:173 | the field names in order |
| Legacy.LegacyEntryFor | src/pydantree/generator.py:167-179 | the class for one entry keeps its type, derives from `TSNode`, has a `pass` line and the PascalCase name of its identifier followed by `Node`, and has `__match_args__` of `type_name` and the field names exactly when it has fields |
| Legacy.LegacyGenerate | src/pydantree/generator.py:167-179 | one class per spec entry |
| Legacy.LegacyShape | src/pydantree/generator.py:167-179 | each class has its entry's type and resolved name, derives from `TSNode`, ends in `pass`, and has `__match_args__` of `type_name` and the field names exactly when there are fields |
| Legacy.LegacyIgnoresNamed | src/pydantree/generator.py:167-179 | the `named` flag plays no part in the module |
| Legacy.LegacyNodeMap | src/pydantree/generator.py:179 | the map's keys are exactly the types of the classes emitted |
| Legacy.LegacyNodeMapValues | src/pydantree/generator.py:179 | the map sends every type to its resolved name, repeats agreeing |
| Legacy.LegacyResolveUnique | src/pydantree/generator.py:113-142 | with the unused seen-set put to work, each name returned is new and then recorded |
| Legacy.LegacyResolveAllUnique | src/pydantree/generator.py:113-142 | names resolved on one shared resolver are distinct and new, and the seen-set grows by exactly them |
| Legacy.AssertKeptApart | src/pydantree/generator.py:139-141 | with de-duplication `assert` and `assert_statement` get different names, the second numbered |
| GeneratedNodes.TaggedChildren | src/pydantree/codegen.py:243-252 | the tagged children are exactly the children carrying the field, in order |
| GeneratedNodes.FirstTagged | src/pydantree/codegen.py:254-262 | none exactly when no child carries the field, else the first that does |
| GeneratedNodes.FirstIsHeadOfTagged | src/pydantree/codegen.py:243-262 | the first tagged child is the head of the tagged list |
| GeneratedNodes.Access | src/pydantree/codegen.py:237-262 | a multiple field lists the tagged children, an optional one returns the first or `None`, a required one returns the first or raises ValueError exactly when none is tagged |
| GeneratedNodes.KindOf | src/pydantree/codegen.py:219-262 | a multiple field is a list field whatever its required flag; otherwise a required field raises when absent and an optional one gives `None` |
| GeneratedNodes.AccessOnMaterialized | src/pydantree/codegen.py:243-262 | on a converted tree, where no field tag is set, multiple fields are empty, required ones raise and optional ones are `None` |
| GeneratedNodes.ListInsert | src/pydantree/codegen.py:278-279 | `list.insert` puts the element at the clamped Python index and shifts the rest |
| GeneratedNodes.InsertChild | src/pydantree/codegen.py:275-280 | the children gain exactly the inserted child, and nothing else about the node changes |
| GeneratedNodes.Without | src/pydantree/codegen.py:304 | the elements other than the one removed, no more |
| GeneratedNodes.DeleteChild | src/pydantree/codegen.py:302-305 | a node is a child afterwards exactly when it was one and is not the deleted child, there are no more children than before, and nothing else changes |
| GeneratedNodes.ReplaceAll | src/pydantree/codegen.py:290-293 | every element equal to the old one becomes the new one, the rest stay |
| GeneratedNodes.ReplaceChild | src/pydantree/codegen.py:288-294 | the children keep their number, lose the old child when it differs from the new one, hold the new child when the old one was there, take every other child from the original, and nothing else changes |
| GeneratedNodes.WithoutAppend | src/pydantree/codegen.py:304 | removing from a concatenation removes from each part |
| GeneratedNodes.WithoutAbsent | src/pydantree/codegen.py:304 | removing an absent element changes nothing |
| GeneratedNodes.WithoutTwice | src/pydantree/codegen.py:304 | removing twice is removing once |
| GeneratedNodes.DeleteUndoesInsert | src/pydantree/codegen.py:275-305 | deleting a child just inserted, not there before, gives the node back |
| GeneratedNodes.WithoutInserted | src/pydantree/codegen.py:304 | removing the one inserted element gives the two sides back |
| GeneratedNodes.DeleteIdempotent | src/pydantree/codegen.py:302-305 | deleting twice is deleting once |
| GeneratedNodes.ReplaceBack | src/pydantree/codegen.py:288-294 | replacing back undoes a replacement whose new child was absent |
| GeneratedNodes.ReplaceRemovesOld | src/pydantree/codegen.py:288-294 | after replacing, no child equals the old one |
| CodeBase.Filled | src/pydantree/core/parameters.py:33-34 | an optional string counts only when present and non-empty, and is then kept as it is |
| CodeBase.Render | src/pydantree/core/parameters.py:36-37 | an integer renders as an optional `-`, present exactly when it is negative, followed by digits |
| CodeBase.RenderIntInjective | src/pydantree/core/parameters.py:36-37 | different integers render differently |
| CodeBase.Declaration | src/pydantree/core/parameters.py:29-39 | the text starts with the name and is the bare name exactly when there is neither a hint nor a value; with only a value it is `name = value` |
| CodeBase.ReadDeclaration | src/pydantree/core/parameters.py:29-39 | the name read is a prefix of the text with no stop character, followed by a stop character or the end, and nothing is read back when neither `: ` nor ` = ` follows it |
| CodeBase.StopFrom | src/pydantree/core/parameters.py:29-39 | the scan stops at the first `:`, `=` or space at or after the start, or at the end |
| CodeBase.StopAfterName | src/pydantree/core/parameters.py:31 | a name without stop characters ends where the rest begins |
| CodeBase.ReadHintedRoundTrip | src/pydantree/core/parameters.py:33-37 | a hint without `=` and an optional value read back from their rendering |
| CodeBase.ReadAfterHint | src/pydantree/core/parameters.py:33-37 | after the name, `: hint` and an optional ` = value` read back as that hint and value |
| CodeBase.ReadAfterValue | src/pydantree/core/parameters.py:36-37 | after the name, ` = value` alone reads back as no hint and that value |
| CodeBase.ReadAfterNameRoundTrip | src/pydantree/core/parameters.py:33-37 | what follows the name reads back as the truthy hint and the value |
| CodeBase.DeclarationRoundTrip | src/pydantree/core/parameters.py:29-39 | a declaration reads back as its name, its truthy hint and its value |
| CodeBase.Integrity | src/pydantree/core/base.py:62-74 | with the flag off the check passes; with it on an exception becomes ValidationError, a `False` answer fails and a missing method passes |
| CodeBase.Construct | src/pydantree/core/base.py:76-79 | with the flag set, construction succeeds exactly when the integrity check returns true; otherwise ValidationError |
| CodeBase.ConstructAccepts | src/pydantree/core/base.py:62-79 | a wrapper constructs exactly when the flag is off or the node has no check or its check returns true |
| CodeBase.ConstructNone | src/pydantree/core/base.py:62-79 | a wrapper around `None` always constructs |
| CodeBase.FromGraphsitter | src/pydantree/core/base.py:39-47 | a node without `to_source` is refused with GraphSitterIntegrationError; any other is wrapped with validation on |
| CodeBase.ToSource | src/pydantree/core/base.py:49-56 | the wrapped node's text when its `to_source` returns, GraphSitterIntegrationError otherwise |
| CodeBase.FromGraphsitterRoundTrip | src/pydantree/core/base.py:39-60 | exporting a wrapped node gives the node back, and its source is the node's own or the integration error |
| CodeBase.NoneHasNoSource | src/pydantree/core/base.py:49-56 | a wrapper around `None` has no source: `to_source` raises |
| CodeBase.ExportThenWrap | src/pydantree/core/base.py:39-60 | exporting a validated wrapper and wrapping the node again gives the same wrapper |
| Parameters.NewParameter | src/pydantree/core/parameters.py:24-27 | the fields are kept, a default other than `None` clears the required flag, and the hook never sets it |
| Parameters.PostInitIdempotent | src/pydantree/core/parameters.py:24-27 | running the hook again on its result changes nothing |
| Parameters.DefaultText | src/pydantree/core/parameters.py:36-37 | a default is rendered exactly when it is not `None` |
| Parameters.ParamSource | src/pydantree/core/parameters.py:29-39 | the text starts with the name, and is the bare name exactly when the hint is not truthy and the default is `None` |
| Parameters.ParamSourceRoundTrip | src/pydantree/core/parameters.py:29-39 | the rendered parameter reads back as its name, its truthy hint and its default's text |
| Parameters.ZeroDefault | src/pydantree/core/parameters.py:26-37 | a default of `0` is present: it is rendered and it makes the parameter optional |
| PyFunctions.NewFunction | src/pydantree/models/py_function.py:11-30 | a function constructs exactly when its base check passes, keeping every field given |
| PyFunctions.FunctionFromGraphsitter | src/pydantree/core/base.py:39-47 | the inherited factory never builds a function: the integration error without `to_source`, the missing `function_name` otherwise |
| PyFunctions.Names | src/pydantree/models/py_function.py:39 | the parameter names in order |
| PyFunctions.GetParameter | src/pydantree/models/py_function.py:57-59 | none exactly when the name is absent, otherwise the first parameter with that name |
| PyFunctions.HasParameter | src/pydantree/models/py_function.py:61-63 | true exactly when some parameter has the name |
| PyFunctions.AddParameter | src/pydantree/models/py_function.py:32-47 | a present name is refused with ValidationError; otherwise one new parameter goes at the end and nothing else changes |
| PyFunctions.AddThenGet | src/pydantree/models/py_function.py:32-63 | after an add the new parameter is found by its name and every other name finds what it found before |
| PyFunctions.IndexOfAppend | src/pydantree/models/py_function.py:57-59 | appending another element does not move the first occurrence of a name |
| PyFunctions.AddKeepsDistinct | src/pydantree/models/py_function.py:32-47 | adding keeps parameter names distinct |
| PyFunctions.SetReturnType | src/pydantree/models/py_function.py:49-51 | the return type is set and nothing else changes |
| PyFunctions.SetDocstring | src/pydantree/models/py_function.py:53-55 | the docstring is set and nothing else changes |
| PyFunctions.SettersIndependent | src/pydantree/models/py_function.py:49-55 | the two setters commute, and of two calls to one setter the later wins |
| PyFunctions.Sources | src/pydantree/models/py_function.py:67 | each parameter's source, in order |
| PyFunctions.SignatureAfterAdd | src/pydantree/models/py_function.py:32-69 | adding a parameter extends the signature's parameter text by `, ` (none for the first) and the new parameter, leaving the rest as it was |
| PyFunctions.SignatureMentions | src/pydantree/models/py_function.py:65-69 | every parameter's own text occurs in the signature |
| PyFunctions.ToSignature | src/pydantree/models/py_function.py:65-69 | the signature starts with `def name(` and ends with `)`, the return part and `:`, and with no parameters is `def name()` with the return part and `:` |
| PyClasses.NewClass | src/pydantree/core/classes.py:16-27 | a class constructs exactly when its base check passes, keeping every field given |
| PyClasses.GetMethod | src/pydantree/core/classes.py:57-59 | none exactly when no method has the name, otherwise the first that does |
| PyClasses.HasMethod | src/pydantree/core/classes.py:61-63 | true exactly when some method has the name |
| PyClasses.AddMethod | src/pydantree/core/classes.py:29-40 | a present name is refused with ValidationError; otherwise a fresh method goes at the end, is returned, and nothing else changes |
| PyClasses.AddMethodThenGet | src/pydantree/core/classes.py:29-63 | a method just added is found by its name, and adding that name again is refused |
| PyClasses.FreshMethodSignature | src/pydantree/core/classes.py:34-38 | a method just added renders as `def name()` with its return part, and asking its node for source fails with GraphSitterIntegrationError |
| PyClasses.AddAttribute | src/pydantree/core/classes.py:42-55 | refused with ValidationError exactly when the name equals a stored line; otherwise the attribute line goes at the end and nothing else changes |
| PyClasses.HasAttribute | src/pydantree/core/classes.py:65-67 | true exactly when the name occurs inside some stored line |
| PyClasses.AddAttributeThenHas | src/pydantree/core/classes.py:42-67 | an attribute just added is reported present |
| PyClasses.AttributeText | src/pydantree/core/classes.py:49-53 | the attribute line starts with the name, and is the bare name exactly when the hint is not truthy and the value is `None` |
| PyClasses.DuplicateCheckIsExact | src/pydantree/core/classes.py:46-55 | the duplicate check compares whole lines: an attribute with a truthy hint can be added twice, a bare one cannot |
| PyClasses.SetClassDocstring | src/pydantree/core/classes.py:69-71 | the docstring is set and nothing else changes |
| PyClasses.ToClassDefinition | src/pydantree/core/classes.py:73-79 | the header starts with `class` and the name and ends in `:`, and is `class N:` exactly when there are no bases |
| PyClasses.RunFrom | src/pydantree/core/classes.py:110-112 | a character-class run ends at the first character outside the class, or at the end |
| PyClasses.RunIs | src/pydantree/core/classes.py:110-112 | a run is determined by where it stops |
| PyClasses.SearchFrom | src/pydantree/core/classes.py:110-115 | a match is the first line start from the position on where the header pattern matches; no match means it matches at no line start |
| PyClasses.StripAll | src/pydantree/core/classes.py:123-125 | no empty piece survives |
| PyClasses.MatchAt | src/pydantree/core/classes.py:110-114 | a match starts with `class`, its name is an identifier and its bases group holds no `)` |
| PyClasses.SplitBases | src/pydantree/core/classes.py:122-125 | no group gives no bases, and no base is empty |
| PyClasses.ParseHeader | src/pydantree/core/classes.py:110-125 | a header is found exactly when some line start matches; its name is an identifier and no base is empty |
| PyClasses.ClassFromGraphsitter | src/pydantree/core/classes.py:81-142 | a node without `to_source` is refused, an exception from it propagates, a source without a header is ValidationError, and a class built has the header's name and bases, the node, no methods or attributes and the docstring given |
| PyClasses.ClassFromGraphsitterAsWritten | src/pydantree/core/classes.py:104-105 | as written, a node without `to_source` raises NameError, the error class being unimported; otherwise it agrees with the corrected factory |
| PyClasses.MissingToSourceNameError | src/pydantree/core/classes.py:104-105 | for a node without `to_source` the code as written raises NameError, where the corrected factory and the base class raise GraphSitterIntegrationError |
| PyClasses.StripClean | src/pydantree/core/classes.py:124 | stripping a base with no edge whitespace, with or without a leading space, gives the base |
| PyClasses.JoinCommaSpace | src/pydantree/core/classes.py:77 | joining by `, ` is joining by `,` the bases with a space before each but the first |
| PyClasses.StripAllPrefixed | src/pydantree/core/classes.py:124 | stripping clean bases after a space gives the bases |
| PyClasses.StripAllSpaced | src/pydantree/core/classes.py:124 | the pieces between the commas strip back to the bases |
| PyClasses.SplitBasesJoin | src/pydantree/core/classes.py:77-125 | the bases group of a rendered header splits back into the bases |
| PyClasses.HeaderKeyword | src/pydantree/core/classes.py:79-111 | a rendered header opens with `class` and one space |
| PyClasses.NameRun | src/pydantree/core/classes.py:79-111 | the identifier run of the pattern covers exactly the class name |
| PyClasses.NameEnd | src/pydantree/core/classes.py:79-111 | the name is followed directly by `(` or `:` |
| PyClasses.BasesOpen | src/pydantree/core/classes.py:77-112 | the bases group opens right after the name |
| PyClasses.BasesGroupRun | src/pydantree/core/classes.py:77-112 | `[^)]*` runs over exactly the joined bases |
| PyClasses.BasesClose | src/pydantree/core/classes.py:77-112 | the group's `)` is followed directly by the colon |
| PyClasses.MatchRendered | src/pydantree/core/classes.py:73-115 | the pattern matches a rendered header at its start, capturing the name and, when there are bases, the joined bases |
| PyClasses.HeaderRoundTrip | src/pydantree/core/classes.py:73-125 | parsing a rendered header gives back the class name and bases |
| PyAssignments.TypeConsistent | src/pydantree/core/assignments.py:40-55 | a falsy hint always passes; otherwise the check fails exactly when the hint is `str`, `int` or `bool` and the value is not an instance |
| PyAssignments.NewAssignment | src/pydantree/core/assignments.py:57-64 | construction succeeds exactly when the base check and the type check pass, otherwise ValidationError |
| PyAssignments.TypeCheckCases | src/pydantree/core/assignments.py:47-53 | a bool passes an `int` hint, a string does not, an int fails `bool`, and `None` fails each of the three hints |
| PyAssignments.IsInstanceHierarchy | src/pydantree/core/assignments.py:47-53 | every `bool` is an `int`, only `str`, `int` and `bool` are checked, and no value is both a `str` and an `int` |
| PyAssignments.SetValue | src/pydantree/core/assignments.py:21-23 | the value is set and nothing else changes |
| PyAssignments.SetTypeAnnotation | src/pydantree/core/assignments.py:25-27 | the hint is set and nothing else changes |
| PyAssignments.SettersSkipCheck | src/pydantree/core/assignments.py:21-27 | the setters can leave an assignment that construction would refuse |
| PyAssignments.ToAssignment | src/pydantree/core/assignments.py:29-37 | the line starts with the name and ends with ` = ` and the rendered value, which is written even for `None`; with no hint it is exactly `name = value` |
| PyAssignments.AssignmentRoundTrip | src/pydantree/core/assignments.py:29-38 | the assignment text reads back as its name, its truthy hint and the value's text |
| PyAssignments.AssignmentFromGraphsitter | src/pydantree/core/base.py:39-47 | the inherited factory never builds an assignment: the integration error without `to_source`, the missing `variable_name` otherwise |
| PyStatements.StatementFromGraphsitter | src/pydantree/core/statements.py:16-20 | a node without `to_source` is refused, an exception from it propagates, and a statement built stores the node's text next to the node |
| PyStatements.StatementRoundTrip | src/pydantree/core/statements.py:16-23 | a statement's source is the text stored at construction, even once the node would say something else |
| PyImports.NewImport | src/pydantree/core/imports.py:35-53 | an import constructs exactly when the inherited check passes, with the module name stripped of surrounding whitespace |
| PyImports.NameSource | src/pydantree/core/imports.py:31-32 | the text starts with the name, is the bare name exactly when the alias is not truthy, and otherwise ends in ` as ` and the alias |
| PyImports.Tokenize | src/pydantree/core/imports.py:67 | every token is non-empty and holds no white space, and text without a comma is split on white space alone |
| PyImports.ParseNameAlias | src/pydantree/core/imports.py:120-126 | without an `as` token the name is all tokens joined by spaces and there is no alias; otherwise the split is at the first `as`, name before and alias after |
| PyImports.NonCommas | src/pydantree/core/imports.py:84-95 | no comma token survives |
| PyImports.Groups | src/pydantree/core/imports.py:85-95 | the name groups are non-empty, hold no comma, and together hold every other token in order |
| PyImports.ParseNames | src/pydantree/core/imports.py:90-95 | one name per group, each read by the alias splitter |
| PyImports.ParseImportText | src/pydantree/core/imports.py:66-102 | an empty text, or a single token other than `import`, is IndexError; a text that starts otherwise and has no `import` token is ValueError; a leading `import` gives the rest as the module with no names; otherwise the module is the second token |
| PyImports.ImportFromGraphsitter | src/pydantree/core/imports.py:59-102 | a node without a type is AttributeError, a type other than the two import kinds is ValueError, a missing `to_source` is GraphSitterIntegrationError, a raising one passes its error on, and a parse error passes through; an import is built exactly when the text parses and the base check passes, and it keeps the node's text as `raw`, the parsed module name stripped, and the parsed names and form |
| PyImports.NameSources | src/pydantree/core/imports.py:112 | one text per imported name, each `name as alias` when the alias is truthy |
| PyImports.ImportSource | src/pydantree/core/imports.py:108-114 | truthy kept text is returned as is; otherwise a from-import starts with `from M import ` and a plain one is `import M` |
| PyImports.ImportLossless | src/pydantree/core/imports.py:66-110 | a loaded import renders back exactly as the node's text |
| PyImports.ModuleAlreadyStripped | src/pydantree/core/imports.py:51-53 | the module name the parser produces is already stripped, so the validator does not change it |
| PyImports.TokenizeCommaList | src/pydantree/core/imports.py:67-112 | comma-free texts joined by `, ` tokenise into their own tokens with `,` between neighbours |
| PyImports.GroupsOfCommaJoin | src/pydantree/core/imports.py:85-95 | the name-gathering loop splits comma-joined groups back apart |
| PyImports.ParseNameTokens | src/pydantree/core/imports.py:31-32 | reading one name's rendered tokens gives the name back, its alias kept only when truthy |
| PyImports.ParseNameGroups | src/pydantree/core/imports.py:85-126 | reading the groups of clean names gives the names back |
| PyImports.ParseFromTokens | src/pydantree/core/imports.py:81-102 | tokens `from m import ...` parse to module `m` and the names after `import` |
| PyImports.FromRoundTrip | src/pydantree/core/imports.py:108-113 | a `from` statement rebuilt from a module word and clean names parses back into the same module and names |
| PyImports.PlainRoundTrip | src/pydantree/core/imports.py:69-114 | a plain statement rebuilt from space-joined words parses back into the same module |
| PyFiles.ValidateItems | src/pydantree/core/file.py:56-65 | the items pass exactly when each is one of the four wrappers, and pass unchanged; otherwise ValueError |
| PyFiles.ValidateKnown | src/pydantree/core/file.py:56-65 | wrappers handed over as wrappers always pass the validator |
| PyFiles.NewFile | src/pydantree/core/file.py:56-65 | an unknown item is ValueError before the inherited check runs; otherwise the file constructs exactly when that check passes |
| PyFiles.AddItem | src/pydantree/core/file.py:71-85 | the item goes at the end and nothing else changes |
| PyFiles.ViewsPartition | src/pydantree/core/file.py:205-219 | every item is in exactly one of the four views |
| PyFiles.ViewsAppend | src/pydantree/core/file.py:205-219 | the views distribute over concatenation of the items |
| PyFiles.Pick | src/pydantree/core/file.py:205-219 | the picked list is no longer than the items and holds exactly what the selector picks out of some item |
| PyFiles.Imports | src/pydantree/core/file.py:213-215 | an import is in the view exactly when it is one of the items |
| PyFiles.Classes | src/pydantree/core/file.py:205-207 | a class is in the view exactly when it is one of the items |
| PyFiles.Functions | src/pydantree/core/file.py:209-211 | a function is in the view exactly when it is one of the items |
| PyFiles.Statements | src/pydantree/core/file.py:217-219 | a statement is in the view exactly when it is one of the items |
| PyFiles.AddImport | src/pydantree/core/file.py:71-73 | the `imports` view is extended by the import and the classes, functions and statements views are unchanged |
| PyFiles.AddClass | src/pydantree/core/file.py:75-77 | the `classes` view is extended by the class and the other three views are unchanged |
| PyFiles.AddFunction | src/pydantree/core/file.py:79-81 | the `functions` view is extended by the function and the other three views are unchanged |
| PyFiles.AddStatement | src/pydantree/core/file.py:83-85 | the `statements` view is extended by the statement and the other three views are unchanged |
| PyFiles.ItemSource | src/pydantree/core/file.py:104 | only a class or function item can fail to render, exactly when its node has no working `to_source()` (no node, no such method, or one that raises), with GraphSitterIntegrationError; otherwise a class or function renders as its node's own text |
| PyFiles.ItemTexts | src/pydantree/core/file.py:103-105 | the item texts are each item's text right-stripped, in order, and fail exactly when some item fails |
| PyFiles.DropTrailingEmpty | src/pydantree/core/file.py:107-108 | the result is a prefix of the parts, everything dropped is empty, and the last part kept is not |
| PyFiles.Layout | src/pydantree/core/file.py:107-109 | the text always ends in a newline, and no pieces give a lone newline |
| PyFiles.HeadPieces | src/pydantree/core/file.py:95-101 | one piece for each truthy header part, the shebang first and the stripped docstring last |
| PyFiles.FileSource | src/pydantree/core/file.py:91-109 | rendering fails exactly when some item fails, and a rendered file ends with a newline |
| PyFiles.LayoutOfFilledPieces | src/pydantree/core/file.py:93-109 | with no empty piece, the text is the pieces separated by blank lines and ended by a newline |
| PyFiles.LayoutOfBlankPieces | src/pydantree/core/file.py:107-109 | with only empty pieces, the text is a single newline |
| PyFiles.EmptyFileSource | src/pydantree/core/file.py:91-109 | an empty file renders as one newline |
| PyFiles.LayoutSnoc | src/pydantree/core/file.py:103-109 | one more non-empty piece turns the final newline into a blank line, then the piece and a newline |
| PyFiles.AddStatementSource | src/pydantree/core/file.py:83-109 | adding a statement to a file whose pieces are all non-empty appends a blank line, the statement's right-stripped text and a newline |
| PyFiles.AddStatementPieces | src/pydantree/core/file.py:83-109 | after `add_statement` the file renders the old pieces followed by the statement's right-stripped text |
| PyFiles.FirstLine | src/pydantree/core/file.py:137-139 | the first line is a newline-free prefix of the text, ended by a newline or by the end of the text |
| PyFiles.DocTest | src/pydantree/core/file.py:166-172 | the docstring test holds exactly when the `expression` child is a string, and reading the type of an `expression` child without one is AttributeError |
| PyFiles.CoreStep | src/pydantree/core/file.py:157-192 | a child without a type is AttributeError, a comment is skipped, the first docstring candidate becomes the docstring, a function definition fails under the stand-in for `PyFunction` named under "## Left out", and a class definition without `to_source` raises NameError, as the class loader is written |
| PyFiles.CoreScan | src/pydantree/core/file.py:154-192 | a docstring already found is kept, and there are never more items than children |
| PyFiles.CoreFromGraphsitter | src/pydantree/core/file.py:118-199 | a node missing `to_source`, `walk` or `type` is GraphSitterIntegrationError, a non-module is ValidationError, and a loaded file has the node, no path, and a shebang exactly when the text starts with `#!` |
| PyFiles.CoreScanShape | src/pydantree/core/file.py:154-192 | a successful walk keeps the first docstring candidate as the docstring and turns every other non-comment child into one item |
| PyFiles.CoreScanFunctionFails | src/pydantree/core/file.py:187-188 | with `PyFunction` read as the class of models/py_function.py (see "## Left out"), a module with a function definition among its children cannot be loaded |
| PyFiles.CoreFromGraphsitterShape | src/pydantree/core/file.py:134-199 | a loaded module's docstring is the first docstring candidate, its items count its other non-comment children, and its shebang is a newline-free prefix of the text |
| PyFiles.SourceText | src/pydantree/models/file.py:131-139 | the text is `to_source()` when present, else the `source` attribute, else GraphSitterIntegrationError |
| PyFiles.Children | src/pydantree/models/file.py:144-152 | the children are `symbols` when present; without them all three lists are needed, else GraphSitterIntegrationError |
| PyFiles.EnsureToSource | src/pydantree/models/file.py:154-157 | a child with only `source` gains a `to_source()` returning it; nothing else changes |
| PyFiles.KindOf | src/pydantree/models/file.py:161-169 | the kind is import, class or function by the first of those words in the lower-cased class name, and statement otherwise |
| PyFiles.ModelsItem | src/pydantree/models/file.py:160-169 | a child becomes an item of the kind its class name selects, a function child fails under the stand-in for `PyFunction` named under "## Left out", and a class child with neither `to_source` nor a source text raises NameError, as the class loader is written |
| PyFiles.ModelsItems | src/pydantree/models/file.py:159-169 | every child becomes one item, in order, and the loop fails exactly when some child fails |
| PyFiles.ModelsDocstring | src/pydantree/models/file.py:171-176 | there is a docstring exactly when the node's `docstring` has a truthy `source`, and it is that text stripped |
| PyFiles.ModelsFromGraphsitter | src/pydantree/models/file.py:121-183 | a missing text and missing children are GraphSitterIntegrationError, and a loaded file has the node, the docstring, one item per child, and as its shebang the right-stripped first line exactly when the text starts with `#!` |
| PyFiles.ModelsKinds | src/pydantree/models/file.py:159-169 | a loaded file holds one item per child, of the kind the child's class name selects, in the children's order |
| PyFiles.SourceOnlyStatement | src/pydantree/models/file.py:154-169 | a child known only by its `source` text loads as a statement with that text |
| PyBuilders.WithParam | src/pydantree/core/builders.py:20-33 | a parameter built as its constructor builds it goes at the end, with no duplicate check, and nothing else changes |
| PyBuilders.WithParams | src/pydantree/core/builders.py:20-33 | `with_param` for each spec keeps the list so far and appends one parameter per spec, in order |
| PyBuilders.AddParameters | src/pydantree/models/py_function.py:32-47 | `add_parameter` for each spec fails only with ValidationError, and fails when the first name is already present; on success one parameter per spec is appended with the names given |
| PyBuilders.WithReturnType | src/pydantree/core/builders.py:35-38 | the return type is set and nothing else changes |
| PyBuilders.WithFunctionDocstring | src/pydantree/core/builders.py:40-43 | the docstring is set and nothing else changes |
| PyBuilders.BuildFunction | src/pydantree/core/builders.py:45-57 | an empty name is BuilderError; otherwise the function carries exactly what was gathered, around no node |
| PyBuilders.NewFunctionBuilderBuilds | src/pydantree/core/builders.py:14-57 | a fresh builder fails with BuilderError for the empty name and otherwise builds a function with no parameters, rendering as `def name():` |
| PyBuilders.WithParamsAgreesWithAdd | src/pydantree/core/builders.py:20-33 | with distinct names throughout, adding parameters through the builder gives the parameters `add_parameter` gives on the function |
| PyBuilders.BuilderKeepsDuplicates | src/pydantree/core/builders.py:20-33 | the builder keeps a repeated parameter name, where `add_parameter` refuses it |
| PyBuilders.WithBase | src/pydantree/core/builders.py:70-73 | the base goes at the end and nothing else changes |
| PyBuilders.WithBases | src/pydantree/core/builders.py:75-78 | the bases are extended by the list given and nothing else changes |
| PyBuilders.WithBasesIsEach | src/pydantree/core/builders.py:75-78 | extending by a list is adding each base in turn |
| PyBuilders.WithMethod | src/pydantree/core/builders.py:80-83 | the method goes at the end and nothing else changes |
| PyBuilders.WithMethods | src/pydantree/core/builders.py:85-88 | the methods are extended by the list given and nothing else changes |
| PyBuilders.WithMethodsIsEach | src/pydantree/core/builders.py:85-88 | extending by a list is adding each method in turn |
| PyBuilders.WithAttribute | src/pydantree/core/builders.py:90-103 | one line goes at the end and nothing else changes |
| PyBuilders.WithAttributeAgreesWithAdd | src/pydantree/core/builders.py:90-103 | the builder writes the line `add_attribute` writes, and building then adding a fresh attribute equals adding it to the builder then building |
| PyBuilders.BuilderKeepsDuplicateAttributes | src/pydantree/core/builders.py:90-103 | the builder keeps a bare attribute twice, where `add_attribute` refuses the second |
| PyBuilders.WithClassDocstring | src/pydantree/core/builders.py:105-108 | the docstring is set and nothing else changes |
| PyBuilders.BuildClass | src/pydantree/core/builders.py:110-123 | an empty name is BuilderError; otherwise the class carries exactly what was gathered, around no node |
| PyBuilders.NewClassBuilderBuilds | src/pydantree/core/builders.py:63-123 | a fresh builder fails with BuilderError for the empty name and otherwise builds a class with no bases, methods or attributes, rendering as `class name:` |
| PyBuilders.BuiltHeaderRoundTrip | src/pydantree/core/builders.py:110-123 | a class built with an identifier name and clean bases renders a header that reads back as that name and those bases |
| PyFactory.KindName | src/pydantree/utils/factory.py:19 | the kind name is the node's `type` when truthy, else its class name |
| PyFactory.FactoryFromGraphsitter | src/pydantree/utils/factory.py:13-28 | a node without `to_source` is ValidationError; a wrapper built is a class when the kind contains `Class`, otherwise a plain node |
| PyFactory.FactoryDispatch | src/pydantree/utils/factory.py:21-28 | `Class` dispatches to the class factory; `Assignment` fails with its missing `variable_name`; `Function` or `Method` fails with its missing `function_name` under the stand-in for `PyFunction` named under "## Left out"; anything else is a plain node when its check passes |
| PyFactory.LowerCaseKindsArePlain | src/pydantree/utils/factory.py:19-28 | a node whose truthy type has no capital letter, as tree-sitter's kinds do not, is always wrapped as a plain node |
| PyFactory.BuilderFor | src/pydantree/utils/factory.py:31-38 | a refusal is ValidationError |
| PyFactory.MakeBuilder | src/pydantree/utils/factory.py:34-36 | calling the returned factory with a name gives a fresh builder of the selected kind with that name |
| PyFactory.BuilderForAccepts | src/pydantree/utils/factory.py:31-38 | the kinds accepted are exactly `class` and `function` in any ASCII letter case; everything else is refused |

## Left out

- Tree-sitter itself. Parsing and reparsing with `old_tree` are the parameter `Parse` of `Incremental`. `Tree.edit` is modelled as `Incremental.EditTree`, which only records the edit on the tree. How the library reuses the old tree and its recorded edits when it reparses is not modelled.
- The grammar module imported by `loader.py`. The module table is a parameter of `Bootstrap`.
- File and JSON I/O in the generators: `codegen.py:350-391` and the reads and writes of `generator.py`. Both generators are modelled as functions from the parsed descriptors to structured output records, not to Python text.
- Python's own `ast` docstring extraction in `core/classes.py:128-134`. Its result is an input: `docstring` in `PyClasses.ClassFromGraphsitter` and `classDoc` in the file loaders.
- Unicode-database details of decoding. `Utf8.DecodeIgnore` models `bytes.decode(errors="ignore")` (`core.py:52`) on every byte sequence. It accepts the well-formed sequences of Table 3-7 of the Unicode Standard and drops, one byte at a time, any byte that does not start one. Python drops each maximal ill-formed subpart as a whole. The two agree because a continuation byte never starts a sequence (`Utf8.ContinuationDropped`); no lemma states that agreement in general.
- Set iteration order. `find_first`, `to_list` and the transformer's walk over a set are modelled up to the order, which is an input where it matters.
- Node identity. Nodes compare structurally, as Pydantic's field equality does. `TSNode` is frozen but holds a list of children, so hashing it into the sets `NodeGroup` builds would fail at run time. The model uses value sets as the design intends.
- `TSNode.field_name` is not a declared field of `TSNode`. It is modelled as an optional tag that the materialiser never sets, so the generated accessors and `views.py` field lookups find nothing on a converted tree (`Views.LookupsOnMaterialized`, `GeneratedNodes.AccessOnMaterialized`).
- `views.py` `child_by_field_name` is modelled as the first child carrying that tag. `TSNode` defines no such method.
- `NodeGroup.ancestors` raises NotImplementedError and is not modelled. `to_graph` (rustworkx `GraphBuilder`) and `graph.py` are out of scope.
- `NodeGroup` dunders `__iter__`, `__or__`, `__and__`, `__sub__` and `__xor__`, `to_list`, `to_set`, and the module helpers are thin aliases of modelled operations and have no members of their own.
- `views.py` `PyView`, `PyModule`, `QuerySet`, `PyFunction.has_return`, `PyFunction.decorators`, `parse_python` and `find_functions`/`find_classes` are not modelled. They are thin wrappers over the parser and the node walk.
- No transaction in `ParsedDocument.edit`: `tree.edit` mutates before the text changes and nothing rolls back. The model returns the document as far as the steps got, together with the error of the step that failed, if any.
- networkx's cycle exception `NetworkXUnfeasible` is not a subclass of `NetworkXError`, which the fallback at `codegen.py:142` catches. The corrected analyzer falls back on a cycle, as the docstring intends.
- `PyAssignment.from_graphsitter` inherits `BaseCodeNode.from_graphsitter`, which passes only the node. The required `variable_name` is then missing, so it always fails, and so does the factory's assignment branch (`PyFactory.FactoryDispatch`).
- The module `.functions`, from which core/file.py:20, models/file.py:20 and utils/factory.py:7 import `PyFunction`, is not part of this model. `PyFunction` is read as the class of models/py_function.py, which also inherits `BaseCodeNode.from_graphsitter` and so lacks `function_name`. The failure of the factory's function branch, and of any file with a function among its children (`PyFactory.FactoryDispatch`, `PyFiles.CoreStep`, `PyFiles.CoreScanFunctionFails`, `PyFiles.ModelsItem`), follows from that reading, not from code in this model.
- `models/py_function.py` and `models/file.py` import modules under `models/` that do not exist. The model treats them as using the `core/` classes of the same names. `src/pydantree/core/functions.py` is not part of this model; `PyFunctions` follows `models/py_function.py`.
- Pydantic wraps an error raised in a validator as its own `ValidationError`. The model keeps the kind the code raises (`ValueError` in the `items` validator).
- Pydantic's check that a field value matches its declared `Union` type is not modelled. A stored item is always one of the four wrappers.
- `str.lower` and `str.capitalize` are modelled on ASCII letters only. Other letters are left as they are.
- EscapeChar (PyRepr.EscapeChar): Python's notion of a printable character is the Unicode character database. `PyRepr.Unprintable` lists the controls, separators, format characters, private-use and noncharacter ranges and the large unassigned planes. Unassigned code points scattered inside the assigned blocks are not listed, so they are shown as themselves where Python writes a `\u` or `\U` escape.
- Repr (PyRepr.Repr): escapes each character through `EscapeChar`, so it shares that gap.
- PlainRepr (PyRepr.PlainRepr): "nothing to escape" uses the same table, so the same scattered unassigned code points count as plain there.
- PlainBody (PyRepr.PlainBody): the same gap as PlainRepr, for the escaped body alone.
- Mutation in place. `add_*`, the builders' `with_*`, `register_subclasses` and `ensure` return the updated value rather than the same object.

## Findings

| source | as written | input that shows it | evidently intended | confidence | as-written member | corrected member |
|---|---|---|---|---|---|---|
| src/pydantree/loader.py:21 | `__import__(module_name)` returns the top-level package of a dotted name, and `NODE_MAP` is looked up on that package | `ensure("data.python_nodes")` when `data` has no `NODE_MAP`: RuntimeError, nothing registered | look up `NODE_MAP` on the named module itself | high, not executed | Bootstrap.EnsureAsWritten, Bootstrap.AsWrittenMissesLeafModule | Bootstrap.Ensure |
| src/pydantree/incremental.py:79 | the new end point is located in the buffer from before the edit | inserting `"\n\n"` at the end of `"ab"` (2, 2, 4): new end (0, 4) instead of (2, 0) | locate the new end in the edited buffer | high, not executed | Incremental.EditRecordAsWritten, Incremental.NewEndPointCounterexample | Incremental.EditRecord |
| src/pydantree/incremental.py:88 | the `str` is sliced at byte offsets | replacing bytes 3 to 4 of `"é=1"` with `"2"`: `"é=12"` instead of `"é=2"` | splice the encoded bytes at the byte offsets | high, not executed | Incremental.EditAsWritten, Incremental.ByteOffsetCounterexample | Incremental.Edit, Incremental.EditAtBoundaries |
| src/pydantree/codegen.py:24, 120, 141-142 | rustworkx is imported, then `rx.DiGraph()` is called, which rustworkx does not define; later `nx`, never imported, is used | any grammar, the empty one included: the constructor raises AttributeError | a string-keyed networkx digraph ordered by topological sort, with the declaration order as fallback | high, not executed | CodeGen.NewGeneratorAsWritten, CodeGen.AsWrittenNeverGenerates | CodeGen.GenerateModule |
| src/pydantree/generator.py:140, 170 | a fresh resolver is built for every spec, and de-duplication is commented out | the types `assert` and `assert_statement`: both become `AssertStatementNode`, and the later class shadows the earlier | a distinct class name per type, as the resolver's docstring promises | medium, not executed | Legacy.AssertCollides | Legacy.LegacyResolveAllUnique, Legacy.AssertKeptApart |
| src/pydantree/nodegroup.py:164 | `selectors` is passed explicitly and again inside `**data` | `NodeGroup(nodes, selectors=[s])`: TypeError for a repeated keyword argument | keep the selectors given | high, not executed | NodeGroups.NewGroupAsWritten, NodeGroups.NewGroupSelectorsRejected | NodeGroups.NewGroup |
| src/pydantree/core/classes.py:105 | `GraphSitterIntegrationError` is raised but not imported (imports at line 13) | a node without `to_source`: NameError | GraphSitterIntegrationError, as every other wrapper raises | high, not executed | PyClasses.ClassFromGraphsitterAsWritten, PyClasses.MissingToSourceNameError, PyFiles.CoreStep | PyClasses.ClassFromGraphsitter |
