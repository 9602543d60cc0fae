/** core/file.py and models/file.py: `PyFile`, a whole module as an ordered
    list of imports, classes, functions and other statements, with an
    optional shebang line and module docstring. The two files define the
    same model, views and rendering and differ only in `from_graphsitter`:
    the core one walks a tree-sitter `module` node, the models one reads a
    graph-sitter `SourceFile`. */
module PyFiles {
  import opened Wrappers
  import opened Errors
  import opened PyStrings
  import opened CodeBase
  import opened PyImports
  import opened PyClasses
  import opened PyFunctions
  import opened PyStatements

  /** `TopLevelNode`: the four wrappers a file holds. */
  datatype Item =
    | ImportItem(imp: Import)
    | ClassItem(cls: Class)
    | FunctionItem(fn: Function)
    | StatementItem(stmt: Statement)

  /** An object offered for `items`: one of the four wrappers, or something
      else, known by its `repr`. */
  datatype Element = Known(item: Item) | Unknown(rendered: string)

  datatype File = File(base: Base, path: Option<string>, items: seq<Item>, shebang: Option<string>, docstring: Option<string>)

  /** The `items` validator: any element that is not one of the four
      wrappers is refused with ValueError. */
  function ValidateItems(v: seq<Element>): (r: Result<seq<Item>, Error>)
    ensures r.Ok? <==> forall i :: 0 <= i < |v| ==> v[i].Known?
    ensures r.Ok? ==> |r.value| == |v| && forall i :: 0 <= i < |v| ==> r.value[i] == v[i].item
    ensures r.Err? ==> r.error == ValueError
    decreases |v|
  {
    if |v| == 0 then Ok([])
    else match v[0]
      case Unknown(_) => Err(ValueError)
      case Known(it) =>
        match ValidateItems(v[1..])
        case Err(e) => Err(e)
        case Ok(rest) => Ok([it] + rest)
  }

  function AsElements(items: seq<Item>): (r: seq<Element>)
    ensures |r| == |items| && forall i :: 0 <= i < |items| ==> r[i] == Known(items[i])
  {
    seq(|items|, i requires 0 <= i < |items| => Known(items[i]))
  }

  /** Wrappers handed over as wrappers always pass the validator unchanged. */
  lemma ValidateKnown(items: seq<Item>)
    ensures ValidateItems(AsElements(items)) == Ok(items)
  {
    var r := ValidateItems(AsElements(items));
    assert r.Ok?;
    assert r.value == items;
  }

  /** `PyFile(...)`: the `items` validator runs before the inherited
      integrity check. */
  function NewFile(node: GsNode, validate: bool, path: Option<string>, elements: seq<Element>,
                   shebang: Option<string>, docstring: Option<string>): (r: Result<File, Error>)
    ensures ValidateItems(elements).Err? ==> r == Err(ValueError)
    ensures ValidateItems(elements).Ok? ==> (r.Ok? <==> Construct(node, validate).Ok?)
    ensures r.Ok? ==> r.value == File(Base(node, validate), path, ValidateItems(elements).value, shebang, docstring)
    ensures r.Err? ==> r.error == ValueError || r.error == ValidationError
  {
    match ValidateItems(elements)
    case Err(e) => Err(e)
    case Ok(items) =>
      match Construct(node, validate)
      case Err(e) => Err(e)
      case Ok(b) => Ok(File(b, path, items, shebang, docstring))
  }

  // ---------------------------------------------------------------------
  // add_* and the filtered views
  // ---------------------------------------------------------------------

  /** `add_import`, `add_class`, `add_function`, `add_statement`: the item
      goes at the end; nothing else changes. */
  function AddItem(f: File, it: Item): (r: File)
    ensures |r.items| == |f.items| + 1 && r.items[|f.items|] == it && r.items[..|f.items|] == f.items
    ensures r.base == f.base && r.path == f.path && r.shebang == f.shebang && r.docstring == f.docstring
  {
    f.(items := f.items + [it])
  }

  /** `add_import`: the `imports` view grows by the import, the other three
      views stay as they were. */
  function AddImport(f: File, imp: Import): (r: File)
    ensures Imports(r.items) == Imports(f.items) + [imp]
    ensures Classes(r.items) == Classes(f.items) && Functions(r.items) == Functions(f.items) &&
            Statements(r.items) == Statements(f.items)
  {
    var it := ImportItem(imp);
    PickSnoc(f.items, it, ImportOf);
    PickSnoc(f.items, it, ClassOf);
    PickSnoc(f.items, it, FunctionOf);
    PickSnoc(f.items, it, StatementOf);
    AddItem(f, it)
  }

  /** `add_class`: likewise for the `classes` view. */
  function AddClass(f: File, c: Class): (r: File)
    ensures Classes(r.items) == Classes(f.items) + [c]
    ensures Imports(r.items) == Imports(f.items) && Functions(r.items) == Functions(f.items) &&
            Statements(r.items) == Statements(f.items)
  {
    var it := ClassItem(c);
    PickSnoc(f.items, it, ImportOf);
    PickSnoc(f.items, it, ClassOf);
    PickSnoc(f.items, it, FunctionOf);
    PickSnoc(f.items, it, StatementOf);
    AddItem(f, it)
  }

  /** `add_function`: likewise for the `functions` view. */
  function AddFunction(f: File, fn: Function): (r: File)
    ensures Functions(r.items) == Functions(f.items) + [fn]
    ensures Imports(r.items) == Imports(f.items) && Classes(r.items) == Classes(f.items) &&
            Statements(r.items) == Statements(f.items)
  {
    var it := FunctionItem(fn);
    PickSnoc(f.items, it, ImportOf);
    PickSnoc(f.items, it, ClassOf);
    PickSnoc(f.items, it, FunctionOf);
    PickSnoc(f.items, it, StatementOf);
    AddItem(f, it)
  }

  /** `add_statement`: likewise for the `statements` view. */
  function AddStatement(f: File, st: Statement): (r: File)
    ensures Statements(r.items) == Statements(f.items) + [st]
    ensures Imports(r.items) == Imports(f.items) && Classes(r.items) == Classes(f.items) &&
            Functions(r.items) == Functions(f.items)
  {
    var it := StatementItem(st);
    PickSnoc(f.items, it, ImportOf);
    PickSnoc(f.items, it, ClassOf);
    PickSnoc(f.items, it, FunctionOf);
    PickSnoc(f.items, it, StatementOf);
    AddItem(f, it)
  }

  /** The items a selector picks, in order, as what it picks out of them. */
  function Pick<T(!new)>(items: seq<Item>, sel: Item -> Option<T>): (r: seq<T>)
    ensures |r| <= |items|
    ensures forall x :: x in r <==> exists i :: 0 <= i < |items| && sel(items[i]) == Some(x)
    decreases |items|
  {
    if |items| == 0 then []
    else (if sel(items[0]).Some? then [sel(items[0]).value] else []) + Pick(items[1..], sel)
  }

  function ImportOf(it: Item): Option<Import> { if it.ImportItem? then Some(it.imp) else None }
  function ClassOf(it: Item): Option<Class> { if it.ClassItem? then Some(it.cls) else None }
  function FunctionOf(it: Item): Option<Function> { if it.FunctionItem? then Some(it.fn) else None }
  function StatementOf(it: Item): Option<Statement> { if it.StatementItem? then Some(it.stmt) else None }

  /** The `imports` view: the imports among the items, in order. */
  function Imports(items: seq<Item>): (r: seq<Import>)
    ensures forall imp :: imp in r <==> ImportItem(imp) in items
  {
    Pick(items, ImportOf)
  }

  /** The `classes` view. */
  function Classes(items: seq<Item>): (r: seq<Class>)
    ensures forall c :: c in r <==> ClassItem(c) in items
  {
    Pick(items, ClassOf)
  }

  /** The `functions` view. */
  function Functions(items: seq<Item>): (r: seq<Function>)
    ensures forall fn :: fn in r <==> FunctionItem(fn) in items
  {
    Pick(items, FunctionOf)
  }

  /** The `statements` view. */
  function Statements(items: seq<Item>): (r: seq<Statement>)
    ensures forall st :: st in r <==> StatementItem(st) in items
  {
    Pick(items, StatementOf)
  }

  /** Every item is in exactly one of the four views. */
  lemma {:induction false} ViewsPartition(items: seq<Item>)
    ensures |Imports(items)| + |Classes(items)| + |Functions(items)| + |Statements(items)| == |items|
    decreases |items|
  {
    if |items| > 0 {
      ViewsPartition(items[1..]);
    }
  }

  lemma {:induction false} PickAppend<T(!new)>(a: seq<Item>, b: seq<Item>, sel: Item -> Option<T>)
    ensures Pick(a + b, sel) == Pick(a, sel) + Pick(b, sel)
    decreases |a|
  {
    if |a| == 0 {
      assert a + b == b;
    } else {
      var h := if sel(a[0]).Some? then [sel(a[0]).value] else [];
      assert Pick(a + b, sel) == h + Pick(a[1..] + b, sel) by {
        assert (a + b)[0] == a[0];
        assert (a + b)[1..] == a[1..] + b;
      }
      PickAppend(a[1..], b, sel);
      assert Pick(a, sel) == h + Pick(a[1..], sel);
      assert h + (Pick(a[1..], sel) + Pick(b, sel)) == (h + Pick(a[1..], sel)) + Pick(b, sel);
    }
  }

  /** The views distribute over concatenation. */
  lemma ViewsAppend(a: seq<Item>, b: seq<Item>)
    ensures Imports(a + b) == Imports(a) + Imports(b)
    ensures Classes(a + b) == Classes(a) + Classes(b)
    ensures Functions(a + b) == Functions(a) + Functions(b)
    ensures Statements(a + b) == Statements(a) + Statements(b)
  {
    PickAppend(a, b, ImportOf);
    PickAppend(a, b, ClassOf);
    PickAppend(a, b, FunctionOf);
    PickAppend(a, b, StatementOf);
  }

  /** Appending one item extends a view by what it picks from that item. */
  lemma PickSnoc<T(!new)>(items: seq<Item>, it: Item, sel: Item -> Option<T>)
    ensures Pick(items + [it], sel) == Pick(items, sel) + (if sel(it).Some? then [sel(it).value] else [])
  {
    PickAppend(items, [it], sel);
    assert [it][1..] == [];
  }

  // ---------------------------------------------------------------------
  // to_source
  // ---------------------------------------------------------------------

  /** One item's `to_source()`: an import renders itself, a statement gives
      its text, and a class or function falls back to the wrapped node
      (GraphSitterIntegrationError when there is none). */
  function ItemSource(it: Item): (r: Result<string, Error>)
    ensures r.Err? ==> r.error == GraphSitterIntegrationError && (it.ClassItem? || it.FunctionItem?)
    ensures r.Err? <==>
      (it.ClassItem? && !it.cls.base.node.toSource.Returns?) ||
      (it.FunctionItem? && !it.fn.base.node.toSource.Returns?)
    ensures r.Ok? && it.ClassItem? ==> r.value == it.cls.base.node.toSource.value
    ensures r.Ok? && it.FunctionItem? ==> r.value == it.fn.base.node.toSource.value
  {
    match it
    case ImportItem(imp) => Ok(ImportSource(imp))
    case ClassItem(c) => ToSource(c.base)
    case FunctionItem(fn) => ToSource(fn.base)
    case StatementItem(st) => Ok(StatementSource(st))
  }

  /** The items' texts, right-stripped, in order; the first failure stops. */
  function ItemTexts(items: seq<Item>): (r: Result<seq<string>, Error>)
    ensures r.Err? ==> r.error == GraphSitterIntegrationError
    ensures r.Ok? <==> forall i :: 0 <= i < |items| ==> ItemSource(items[i]).Ok?
    ensures r.Ok? ==> |r.value| == |items| &&
                      forall i :: 0 <= i < |items| ==> r.value[i] == RStrip(ItemSource(items[i]).value)
    decreases |items|
  {
    if |items| == 0 then Ok([])
    else match ItemSource(items[0])
      case Err(e) => Err(e)
      case Ok(s) =>
        match ItemTexts(items[1..])
        case Err(e) => Err(e)
        case Ok(rest) => Ok([RStrip(s)] + rest)
  }

  /** Each piece followed by an empty separator. */
  function Interleave(pieces: seq<string>): (r: seq<string>)
    ensures |r| == 2 * |pieces|
    decreases |pieces|
  {
    if |pieces| == 0 then [] else [pieces[0], ""] + Interleave(pieces[1..])
  }

  /** The `while parts and parts[-1] == ""` loop: trailing empty strings
      removed. */
  function DropTrailingEmpty(parts: seq<string>): (r: seq<string>)
    ensures |r| <= |parts| && r == parts[..|r|]
    ensures forall i :: |r| <= i < |parts| ==> parts[i] == ""
    ensures |r| > 0 ==> r[|r| - 1] != ""
    decreases |parts|
  {
    if |parts| > 0 && parts[|parts| - 1] == "" then DropTrailingEmpty(parts[..|parts| - 1]) else parts
  }

  /** The layout `to_source` gives its pieces: each piece followed by a blank
      line, trailing blanks dropped, one final newline. */
  function Layout(pieces: seq<string>): (r: string)
    ensures EndsWith(r, "\n")
    ensures |pieces| == 0 ==> r == "\n"
  {
    Join("\n", DropTrailingEmpty(Interleave(pieces))) + "\n"
  }

  /** The pieces before the items: the shebang and the stripped docstring,
      each only when truthy. */
  function HeadPieces(f: File): (r: seq<string>)
    ensures |r| == (if Filled(f.shebang).Some? then 1 else 0) + (if Filled(f.docstring).Some? then 1 else 0)
    ensures Filled(f.shebang).Some? ==> r[0] == f.shebang.value
    ensures Filled(f.docstring).Some? ==> r[|r| - 1] == Strip(f.docstring.value)
  {
    (if Filled(f.shebang).Some? then [f.shebang.value] else []) +
    (if Filled(f.docstring).Some? then [Strip(f.docstring.value)] else [])
  }

  /** `PyFile.to_source()` */
  function FileSource(f: File): (r: Result<string, Error>)
    ensures r.Ok? <==> forall i :: 0 <= i < |f.items| ==> ItemSource(f.items[i]).Ok?
    ensures r.Err? ==> r.error == GraphSitterIntegrationError
    ensures r.Ok? ==> |r.value| > 0 && r.value[|r.value| - 1] == '\n'
  {
    match ItemTexts(f.items)
    case Err(e) => Err(e)
    case Ok(texts) => Ok(Layout(HeadPieces(f) + texts))
  }

  /** Without separators: the pieces, with no trailing empty one. */
  function Spread(pieces: seq<string>): (r: seq<string>)
    requires |pieces| > 0
    ensures |r| > 0 && r[|r| - 1] == pieces[|pieces| - 1]
    decreases |pieces|
  {
    if |pieces| == 1 then [pieces[0]] else [pieces[0], ""] + Spread(pieces[1..])
  }

  lemma {:induction false} InterleaveSpread(pieces: seq<string>)
    requires |pieces| > 0
    ensures Interleave(pieces) == Spread(pieces) + [""]
    decreases |pieces|
  {
    if |pieces| > 1 {
      InterleaveSpread(pieces[1..]);
    }
  }

  lemma {:induction false} JoinSpread(pieces: seq<string>)
    requires |pieces| > 0
    ensures Join("\n", Spread(pieces)) == Join("\n\n", pieces)
    decreases |pieces|
  {
    if |pieces| > 1 {
      var rest := Spread(pieces[1..]);
      JoinSpread(pieces[1..]);
      assert Spread(pieces) == [pieces[0]] + ([""] + rest);
      assert pieces == [pieces[0]] + pieces[1..];
      JoinSpreadStep(pieces[0], rest, pieces[1..]);
    }
  }

  lemma JoinSpreadStep(x: string, rest: seq<string>, tail: seq<string>)
    requires |rest| > 0 && |tail| > 0
    requires Join("\n", rest) == Join("\n\n", tail)
    ensures Join("\n", [x] + ([""] + rest)) == Join("\n\n", [x] + tail)
  {
    JoinCons("\n", "", rest);
    JoinCons("\n", x, [""] + rest);
    JoinCons("\n\n", x, tail);
    BlankLine(x, Join("\n", rest));
  }

  lemma BlankLine(a: string, b: string)
    ensures a + "\n" + ("\n" + b) == a + "\n\n" + b
  {
  }

  /** With no empty piece, the layout is the pieces separated by blank lines
      and ended by a newline. */
  lemma LayoutOfFilledPieces(pieces: seq<string>)
    requires forall i :: 0 <= i < |pieces| ==> pieces[i] != ""
    ensures Layout(pieces) == Join("\n\n", pieces) + "\n"
  {
    if |pieces| > 0 {
      var s := Spread(pieces);
      assert DropTrailingEmpty(Interleave(pieces)) == s by {
        InterleaveSpread(pieces);
        assert (s + [""])[..|s|] == s;
        assert s[|s| - 1] != "";
      }
      JoinSpread(pieces);
    }
  }

  lemma {:induction false} InterleaveBlank(pieces: seq<string>)
    requires forall i :: 0 <= i < |pieces| ==> pieces[i] == ""
    ensures forall i :: 0 <= i < |Interleave(pieces)| ==> Interleave(pieces)[i] == ""
    decreases |pieces|
  {
    if |pieces| > 0 {
      InterleaveBlank(pieces[1..]);
    }
  }

  lemma {:induction false} DropBlank(parts: seq<string>)
    requires forall i :: 0 <= i < |parts| ==> parts[i] == ""
    ensures DropTrailingEmpty(parts) == []
    decreases |parts|
  {
    if |parts| > 0 {
      DropBlank(parts[..|parts| - 1]);
    }
  }

  /** With only empty pieces, the layout is a single newline. */
  lemma LayoutOfBlankPieces(pieces: seq<string>)
    requires forall i :: 0 <= i < |pieces| ==> pieces[i] == ""
    ensures Layout(pieces) == "\n"
  {
    InterleaveBlank(pieces);
    DropBlank(Interleave(pieces));
  }

  /** An empty file renders as a single newline. */
  lemma EmptyFileSource(b: Base, path: Option<string>)
    ensures FileSource(File(b, path, [], None, None)) == Ok("\n")
  {
    LayoutOfBlankPieces([]);
  }

  lemma {:induction false} ItemTextsSnoc(items: seq<Item>, it: Item)
    requires ItemTexts(items).Ok? && ItemSource(it).Ok?
    ensures ItemTexts(items + [it]) == Ok(ItemTexts(items).value + [RStrip(ItemSource(it).value)])
  {
    var t := ItemTexts(items + [it]);
    var u := ItemTexts(items).value + [RStrip(ItemSource(it).value)];
    assert forall i :: 0 <= i < |items| ==> (items + [it])[i] == items[i];
    assert t.Ok?;
    assert |t.value| == |u|;
    forall i | 0 <= i < |u| ensures t.value[i] == u[i] {
      if i < |items| {
        assert (items + [it])[i] == items[i];
      }
    }
    assert t.value == u;
  }

  /** One more non-empty piece after non-empty pieces: the final newline
      becomes a blank line, then the piece and a newline. */
  lemma LayoutSnoc(p: seq<string>, x: string)
    requires |p| > 0 && forall i :: 0 <= i < |p| ==> p[i] != ""
    requires x != ""
    ensures Layout(p + [x]) == Layout(p)[..|Layout(p)| - 1] + "\n\n" + x + "\n"
  {
    LayoutOfFilledPieces(p);
    LayoutOfFilledPieces(p + [x]);
    JoinSnoc("\n\n", p, x);
    var j := Join("\n\n", p);
    assert (j + "\n")[..|j|] == j;
  }

  /** Adding a statement to a file whose pieces are all non-empty appends a
      blank line and the statement's right-stripped text (when non-empty). */
  lemma AddStatementSource(f: File, st: Statement)
    requires FileSource(f).Ok?
    requires |HeadPieces(f) + ItemTexts(f.items).value| > 0
    requires forall i :: 0 <= i < |HeadPieces(f) + ItemTexts(f.items).value| ==>
               (HeadPieces(f) + ItemTexts(f.items).value)[i] != ""
    requires RStrip(st.raw) != ""
    ensures FileSource(AddStatement(f, st)) ==
            Ok(FileSource(f).value[..|FileSource(f).value| - 1] + "\n\n" + RStrip(st.raw) + "\n")
  {
    var p := HeadPieces(f) + ItemTexts(f.items).value;
    var x := RStrip(st.raw);
    assert FileSource(f) == Ok(Layout(p));
    AddStatementPieces(f, st);
    LayoutSnoc(p, x);
  }

  /** The pieces of a file after `add_statement`: the old ones and the
      statement's right-stripped text. */
  lemma AddStatementPieces(f: File, st: Statement)
    requires ItemTexts(f.items).Ok?
    ensures FileSource(AddStatement(f, st)) ==
            Ok(Layout(HeadPieces(f) + ItemTexts(f.items).value + [RStrip(st.raw)]))
  {
    var g := AddItem(f, StatementItem(st));
    var texts := ItemTexts(f.items).value;
    var x := RStrip(st.raw);
    assert ItemSource(StatementItem(st)) == Ok(st.raw);
    ItemTextsSnoc(f.items, StatementItem(st));
    assert ItemTexts(g.items) == Ok(texts + [x]);
    assert HeadPieces(g) == HeadPieces(f);
    assert FileSource(g) == Ok(Layout(HeadPieces(f) + (texts + [x])));
    AppendAssoc(HeadPieces(f), texts, [x]);
  }

  // ---------------------------------------------------------------------
  // core/file.py: from a tree-sitter module node
  // ---------------------------------------------------------------------

  /** The first line of a text, without its newline. */
  function FirstLine(s: string): (r: string)
    ensures '\n' !in r
    ensures StartsWith(s, r)
    ensures |r| < |s| ==> s[|r|] == '\n'
  {
    match IndexOf(s, '\n')
    case None => s
    case Some(k) => s[..k]
  }

  /** The kind names the core walk dispatches on. */
  predicate IsImportKind(t: string) { t == "import_statement" || t == "import_from_statement" }
  predicate IsFunctionKind(t: string) { t == "function_definition" || t == "decorated_definition" }

  /** What one child contributes: nothing (a comment), the module docstring,
      or an item. */
  datatype Step = Skip | Doc(text: string) | Add(item: Item)

  /** Whether a child is an `expression_statement` holding a string: the
      docstring candidate. */
  predicate IsDocCandidate(child: GsNode) {
    child.typ == Some("expression_statement") && HoldsString(child)
  }

  predicate HoldsString(child: GsNode) {
    child.expression.Some? && child.expression.value.typ == Some("string")
  }

  /** The docstring test, which reads the `type` of the child's `expression`
      field (AttributeError when that has none). */
  function DocTest(child: GsNode): (r: Result<bool, Error>)
    ensures r.Ok? ==> (r.value <==> HoldsString(child))
    ensures r.Err? <==> child.expression.Some? && child.expression.value.typ.None?
    ensures r.Err? ==> r == Err(AttributeError)
  {
    if child.expression.None? then Ok(false)
    else match child.expression.value.typ
      case None => Err(AttributeError)
      case Some(t) => Ok(t == "string")
  }

  /** One pass of the loop body over a child, given whether the docstring
      has been seen; `classDoc` stands for the AST docstring extraction
      inside the class constructor. */
  function CoreStep(child: GsNode, seen: bool, classDoc: GsNode -> Option<string>): (r: Result<Step, Error>)
    ensures child.typ.None? ==> r == Err(AttributeError)
    ensures child.typ == Some("comment") ==> r == Ok(Skip)
    ensures r.Ok? && r.value.Doc? ==> !seen && IsDocCandidate(child) && r.value.text == child.expression.value.text
    ensures r.Ok? && r.value.Skip? ==> child.typ == Some("comment")
    ensures !seen && IsDocCandidate(child) ==> r == Ok(Doc(child.expression.value.text))
    ensures child.typ.Some? && IsFunctionKind(child.typ.value) ==> r.Err?
    ensures child.typ == Some("class_definition") && child.toSource.Missing? ==> r == Err(NameError)
  {
    match child.typ
    case None => Err(AttributeError)
    case Some(t) =>
      if t == "comment" then Ok(Skip)
      else
        var doc := if !seen && t == "expression_statement" then DocTest(child) else Ok(false);
        match doc
        case Err(e) => Err(e)
        case Ok(isDoc) =>
          if isDoc then Ok(Doc(child.expression.value.text))
          else if IsImportKind(t) then
            match ImportFromGraphsitter(child)
            case Err(e) => Err(e)
            case Ok(imp) => Ok(Add(ImportItem(imp)))
          else if t == "class_definition" then
            match ClassFromGraphsitterAsWritten(child, classDoc(child))
            case Err(e) => Err(e)
            case Ok(c) => Ok(Add(ClassItem(c)))
          else if IsFunctionKind(t) then
            match FunctionFromGraphsitter(child)
            case Err(e) => Err(e)
            case Ok(fn) => Ok(Add(FunctionItem(fn)))
          else
            match StatementFromGraphsitter(child)
            case Err(e) => Err(e)
            case Ok(st) => Ok(Add(StatementItem(st)))
  }

  /** What the walk collects: the docstring (if any) and the items. */
  datatype Scan = Scan(docstring: Option<string>, items: seq<Item>)

  /** The loop over the direct children, in order; the first failure stops. */
  function CoreScan(children: seq<GsNode>, doc: Option<string>, classDoc: GsNode -> Option<string>): (r: Result<Scan, Error>)
    ensures r.Ok? && doc.Some? ==> r.value.docstring == doc
    ensures r.Ok? ==> |r.value.items| <= |children|
    decreases |children|
  {
    if |children| == 0 then Ok(Scan(doc, []))
    else match CoreStep(children[0], doc.Some?, classDoc)
      case Err(e) => Err(e)
      case Ok(step) =>
        var doc' := if step.Doc? then Some(step.text) else doc;
        match CoreScan(children[1..], doc', classDoc)
        case Err(e) => Err(e)
        case Ok(s) => Ok(if step.Add? then Scan(s.docstring, [step.item] + s.items) else s)
  }

  /** `PyFile.from_graphsitter(node)` of core/file.py. */
  function CoreFromGraphsitter(node: GsNode, classDoc: GsNode -> Option<string>): (r: Result<File, Error>)
    ensures node.toSource.Missing? || node.walk.None? || node.typ.None? ==> r == Err(GraphSitterIntegrationError)
    ensures !node.toSource.Missing? && node.walk.Some? && node.typ.Some? && node.typ.value != "module" ==>
      r == Err(ValidationError)
    ensures r.Ok? ==> (node.toSource.Returns? && node.typ == Some("module") && node.walk.Some? &&
                       r.value.base == Base(node, true) && r.value.path == None)
    ensures r.Ok? ==> (r.value.shebang.Some? <==> StartsWith(node.toSource.value, "#!"))
  {
    if node.toSource.Missing? || node.walk.None? || node.typ.None? then Err(GraphSitterIntegrationError)
    else if node.typ.value != "module" then Err(ValidationError)
    else match node.toSource
      case Raises => Err(ForeignError)
      case Returns(full) =>
        var shebang := if StartsWith(full, "#!") then Some(FirstLine(full)) else None;
        match CoreScan(node.walk.value, None, classDoc)
        case Err(e) => Err(e)
        case Ok(s) => NewFile(node, true, None, AsElements(s.items), shebang, s.docstring)
  }

  /** The reference docstring: the text of the first child that is an
      `expression_statement` holding a string. */
  function FirstDocstring(children: seq<GsNode>): Option<string>
    decreases |children|
  {
    if |children| == 0 then None
    else if IsDocCandidate(children[0]) then Some(children[0].expression.value.text)
    else FirstDocstring(children[1..])
  }

  /** Children other than comments and the docstring. */
  function CountItems(children: seq<GsNode>, seen: bool): nat
    decreases |children|
  {
    if |children| == 0 then 0
    else if children[0].typ == Some("comment") then CountItems(children[1..], seen)
    else if !seen && IsDocCandidate(children[0]) then CountItems(children[1..], true)
    else 1 + CountItems(children[1..], seen)
  }

  /** A successful walk keeps the first docstring candidate as the module
      docstring, and turns every other non-comment child into one item. */
  lemma {:induction false} CoreScanShape(children: seq<GsNode>, doc: Option<string>, classDoc: GsNode -> Option<string>)
    requires CoreScan(children, doc, classDoc).Ok?
    ensures doc.None? ==> CoreScan(children, doc, classDoc).value.docstring == FirstDocstring(children)
    ensures |CoreScan(children, doc, classDoc).value.items| == CountItems(children, doc.Some?)
    decreases |children|
  {
    if |children| > 0 {
      var step := CoreStep(children[0], doc.Some?, classDoc).value;
      var doc' := if step.Doc? then Some(step.text) else doc;
      CoreScanShape(children[1..], doc', classDoc);
    }
  }

  /** A module with a function definition among its children cannot be
      loaded: the function wrapper's inherited constructor always fails. */
  lemma {:induction false} CoreScanFunctionFails(children: seq<GsNode>, doc: Option<string>,
                                                classDoc: GsNode -> Option<string>, k: nat)
    requires k < |children| && children[k].typ.Some? && IsFunctionKind(children[k].typ.value)
    ensures CoreScan(children, doc, classDoc).Err?
    decreases |children|
  {
    if k > 0 {
      match CoreStep(children[0], doc.Some?, classDoc)
      case Err(_) =>
      case Ok(step) =>
        var doc' := if step.Doc? then Some(step.text) else doc;
        CoreScanFunctionFails(children[1..], doc', classDoc, k - 1);
    }
  }

  /** A loaded module's docstring is the first docstring candidate and its
      items count its other non-comment children. */
  lemma CoreFromGraphsitterShape(node: GsNode, classDoc: GsNode -> Option<string>)
    requires CoreFromGraphsitter(node, classDoc).Ok?
    ensures CoreFromGraphsitter(node, classDoc).value.docstring == FirstDocstring(node.walk.value)
    ensures |CoreFromGraphsitter(node, classDoc).value.items| == CountItems(node.walk.value, false)
    ensures CoreFromGraphsitter(node, classDoc).value.shebang.Some? ==>
      '\n' !in CoreFromGraphsitter(node, classDoc).value.shebang.value &&
      StartsWith(node.toSource.value, CoreFromGraphsitter(node, classDoc).value.shebang.value)
  {
    CoreScanShape(node.walk.value, None, classDoc);
    ValidateKnown(CoreScan(node.walk.value, None, classDoc).value.items);
  }

  // ---------------------------------------------------------------------
  // models/file.py: from a graph-sitter SourceFile
  // ---------------------------------------------------------------------

  /** The file text: `to_source()` when present, else the `source`
      attribute, else GraphSitterIntegrationError. */
  function SourceText(node: GsNode): (r: Result<string, Error>)
    ensures node.toSource.Returns? ==> r == Ok(node.toSource.value)
    ensures node.toSource.Raises? ==> r == Err(ForeignError)
    ensures node.toSource.Missing? ==> (r.Ok? <==> node.source.Some?)
    ensures node.toSource.Missing? && node.source.Some? ==> r == Ok(node.source.value)
  {
    match node.toSource
    case Returns(s) => Ok(s)
    case Raises => Err(ForeignError)
    case Missing => if node.source.Some? then Ok(node.source.value) else Err(GraphSitterIntegrationError)
  }

  /** The children in source order: `symbols` when present, else imports,
      then classes, then functions. */
  function Children(node: GsNode): (r: Result<seq<GsNode>, Error>)
    ensures node.symbols.Some? ==> r == Ok(node.symbols.value)
    ensures r.Err? <==> node.symbols.None? && (node.imports.None? || node.classes.None? || node.functions.None?)
    ensures r.Err? ==> r.error == GraphSitterIntegrationError
  {
    if node.symbols.Some? then Ok(node.symbols.value)
    else if node.imports.Some? && node.classes.Some? && node.functions.Some? then
      Ok(node.imports.value + node.classes.value + node.functions.value)
    else Err(GraphSitterIntegrationError)
  }

  /** `ensure_to_source`: a child with only a `source` attribute gets a
      `to_source()` returning it. */
  function EnsureToSource(child: GsNode): (r: GsNode)
    ensures child.toSource.Missing? && child.source.Some? ==> r.toSource == Returns(child.source.value)
    ensures !(child.toSource.Missing? && child.source.Some?) ==> r == child
    ensures r.(toSource := child.toSource) == child
  {
    if child.toSource.Missing? && child.source.Some? then child.(toSource := Returns(child.source.value)) else child
  }

  /** The kind a child's lower-cased class name selects, tested in this
      order: `import`, `class`, `function`, anything else. */
  datatype Kind = ImportKind | ClassKind | FunctionKind | StatementKind

  function KindOf(className: string): (k: Kind)
    ensures k == ImportKind <==> Contains(LowerStr(className), "import")
    ensures k == ClassKind <==> !Contains(LowerStr(className), "import") && Contains(LowerStr(className), "class")
    ensures k == FunctionKind <==> !Contains(LowerStr(className), "import") && !Contains(LowerStr(className), "class") &&
                                   Contains(LowerStr(className), "function")
  {
    var name := LowerStr(className);
    if Contains(name, "import") then ImportKind
    else if Contains(name, "class") then ClassKind
    else if Contains(name, "function") then FunctionKind
    else StatementKind
  }

  function ItemKind(it: Item): Kind {
    match it
    case ImportItem(_) => ImportKind
    case ClassItem(_) => ClassKind
    case FunctionItem(_) => FunctionKind
    case StatementItem(_) => StatementKind
  }

  /** One child wrapped as the item its class name selects. */
  function ModelsItem(child: GsNode, classDoc: GsNode -> Option<string>): (r: Result<Item, Error>)
    ensures r.Ok? ==> ItemKind(r.value) == KindOf(child.className)
    ensures KindOf(child.className) == FunctionKind ==> r.Err?
    ensures KindOf(child.className) == ClassKind && child.toSource.Missing? && child.source.None? ==>
      r == Err(NameError)
  {
    var c := EnsureToSource(child);
    match KindOf(child.className)
    case ImportKind =>
      (match ImportFromGraphsitter(c) case Err(e) => Err(e) case Ok(imp) => Ok(ImportItem(imp)))
    case ClassKind =>
      (match ClassFromGraphsitterAsWritten(c, classDoc(c)) case Err(e) => Err(e) case Ok(x) => Ok(ClassItem(x)))
    case FunctionKind =>
      (match FunctionFromGraphsitter(c) case Err(e) => Err(e) case Ok(fn) => Ok(FunctionItem(fn)))
    case StatementKind =>
      (match StatementFromGraphsitter(c) case Err(e) => Err(e) case Ok(st) => Ok(StatementItem(st)))
  }

  /** The items loop: every child becomes one item, in order. */
  function ModelsItems(children: seq<GsNode>, classDoc: GsNode -> Option<string>): (r: Result<seq<Item>, Error>)
    ensures r.Ok? <==> forall i :: 0 <= i < |children| ==> ModelsItem(children[i], classDoc).Ok?
    ensures r.Ok? ==> |r.value| == |children| &&
                      forall i :: 0 <= i < |children| ==> r.value[i] == ModelsItem(children[i], classDoc).value
  {
    var rs := seq(|children|, i requires 0 <= i < |children| => ModelsItem(children[i], classDoc));
    assert forall i :: 0 <= i < |children| ==> rs[i] == ModelsItem(children[i], classDoc);
    AllOk(rs)
  }

  /** The docstring: the stripped `source` of the node's `docstring` when
      that is truthy. */
  function ModelsDocstring(node: GsNode): (r: Option<string>)
    ensures r.Some? <==> node.docstring.Some? && Filled(node.docstring.value.source).Some?
    ensures r.Some? ==> r.value == Strip(node.docstring.value.source.value)
  {
    if node.docstring.Some? && Filled(node.docstring.value.source).Some? then
      Some(Strip(node.docstring.value.source.value))
    else None
  }

  /** `PyFile.from_graphsitter(node)` of models/file.py. */
  function ModelsFromGraphsitter(node: GsNode, classDoc: GsNode -> Option<string>): (r: Result<File, Error>)
    ensures SourceText(node).Err? ==> r == Err(SourceText(node).error)
    ensures SourceText(node).Ok? && Children(node).Err? ==> r == Err(GraphSitterIntegrationError)
    ensures r.Ok? ==> (r.value.base == Base(node, true) && r.value.docstring == ModelsDocstring(node) &&
                       |r.value.items| == |Children(node).value|)
    ensures r.Ok? ==> (r.value.shebang.Some? <==> StartsWith(SourceText(node).value, "#!"))
    ensures r.Ok? && r.value.shebang.Some? ==>
      r.value.shebang.value == RStrip(FirstLine(SourceText(node).value))
  {
    match SourceText(node)
    case Err(e) => Err(e)
    case Ok(src) =>
      var shebang := if StartsWith(src, "#!") then Some(RStrip(FirstLine(src))) else None;
      match Children(node)
      case Err(e) => Err(e)
      case Ok(children) =>
        match ModelsItems(children, classDoc)
        case Err(e) => Err(e)
        case Ok(items) =>
          ValidateKnown(items);
          NewFile(node, true, None, AsElements(items), shebang, ModelsDocstring(node))
  }

  /** A loaded file holds one item per child, of the kind the child's class
      name selects, in the children's order. */
  lemma ModelsKinds(node: GsNode, classDoc: GsNode -> Option<string>)
    requires ModelsFromGraphsitter(node, classDoc).Ok?
    ensures var items := ModelsFromGraphsitter(node, classDoc).value.items;
      forall i :: 0 <= i < |items| ==> ItemKind(items[i]) == KindOf(Children(node).value[i].className)
  {
  }

  /** A child known only by its `source` text loads, as a statement, with
      that text. */
  lemma SourceOnlyStatement(child: GsNode, classDoc: GsNode -> Option<string>)
    requires child.toSource.Missing? && child.source.Some?
    requires KindOf(child.className) == StatementKind
    requires child.validateStructure != Raises && child.validateStructure != Returns(false)
    ensures ModelsItem(child, classDoc).Ok?
    ensures ModelsItem(child, classDoc).value.StatementItem?
    ensures StatementSource(ModelsItem(child, classDoc).value.stmt) == child.source.value
  {
    ConstructAccepts(EnsureToSource(child), true);
  }
}
