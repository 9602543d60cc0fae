/** utils/factory.py: choosing a wrapper for a graph-sitter object by the
    name of its kind, and choosing a builder by a kind name. */
module PyFactory {
  import opened Wrappers
  import opened Errors
  import opened PyStrings
  import opened CodeBase
  import opened PyFunctions
  import opened PyClasses
  import opened PyAssignments
  import opened PyBuilders

  /** The wrapper `from_graphsitter` returns. */
  datatype Wrapped =
    | ClassNode(cls: Class)
    | FunctionNode(fn: Function)
    | AssignmentNode(asg: Assignment)
    | BaseNode(base: Base)

  /** The kind name: the node's `type` when truthy, else its class name. */
  function KindName(node: GsNode): (r: string)
    ensures Filled(node.typ).Some? ==> r == node.typ.value
    ensures Filled(node.typ).None? ==> r == node.className
  {
    if Filled(node.typ).Some? then node.typ.value else node.className
  }

  /** Whether a kind name selects the function wrapper. */
  predicate NamesFunction(kind: string) {
    Contains(kind, "Function") || Contains(kind, "Method")
  }

  /** `from_graphsitter(node)`: a node without `to_source` is refused with
      ValidationError; otherwise the first of `Class`, `Function` or
      `Method`, `Assignment` found (case-sensitively) in the kind name picks
      the wrapper, and anything else is wrapped as a plain `BaseCodeNode`.
      `classDoc` stands for the class constructor's AST docstring. */
  function FactoryFromGraphsitter(node: GsNode, classDoc: GsNode -> Option<string>): (r: Result<Wrapped, Error>)
    ensures node.toSource.Missing? ==> r == Err(ValidationError)
    ensures r.Ok? ==> r.value.ClassNode? || r.value.BaseNode?
    ensures r.Ok? && r.value.ClassNode? ==> Contains(KindName(node), "Class") &&
                                             r.value.cls.base == Base(node, true)
    ensures r.Ok? && r.value.BaseNode? ==> r.value.base == Base(node, true)
  {
    if node.toSource.Missing? then Err(ValidationError)
    else
      var kind := KindName(node);
      if Contains(kind, "Class") then
        match ClassFromGraphsitter(node, classDoc(node))
        case Err(e) => Err(e)
        case Ok(c) => Ok(ClassNode(c))
      else if NamesFunction(kind) then
        match FunctionFromGraphsitter(node)
        case Err(e) => Err(e)
        case Ok(fn) => Ok(FunctionNode(fn))
      else if Contains(kind, "Assignment") then
        match AssignmentFromGraphsitter(node)
        case Err(e) => Err(e)
        case Ok(a) => Ok(AssignmentNode(a))
      else
        match FromGraphsitter(node)
        case Err(e) => Err(e)
        case Ok(b) => Ok(BaseNode(b))
  }

  /** Dispatch by kind name, in full: a class kind gets the class
      constructor's outcome; a function or method kind, and an assignment
      kind, fail for want of the required name field; any other kind is
      wrapped as it is when its integrity check passes. */
  lemma FactoryDispatch(node: GsNode, classDoc: GsNode -> Option<string>)
    requires !node.toSource.Missing?
    ensures var kind := KindName(node); var r := FactoryFromGraphsitter(node, classDoc);
      (Contains(kind, "Class") ==>
         (r.Ok? <==> ClassFromGraphsitter(node, classDoc(node)).Ok?) &&
         (r.Ok? ==> r.value == ClassNode(ClassFromGraphsitter(node, classDoc(node)).value))) &&
      (!Contains(kind, "Class") && NamesFunction(kind) ==> r == Err(MissingField("function_name"))) &&
      (!Contains(kind, "Class") && !NamesFunction(kind) && Contains(kind, "Assignment") ==>
         r == Err(MissingField("variable_name"))) &&
      (!Contains(kind, "Class") && !NamesFunction(kind) && !Contains(kind, "Assignment") ==>
         (r.Ok? <==> Construct(node, true).Ok?))
  {
  }

  /** Kind names without the capitals that open `Class`, `Function`,
      `Method` and `Assignment` select none of them. */
  lemma NoCapitals(s: string)
    requires 'C' !in s && 'F' !in s && 'M' !in s && 'A' !in s
    ensures !Contains(s, "Class") && !NamesFunction(s) && !Contains(s, "Assignment")
  {
    ContainsFirstChar(s, "Class");
    ContainsFirstChar(s, "Function");
    ContainsFirstChar(s, "Method");
    ContainsFirstChar(s, "Assignment");
  }

  /** The match is case-sensitive: a node whose `type` is a lower-case
      tree-sitter kind such as `class_definition` or `function_definition`
      is wrapped as a plain `BaseCodeNode`. */
  lemma LowerCaseKindsArePlain(node: GsNode, classDoc: GsNode -> Option<string>)
    requires node.toSource.Returns?
    requires Filled(node.typ).Some?
    requires forall i :: 0 <= i < |node.typ.value| ==> !IsAsciiUpper(node.typ.value[i])
    ensures FactoryFromGraphsitter(node, classDoc).Ok? <==> Construct(node, true).Ok?
    ensures FactoryFromGraphsitter(node, classDoc).Ok? ==>
      FactoryFromGraphsitter(node, classDoc).value == BaseNode(Base(node, true))
  {
    var t := node.typ.value;
    assert 'C' !in t && 'F' !in t && 'M' !in t && 'A' !in t by {
      assert forall i :: 0 <= i < |t| ==> !IsAsciiUpper(t[i]);
    }
    NoCapitals(t);
  }

  // ---------------------------------------------------------------------
  // builder_for
  // ---------------------------------------------------------------------

  /** What `builder_for` hands back: a maker of one of the two builders. */
  datatype BuilderKind = ClassBuilderKind | FunctionBuilderKind

  /** `builder_for(node_type)`: `class` or `function` in any letter case;
      anything else is refused with ValidationError. */
  function BuilderFor(nodeType: string): (r: Result<BuilderKind, Error>)
    ensures r.Err? ==> r.error == ValidationError
  {
    var t := LowerStr(nodeType);
    if t == "class" then Ok(ClassBuilderKind)
    else if t == "function" then Ok(FunctionBuilderKind)
    else Err(ValidationError)
  }

  datatype Builder = ForClass(cb: ClassBuilder) | ForFunction(fb: FunctionBuilder)

  /** Calling what `builder_for` returned with a name. */
  function MakeBuilder(k: BuilderKind, name: string): (r: Builder)
    ensures r.ForClass? <==> k == ClassBuilderKind
    ensures r.ForClass? ==> r.cb == NewClassBuilder(name)
    ensures r.ForFunction? ==> r.fb == NewFunctionBuilder(name)
  {
    match k
    case ClassBuilderKind => ForClass(NewClassBuilder(name))
    case FunctionBuilderKind => ForFunction(NewFunctionBuilder(name))
  }

  /** Two spellings equal up to ASCII letter case. */
  predicate SameIgnoringCase(a: string, b: string) {
    |a| == |b| && forall i :: 0 <= i < |a| ==> Lower(a[i]) == Lower(b[i])
  }

  lemma LowerStrEqual(a: string, b: string)
    ensures LowerStr(a) == LowerStr(b) <==> SameIgnoringCase(a, b)
  {
    if SameIgnoringCase(a, b) {
      assert forall i :: 0 <= i < |a| ==> LowerStr(a)[i] == LowerStr(b)[i];
    }
    if LowerStr(a) == LowerStr(b) {
      assert forall i :: 0 <= i < |a| ==> Lower(a[i]) == LowerStr(a)[i] == LowerStr(b)[i] == Lower(b[i]);
    }
  }

  /** The kinds `builder_for` accepts are exactly the spellings of `class`
      and `function` in any ASCII letter case. */
  lemma BuilderForAccepts(nodeType: string)
    ensures BuilderFor(nodeType) == Ok(ClassBuilderKind) <==> SameIgnoringCase(nodeType, "class")
    ensures BuilderFor(nodeType) == Ok(FunctionBuilderKind) <==> SameIgnoringCase(nodeType, "function")
    ensures BuilderFor(nodeType).Err? <==>
      !SameIgnoringCase(nodeType, "class") && !SameIgnoringCase(nodeType, "function")
  {
    LowerStrEqual(nodeType, "class");
    LowerStrEqual(nodeType, "function");
    assert LowerStr("class") == "class";
    assert LowerStr("function") == "function";
  }
}
