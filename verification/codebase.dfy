/** core/base.py: the graph-sitter objects the code-structure layer wraps, the
    Python values it stores, and `BaseCodeNode`, the root of every wrapper.
    A graph-sitter object is seen only through the attributes and methods
    the wrappers probe with `hasattr`; each one is present or absent here. */
module CodeBase {
  import opened Wrappers
  import opened Errors
  import opened PyStrings

  /** A method of a foreign object: absent (`hasattr` is false), present and
      raising, or present and returning a value. */
  datatype Call<+T> = Missing | Raises | Returns(value: T)

  /** A graph-sitter object as the wrappers see it. Optional attributes are
      `None` when absent; `walk` stands for the cursor of direct children,
      `expression` for `child_by_field_name("expression")`. */
  datatype GsNode = GsNode(
    className: string,
    typ: Option<string>,
    toSource: Call<string>,
    source: Option<string>,
    validateStructure: Call<bool>,
    walk: Option<seq<GsNode>>,
    expression: Option<GsNode>,
    text: string,
    symbols: Option<seq<GsNode>>,
    imports: Option<seq<GsNode>>,
    classes: Option<seq<GsNode>>,
    functions: Option<seq<GsNode>>,
    docstring: Option<GsNode>)

  /** Python's `None` in the `graphsitter_node` slot: it has none of the
      probed attributes. */
  const PyNone: GsNode := GsNode("NoneType", None, Missing, None, Missing, None, None, "", None, None, None, None, None)

  /** The Python values a parameter default, an attribute value or an
      assignment value can hold. `Other` is any other object, known by its
      `str()` text. */
  datatype PyValue = NoneValue | Bool(b: bool) | Int(i: int) | Str(s: string) | Other(rendered: string)

  /** `str(v)`, which is also what an f-string inserts. */
  function Render(v: PyValue): (r: string)
    ensures v.Int? ==> |r| >= 1 && (r[0] == '-' <==> v.i < 0)
    ensures v.Int? ==> forall k :: 1 <= k < |r| ==> IsDigit(r[k])
  {
    match v
    case NoneValue => "None"
    case Bool(b) => if b then "True" else "False"
    case Int(i) => IntToStr(i)
    case Str(s) => s
    case Other(t) => t
  }

  /** Different integers render differently. */
  lemma RenderIntInjective(a: int, b: int)
    requires Render(Int(a)) == Render(Int(b))
    ensures a == b
  {
    var ra := Render(Int(a));
    if a < 0 {
      assert ra[1..] == NatToStr(-a) == NatToStr(-b);
    } else {
      NatToStrInjective(a, b);
    }
    if a < 0 { NatToStrInjective(-a, -b); }
  }

  /** An optional string kept only when it is truthy (present and non-empty). */
  function Filled(s: Option<string>): (r: Option<string>)
    ensures r.Some? <==> s.Some? && s.value != ""
    ensures r.Some? ==> r == s
  {
    if s.Some? && s.value != "" then s else None
  }

  // ---------------------------------------------------------------------
  // name[: hint][ = value]
  // ---------------------------------------------------------------------

  /** The `name[: hint][ = value]` text that parameters, attributes and
      assignments all render: the hint only when truthy, the value (already
      rendered) only when present. */
  function Declaration(name: string, hint: Option<string>, value: Option<string>): (r: string)
    ensures StartsWith(r, name)
    ensures r == name <==> Filled(hint).None? && value.None?
    ensures Filled(hint).None? && value.Some? ==> r == name + " = " + value.value
  {
    name + (if Filled(hint).Some? then ": " + hint.value else "") + (if value.Some? then " = " + value.value else "")
  }

  predicate IsStop(c: char) { c == ':' || c == '=' || c == ' ' }

  /** Index of the first stop character at or after `i`, or the length. */
  function StopFrom(s: string, i: nat): (k: nat)
    requires i <= |s|
    ensures i <= k <= |s|
    ensures forall j :: i <= j < k ==> !IsStop(s[j])
    ensures k < |s| ==> IsStop(s[k])
    decreases |s| - i
  {
    if i == |s| || IsStop(s[i]) then i else StopFrom(s, i + 1)
  }

  /** The hint and value after `: `: the hint runs to the ` = ` that opens
      the value, or to the end. */
  function ReadHinted(tail: string): (Option<string>, Option<string>) {
    match IndexOf(tail, '=')
    case None => (Some(tail), None)
    case Some(e) =>
      if 1 <= e && e + 2 <= |tail| then (Some(tail[..e - 1]), Some(tail[e + 2..]))
      else (Some(tail), None)
  }

  /** What follows the name: `: ` opens the hint and ` = ` the value. */
  function ReadAfterName(rest: string): (Option<string>, Option<string>) {
    if StartsWith(rest, ": ") then ReadHinted(rest[2..])
    else if StartsWith(rest, " = ") then (None, Some(rest[3..]))
    else (None, None)
  }

  /** Reads a declaration back into its name, hint and rendered value: the
      name runs to the first `:`, `=` or space. */
  function ReadDeclaration(s: string): (r: (string, Option<string>, Option<string>))
    ensures StartsWith(s, r.0)
    ensures forall i :: 0 <= i < |r.0| ==> !IsStop(r.0[i])
    ensures |r.0| < |s| ==> IsStop(s[|r.0|])
    ensures r.1.None? && r.2.None? ==> !StartsWith(s[|r.0|..], ": ") && !StartsWith(s[|r.0|..], " = ")
  {
    var k := StopFrom(s, 0);
    var hv := ReadAfterName(s[k..]);
    (s[..k], hv.0, hv.1)
  }

  lemma StopAfterName(name: string, rest: string)
    requires forall i :: 0 <= i < |name| ==> !IsStop(name[i])
    requires |rest| == 0 || IsStop(rest[0])
    ensures StopFrom(name + rest, 0) == |name|
  {
    var s := name + rest;
    assert forall j :: 0 <= j < |name| ==> s[j] == name[j];
    assert |rest| > 0 ==> s[|name|] == rest[0];
  }

  lemma ReadHintedRoundTrip(h: string, value: Option<string>)
    requires '=' !in h
    ensures ReadHinted(h + (if value.Some? then " = " + value.value else "")) == (Some(h), value)
  {
    if value.Some? {
      var tail := h + (" = " + value.value);
      assert tail[..|h| + 1] == h + " ";
      IndexOfAt(tail, '=', |h| + 1);
      assert tail[..|h|] == h;
      assert tail[|h| + 3..] == value.value;
    } else {
      assert h + "" == h;
    }
  }

  lemma ReadAfterHint(h: string, b: string, value: Option<string>)
    requires '=' !in h
    requires b == (if value.Some? then " = " + value.value else "")
    ensures ReadAfterName(": " + h + b) == (Some(h), value)
  {
    assert (": " + h + b)[2..] == h + b;
    ReadHintedRoundTrip(h, value);
  }

  lemma ReadAfterValue(v: string)
    ensures ReadAfterName(" = " + v) == (None, Some(v))
  {
    var t := " = " + v;
    assert t[0] == ' ';
    assert t[..3] == " = ";
    assert t[3..] == v;
  }

  lemma ReadAfterNameRoundTrip(hint: Option<string>, value: Option<string>)
    requires hint.Some? ==> '=' !in hint.value
    ensures ReadAfterName((if Filled(hint).Some? then ": " + hint.value else "") +
                          (if value.Some? then " = " + value.value else "")) == (Filled(hint), value)
  {
    var b := if value.Some? then " = " + value.value else "";
    if Filled(hint).Some? {
      ReadAfterHint(hint.value, b, value);
    } else if value.Some? {
      ReadAfterValue(value.value);
      assert "" + b == " = " + value.value;
    } else {
      assert "" + b == "";
    }
  }

  /** A name without stop characters and a hint without `=` can be read back
      from their declaration; a falsy hint reads back as absent. */
  lemma DeclarationRoundTrip(name: string, hint: Option<string>, value: Option<string>)
    requires forall i :: 0 <= i < |name| ==> !IsStop(name[i])
    requires hint.Some? ==> '=' !in hint.value
    ensures ReadDeclaration(Declaration(name, hint, value)) == (name, Filled(hint), value)
  {
    var a := if Filled(hint).Some? then ": " + hint.value else "";
    var b := if value.Some? then " = " + value.value else "";
    var s := Declaration(name, hint, value);
    assert s == name + (a + b);
    StopAfterName(name, a + b);
    assert s[..|name|] == name;
    assert s[|name|..] == a + b;
    ReadAfterNameRoundTrip(hint, value);
  }

  // ---------------------------------------------------------------------
  // BaseCodeNode
  // ---------------------------------------------------------------------

  /** The two fields every wrapper inherits: the wrapped node and the
      `validate_structure` flag (default true). */
  datatype Base = Base(node: GsNode, validate: bool)

  /** `validate_integrity()`: true when the flag is off; otherwise the
      node's own `validate_structure()` when it has one and true when it has
      none; an exception from the node becomes ValidationError. */
  function Integrity(b: Base): (r: Result<bool, Error>)
    ensures r.Err? ==> r.error == ValidationError
    ensures r.Err? <==> b.validate && b.node.validateStructure.Raises?
    ensures r == Ok(false) <==> b.validate && b.node.validateStructure == Returns(false)
  {
    if !b.validate then Ok(true)
    else match b.node.validateStructure
      case Missing => Ok(true)
      case Raises => Err(ValidationError)
      case Returns(v) => Ok(v)
  }

  /** Construction followed by `model_post_init`: with the flag set, a
      failing or raising integrity check rejects the object. */
  function Construct(node: GsNode, validate: bool): (r: Result<Base, Error>)
    ensures r.Ok? <==> !validate || Integrity(Base(node, validate)) == Ok(true)
    ensures r.Ok? ==> r.value == Base(node, validate)
    ensures r.Err? ==> r.error == ValidationError
  {
    if !validate then Ok(Base(node, validate))
    else match Integrity(Base(node, validate))
      case Ok(ok) => if ok then Ok(Base(node, validate)) else Err(ValidationError)
      case Err(e) => Err(e)
  }

  /** Stated on the node alone: construction succeeds exactly when the flag
      is off or the node either has no `validate_structure` or returns true
      from it. */
  lemma ConstructAccepts(node: GsNode, validate: bool)
    ensures Construct(node, validate).Ok? <==>
      !validate || node.validateStructure == Missing || node.validateStructure == Returns(true)
  {
  }

  /** Python's `None` always passes validation, so every wrapper built with
      `graphsitter_node=None` constructs. */
  lemma ConstructNone(validate: bool)
    ensures Construct(PyNone, validate) == Ok(Base(PyNone, validate))
  {
  }

  /** `BaseCodeNode.from_graphsitter(node)`: a node without `to_source` is
      refused; any other is wrapped unchanged with the flag at its default. */
  function FromGraphsitter(node: GsNode): (r: Result<Base, Error>)
    ensures node.toSource.Missing? ==> r == Err(GraphSitterIntegrationError)
    ensures !node.toSource.Missing? ==> r == Construct(node, true)
  {
    if node.toSource.Missing? then Err(GraphSitterIntegrationError) else Construct(node, true)
  }

  /** `to_source()`: the wrapped node's text; a missing method or an
      exception from it becomes GraphSitterIntegrationError. */
  function ToSource(b: Base): (r: Result<string, Error>)
    ensures r.Ok? <==> b.node.toSource.Returns?
    ensures r.Ok? ==> r.value == b.node.toSource.value
    ensures r.Err? ==> r.error == GraphSitterIntegrationError
  {
    match b.node.toSource
    case Returns(s) => Ok(s)
    case _ => Err(GraphSitterIntegrationError)
  }

  /** `to_graphsitter()` */
  function ToGraphsitter(b: Base): GsNode {
    b.node
  }

  /** Exporting a wrapper with the flag set and wrapping the node again
      gives the same wrapper. */
  lemma ExportThenWrap(b: Base)
    requires b.validate && !b.node.toSource.Missing? && Construct(b.node, true).Ok?
    ensures FromGraphsitter(ToGraphsitter(b)) == Ok(b)
  {
  }

  /** Wrapping a node and exporting it gives the node back, and the wrapper's
      text is the node's own (or GraphSitterIntegrationError when the node's
      method raises). */
  lemma FromGraphsitterRoundTrip(node: GsNode)
    requires FromGraphsitter(node).Ok?
    ensures ToGraphsitter(FromGraphsitter(node).value) == node
    ensures node.toSource.Returns? ==> ToSource(FromGraphsitter(node).value) == Ok(node.toSource.value)
    ensures node.toSource.Raises? ==> ToSource(FromGraphsitter(node).value) == Err(GraphSitterIntegrationError)
  {
  }

  /** A wrapper around `None` has no text of its own: `to_source()` raises. */
  lemma NoneHasNoSource(validate: bool)
    ensures ToSource(Base(PyNone, validate)) == Err(GraphSitterIntegrationError)
  {
  }
}
