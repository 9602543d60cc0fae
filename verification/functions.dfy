/** models/py_function.py: a function with its parameter list, return type
    and docstring. The mutating methods are state transformers here: each
    takes the function and returns the updated one. */
module PyFunctions {
  import opened Wrappers
  import opened Errors
  import opened PyStrings
  import opened CodeBase
  import opened Parameters

  datatype Function = Function(
    base: Base,
    name: string,
    params: seq<Parameter>,
    returnType: Option<string>,
    docstring: Option<string>)

  /** `PyFunction(...)`: only the inherited post-init check can refuse it. */
  function NewFunction(node: GsNode, validate: bool, name: string, params: seq<Parameter>,
                       returnType: Option<string>, docstring: Option<string>): (r: Result<Function, Error>)
    ensures r.Ok? <==> Construct(node, validate).Ok?
    ensures r.Ok? ==> (r.value.base == Base(node, validate) && r.value.name == name &&
                       r.value.params == params && r.value.returnType == returnType &&
                       r.value.docstring == docstring)
    ensures r.Err? ==> r.error == ValidationError
  {
    match Construct(node, validate)
    case Ok(b) => Ok(Function(b, name, params, returnType, docstring))
    case Err(e) => Err(e)
  }

  /** `PyFunction.from_graphsitter(node)`, inherited from `BaseCodeNode`: the
      node alone is passed, so the required `function_name` is missing. */
  function FunctionFromGraphsitter(node: GsNode): (r: Result<Function, Error>)
    ensures r.Err?
    ensures node.toSource.Missing? <==> r.error == GraphSitterIntegrationError
    ensures !node.toSource.Missing? ==> r.error == MissingField("function_name")
  {
    if node.toSource.Missing? then Err(GraphSitterIntegrationError) else Err(MissingField("function_name"))
  }

  function Names(ps: seq<Parameter>): (r: seq<string>)
    ensures |r| == |ps|
    ensures forall i :: 0 <= i < |ps| ==> r[i] == ps[i].name
  {
    seq(|ps|, i requires 0 <= i < |ps| => ps[i].name)
  }

  /** `get_parameter(name)`: the first parameter with that name. */
  function GetParameter(f: Function, name: string): (r: Option<Parameter>)
    ensures r.None? <==> name !in Names(f.params)
    ensures r.Some? ==> exists i :: (0 <= i < |f.params| && f.params[i] == r.value &&
                                     r.value.name == name && name !in Names(f.params)[..i])
  {
    match IndexOf(Names(f.params), name)
    case None => None
    case Some(i) => Some(f.params[i])
  }

  /** `has_parameter(name)` */
  function HasParameter(f: Function, name: string): (r: bool)
    ensures r <==> exists i :: 0 <= i < |f.params| && f.params[i].name == name
  {
    assert name in Names(f.params) <==> exists i :: 0 <= i < |f.params| && f.params[i].name == name by {
      if name in Names(f.params) {
        var i :| 0 <= i < |f.params| && Names(f.params)[i] == name;
      }
    }
    GetParameter(f, name).Some?
  }

  /** `add_parameter(name, type_hint, default)`: a name already present is
      refused; otherwise one new parameter goes at the end. */
  function AddParameter(f: Function, name: string, typeHint: Option<string>, default: PyValue): (r: Result<Function, Error>)
    ensures r.Err? <==> HasParameter(f, name)
    ensures r.Err? ==> r.error == ValidationError
    ensures r.Ok? ==> (|r.value.params| == |f.params| + 1 && r.value.params[..|f.params|] == f.params &&
                       r.value.params[|f.params|] == NewParameter(name, typeHint, default, true) &&
                       r.value.(params := f.params) == f)
  {
    if HasParameter(f, name) then Err(ValidationError)
    else Ok(f.(params := f.params + [NewParameter(name, typeHint, default, true)]))
  }

  /** After a successful add the new parameter is found by its name, and
      every other name finds what it found before. */
  lemma AddThenGet(f: Function, name: string, typeHint: Option<string>, default: PyValue, other: string)
    requires AddParameter(f, name, typeHint, default).Ok?
    ensures var g := AddParameter(f, name, typeHint, default).value;
      GetParameter(g, name) == Some(NewParameter(name, typeHint, default, true)) &&
      (other != name ==> GetParameter(g, other) == GetParameter(f, other))
  {
    var g := AddParameter(f, name, typeHint, default).value;
    var n := |f.params|;
    assert Names(g.params) == Names(f.params) + [name];
    IndexOfAt(Names(g.params), name, n);
    if other != name {
      IndexOfAppend(Names(f.params), name, other);
    }
  }

  lemma IndexOfAppend(s: seq<string>, x: string, y: string)
    requires y != x
    ensures IndexOf(s + [x], y) == IndexOf(s, y)
  {
    var t := s + [x];
    match IndexOf(s, y)
    case None =>
      assert y !in t;
    case Some(k) =>
      assert t[..k] == s[..k];
      IndexOfAt(t, y, k);
  }

  /** Adding keeps parameter names distinct. */
  lemma AddKeepsDistinct(f: Function, name: string, typeHint: Option<string>, default: PyValue)
    requires Distinct(Names(f.params))
    requires AddParameter(f, name, typeHint, default).Ok?
    ensures Distinct(Names(AddParameter(f, name, typeHint, default).value.params))
  {
    var g := AddParameter(f, name, typeHint, default).value;
    assert Names(g.params) == Names(f.params) + [name];
  }

  /** `set_return_type(t)` */
  function SetReturnType(f: Function, t: string): (r: Function)
    ensures r.returnType == Some(t)
    ensures r.(returnType := f.returnType) == f
  {
    f.(returnType := Some(t))
  }

  /** `set_docstring(d)` */
  function SetDocstring(f: Function, d: string): (r: Function)
    ensures r.docstring == Some(d)
    ensures r.(docstring := f.docstring) == f
  {
    f.(docstring := Some(d))
  }

  /** Each setter touches only its own field: the two commute, and the later
      of two calls to one setter wins. */
  lemma SettersIndependent(f: Function, t: string, u: string, d: string)
    ensures SetDocstring(SetReturnType(f, t), d) == SetReturnType(SetDocstring(f, d), t)
    ensures SetReturnType(SetReturnType(f, t), u) == SetReturnType(f, u)
    ensures SetDocstring(SetDocstring(f, t), d) == SetDocstring(f, d)
  {
  }

  function Sources(ps: seq<Parameter>): (r: seq<string>)
    ensures |r| == |ps|
    ensures forall i :: 0 <= i < |ps| ==> r[i] == ParamSource(ps[i])
  {
    seq(|ps|, i requires 0 <= i < |ps| => ParamSource(ps[i]))
  }

  function ReturnPart(returnType: Option<string>): string {
    if Filled(returnType).Some? then " -> " + returnType.value else ""
  }

  /** `to_signature()`: the parameters joined by `, ` in list order, and the
      return annotation only when the return type is truthy. */
  function ToSignature(f: Function): (r: string)
    ensures StartsWith(r, "def " + f.name + "(")
    ensures EndsWith(r, ")" + ReturnPart(f.returnType) + ":")
    ensures |f.params| == 0 ==> r == "def " + f.name + "()" + ReturnPart(f.returnType) + ":"
  {
    var head := "def " + f.name + "(";
    var tail := ")" + ReturnPart(f.returnType) + ":";
    var j := Join(", ", Sources(f.params));
    assert SignatureText(f.name, j, f.returnType) == head + j + tail;
    Frame(head, j, tail);
    SignatureText(f.name, j, f.returnType)
  }

  /** The signature line around a given parameter text. */
  function SignatureText(name: string, paramText: string, returnType: Option<string>): string {
    "def " + name + "(" + paramText + ")" + ReturnPart(returnType) + ":"
  }

  /** Adding a parameter extends the signature's parameter text by `, ` and
      the new parameter (no comma for the first one), and leaves the rest of
      the signature as it was. */
  lemma SignatureAfterAdd(f: Function, name: string, typeHint: Option<string>, default: PyValue)
    requires AddParameter(f, name, typeHint, default).Ok?
    ensures var p := NewParameter(name, typeHint, default, true);
      ToSignature(AddParameter(f, name, typeHint, default).value) ==
      SignatureText(f.name, Join(", ", Sources(f.params)) + (if |f.params| == 0 then "" else ", ") + ParamSource(p),
                    f.returnType)
  {
    var p := NewParameter(name, typeHint, default, true);
    var g := AddParameter(f, name, typeHint, default).value;
    var sep := if |f.params| == 0 then "" else ", ";
    var j := Join(", ", Sources(f.params));
    assert Join(", ", Sources(g.params)) == j + sep + ParamSource(p) by {
      assert Sources(g.params) == Sources(f.params) + [ParamSource(p)];
      JoinSnoc(", ", Sources(f.params), ParamSource(p));
      if |f.params| == 0 {
        assert j == "";
      }
    }
    assert g.name == f.name && g.returnType == f.returnType;
  }

  /** Every parameter's own text occurs in the signature. */
  lemma SignatureMentions(f: Function, i: nat)
    requires i < |f.params|
    ensures IsSubstring(ParamSource(f.params[i]), ToSignature(f))
  {
    var j := Join(", ", Sources(f.params));
    JoinContains(", ", Sources(f.params), i);
    SubstringWithin(ParamSource(f.params[i]), "def " + f.name + "(", j, ")" + ReturnPart(f.returnType) + ":");
    assert ToSignature(f) == ("def " + f.name + "(") + j + (")" + ReturnPart(f.returnType) + ":");
  }
}
