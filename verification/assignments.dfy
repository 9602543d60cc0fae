/** core/assignments.py: a variable assignment with an optional type hint
    that is checked against the value when the object is built. */
module PyAssignments {
  import opened Wrappers
  import opened Errors
  import opened CodeBase
  import opened PyStrings

  datatype Assignment = Assignment(base: Base, name: string, value: PyValue, typeHint: Option<string>)

  /** `isinstance(value, cls)` for the three built-in names the check knows;
      `bool` is a subclass of `int`. */
  predicate IsInstance(v: PyValue, cls: string) {
    match cls
    case "str" => v.Str?
    case "int" => v.Int? || v.Bool?
    case "bool" => v.Bool?
    case _ => false
  }

  /** `bool` is a subclass of `int`, and no value is an instance of a class
      name other than the three. */
  lemma IsInstanceHierarchy(v: PyValue, cls: string)
    ensures IsInstance(v, "bool") ==> IsInstance(v, "int")
    ensures IsInstance(v, cls) ==> cls in {"str", "int", "bool"}
    ensures !(IsInstance(v, "str") && IsInstance(v, "int"))
  {
  }

  /** `validate_type_consistency()`: with no truthy hint, or a hint other
      than `str`, `int` and `bool`, anything goes; those three demand an
      instance of that type. */
  function TypeConsistent(value: PyValue, typeHint: Option<string>): (r: bool)
    ensures Filled(typeHint).None? ==> r
    ensures r <==> Filled(typeHint).None? || typeHint.value !in {"str", "int", "bool"} ||
                   IsInstance(value, typeHint.value)
  {
    if Filled(typeHint).None? then true
    else if typeHint.value == "str" && !value.Str? then false
    else if typeHint.value == "int" && !(value.Int? || value.Bool?) then false
    else if typeHint.value == "bool" && !value.Bool? then false
    else true
  }

  /** `PyAssignment(...)`: the inherited post-init check first, then the
      type check; either failure is ValidationError. */
  function NewAssignment(node: GsNode, validate: bool, name: string, value: PyValue,
                         typeHint: Option<string>): (r: Result<Assignment, Error>)
    ensures r.Ok? <==> Construct(node, validate).Ok? && TypeConsistent(value, typeHint)
    ensures r.Ok? ==> r.value == Assignment(Base(node, validate), name, value, typeHint)
    ensures r.Err? ==> r.error == ValidationError
  {
    match Construct(node, validate)
    case Err(e) => Err(e)
    case Ok(b) => if TypeConsistent(value, typeHint) then Ok(Assignment(b, name, value, typeHint)) else Err(ValidationError)
  }

  /** A bool passes an `int` hint, a string does not, and `None` fails every
      one of the three hints. */
  lemma TypeCheckCases(name: string, b: bool, s: string)
    ensures NewAssignment(PyNone, true, name, Bool(b), Some("int")).Ok?
    ensures NewAssignment(PyNone, true, name, Str(s), Some("int")) == Err(ValidationError)
    ensures NewAssignment(PyNone, true, name, Int(1), Some("bool")) == Err(ValidationError)
    ensures forall h :: h in {"str", "int", "bool"} ==> !TypeConsistent(NoneValue, Some(h))
  {
  }

  /** `set_value(v)`: assigned without a new check. */
  function SetValue(a: Assignment, v: PyValue): (r: Assignment)
    ensures r.value == v && r.(value := a.value) == a
  {
    a.(value := v)
  }

  /** `set_type_annotation(t)`: assigned without a new check. */
  function SetTypeAnnotation(a: Assignment, t: string): (r: Assignment)
    ensures r.typeHint == Some(t) && r.(typeHint := a.typeHint) == a
  {
    a.(typeHint := Some(t))
  }

  /** The setters can leave an assignment that construction would refuse. */
  lemma SettersSkipCheck(a: Assignment, s: string)
    requires a.typeHint == Some("int")
    ensures !TypeConsistent(SetValue(a, Str(s)).value, SetValue(a, Str(s)).typeHint)
    ensures !TypeConsistent(SetTypeAnnotation(a.(value := Int(0)), "str").value, Some("str"))
  {
  }

  /** `to_assignment()`: `name[: hint] = value`; the value is always
      written, `None` included. */
  function ToAssignment(a: Assignment): (r: string)
    ensures StartsWith(r, a.name)
    ensures EndsWith(r, " = " + Render(a.value))
    ensures Filled(a.typeHint).None? ==> r == a.name + " = " + Render(a.value)
  {
    var hint := if Filled(a.typeHint).Some? then ": " + a.typeHint.value else "";
    var tail := " = " + Render(a.value);
    assert Declaration(a.name, a.typeHint, Some(Render(a.value))) == (a.name + hint) + tail;
    Declaration(a.name, a.typeHint, Some(Render(a.value)))
  }

  /** The assignment text reads back as its name, its hint when truthy and
      the value's text. */
  lemma AssignmentRoundTrip(a: Assignment)
    requires forall i :: 0 <= i < |a.name| ==> !IsStop(a.name[i])
    requires a.typeHint.Some? ==> '=' !in a.typeHint.value
    ensures ReadDeclaration(ToAssignment(a)) == (a.name, Filled(a.typeHint), Some(Render(a.value)))
  {
    DeclarationRoundTrip(a.name, a.typeHint, Some(Render(a.value)));
  }

  /** `PyAssignment.from_graphsitter(node)`, inherited from `BaseCodeNode`:
      the node alone is passed, so the required fields are missing. */
  function AssignmentFromGraphsitter(node: GsNode): (r: Result<Assignment, Error>)
    ensures r.Err?
    ensures node.toSource.Missing? <==> r.error == GraphSitterIntegrationError
    ensures !node.toSource.Missing? ==> r.error == MissingField("variable_name")
  {
    if node.toSource.Missing? then Err(GraphSitterIntegrationError) else Err(MissingField("variable_name"))
  }
}
