/** core/builders.py (main/builders.py is the same file): fluent builders for
    functions and classes. Each `with_*` call returns the builder itself in
    the source; here it returns the updated builder. `build()` wraps no
    node (`graphsitter_node=None`). */
module PyBuilders {
  import opened Wrappers
  import opened Errors
  import opened PyStrings
  import opened CodeBase
  import opened Parameters
  import opened PyFunctions
  import opened PyClasses

  // ---------------------------------------------------------------------
  // PyFunctionBuilder
  // ---------------------------------------------------------------------

  datatype FunctionBuilder = FunctionBuilder(name: string, params: seq<Parameter>, returnType: Option<string>,
                                             docstring: Option<string>)

  /** `PyFunctionBuilder(name)` */
  function NewFunctionBuilder(name: string): FunctionBuilder {
    FunctionBuilder(name, [], None, None)
  }

  /** A fresh builder builds, for a non-empty name, a function with no
      parameters, return type or docstring, whose signature is `def name():`;
      for the empty name it builds nothing. */
  lemma NewFunctionBuilderBuilds(name: string)
    ensures name == "" ==> BuildFunction(NewFunctionBuilder(name)) == Err(BuilderError)
    ensures name != "" ==> BuildFunction(NewFunctionBuilder(name)) == Ok(Function(Base(PyNone, true), name, [], None, None))
    ensures name != "" ==> ToSignature(BuildFunction(NewFunctionBuilder(name)).value) == "def " + name + "():"
  {
  }

  /** `with_param(name, type_hint, default)`: a parameter built as the
      constructor builds it goes at the end, with no duplicate check. */
  function WithParam(b: FunctionBuilder, name: string, typeHint: Option<string>, default: PyValue): (r: FunctionBuilder)
    ensures r.params == b.params + [NewParameter(name, typeHint, default, true)]
    ensures r.(params := b.params) == b
  {
    b.(params := b.params + [NewParameter(name, typeHint, default, true)])
  }

  /** `with_return_type(t)` */
  function WithReturnType(b: FunctionBuilder, t: string): (r: FunctionBuilder)
    ensures r.returnType == Some(t) && r.(returnType := b.returnType) == b
  {
    b.(returnType := Some(t))
  }

  /** `with_docstring(d)` */
  function WithFunctionDocstring(b: FunctionBuilder, d: string): (r: FunctionBuilder)
    ensures r.docstring == Some(d) && r.(docstring := b.docstring) == b
  {
    b.(docstring := Some(d))
  }

  /** `build()`: an empty name is refused with BuilderError; otherwise the
      function carries exactly what was gathered, around no node. */
  function BuildFunction(b: FunctionBuilder): (r: Result<Function, Error>)
    ensures r.Err? <==> b.name == ""
    ensures r.Err? ==> r.error == BuilderError
    ensures r.Ok? ==> r.value == Function(Base(PyNone, true), b.name, b.params, b.returnType, b.docstring)
  {
    if b.name == "" then Err(BuilderError)
    else
      ConstructNone(true);
      NewFunction(PyNone, true, b.name, b.params, b.returnType, b.docstring)
  }

  /** A parameter as `with_param` and `add_parameter` receive it. */
  datatype ParamSpec = ParamSpec(name: string, typeHint: Option<string>, default: PyValue)

  /** `with_param` once per spec, in order. */
  function WithParams(b: FunctionBuilder, specs: seq<ParamSpec>): (r: FunctionBuilder)
    ensures |r.params| == |b.params| + |specs| && r.params[..|b.params|] == b.params
    ensures forall i :: 0 <= i < |specs| ==>
      r.params[|b.params| + i] == NewParameter(specs[i].name, specs[i].typeHint, specs[i].default, true)
    ensures r.(params := b.params) == b
    decreases |specs|
  {
    if |specs| == 0 then b
    else WithParams(WithParam(b, specs[0].name, specs[0].typeHint, specs[0].default), specs[1..])
  }

  /** `add_parameter` once per spec, in order; the first refusal stops. */
  function AddParameters(f: Function, specs: seq<ParamSpec>): (r: Result<Function, Error>)
    ensures r.Err? ==> r.error == ValidationError
    ensures r.Ok? ==> |r.value.params| == |f.params| + |specs| && r.value.params[..|f.params|] == f.params
    ensures r.Ok? ==> forall i :: 0 <= i < |specs| ==> r.value.params[|f.params| + i].name == specs[i].name
    ensures r.Ok? ==> r.value.(params := f.params) == f
    ensures |specs| > 0 && HasParameter(f, specs[0].name) ==> r == Err(ValidationError)
    decreases |specs|
  {
    if |specs| == 0 then Ok(f)
    else match AddParameter(f, specs[0].name, specs[0].typeHint, specs[0].default)
      case Err(e) => Err(e)
      case Ok(g) => AddParameters(g, specs[1..])
  }

  function SpecNames(specs: seq<ParamSpec>): (r: seq<string>)
    ensures |r| == |specs| && forall i :: 0 <= i < |specs| ==> r[i] == specs[i].name
  {
    seq(|specs|, i requires 0 <= i < |specs| => specs[i].name)
  }

  lemma NamesSnoc(ps: seq<Parameter>, p: Parameter)
    ensures Names(ps + [p]) == Names(ps) + [p.name]
  {
  }

  /** With distinct names, building through the builder gives the same
      parameters as adding them one by one to a function with the builder's
      starting parameters. */
  lemma {:induction false} WithParamsAgreesWithAdd(b: FunctionBuilder, f: Function, specs: seq<ParamSpec>)
    requires f.params == b.params
    requires Distinct(Names(b.params) + SpecNames(specs))
    ensures AddParameters(f, specs) == Ok(f.(params := WithParams(b, specs).params))
    decreases |specs|
  {
    if |specs| > 0 {
      var s := specs[0];
      FirstSpecFresh(b, f, specs);
      FirstSpecKeepsDistinct(b, specs);
      var g := AddParameter(f, s.name, s.typeHint, s.default).value;
      var b' := WithParam(b, s.name, s.typeHint, s.default);
      assert g.params == b'.params;
      WithParamsAgreesWithAdd(b', g, specs[1..]);
      assert AddParameters(f, specs) == AddParameters(g, specs[1..]);
      assert WithParams(b, specs) == WithParams(b', specs[1..]);
    }
  }

  /** The first spec's name is not among the builder's parameters. */
  lemma FirstSpecFresh(b: FunctionBuilder, f: Function, specs: seq<ParamSpec>)
    requires |specs| > 0 && f.params == b.params
    requires Distinct(Names(b.params) + SpecNames(specs))
    ensures !HasParameter(f, specs[0].name)
  {
    DistinctHead(Names(b.params), SpecNames(specs));
  }

  /** The names stay distinct once the first spec has been added. */
  lemma FirstSpecKeepsDistinct(b: FunctionBuilder, specs: seq<ParamSpec>)
    requires |specs| > 0
    requires Distinct(Names(b.params) + SpecNames(specs))
    ensures Distinct(Names(WithParam(b, specs[0].name, specs[0].typeHint, specs[0].default).params) +
                     SpecNames(specs[1..]))
  {
    var s := specs[0];
    var p := NewParameter(s.name, s.typeHint, s.default, true);
    SnocRegroup(Names(b.params), p.name, SpecNames(specs[1..]), SpecNames(specs));
    NamesSnoc(b.params, p);
  }

  /** Moving one element across the seam keeps a list distinct. */
  lemma SnocRegroup<T>(xs: seq<T>, y: T, ys: seq<T>, all: seq<T>)
    requires all == [y] + ys && Distinct(xs + all)
    ensures Distinct(xs + [y] + ys)
  {
    assert xs + [y] + ys == xs + all;
  }

  /** In a distinct concatenation the second part's head is not in the
      first part. */
  lemma DistinctHead<T>(xs: seq<T>, ys: seq<T>)
    requires |ys| > 0 && Distinct(xs + ys)
    ensures forall i :: 0 <= i < |xs| ==> xs[i] != ys[0]
  {
    forall i | 0 <= i < |xs| ensures xs[i] != ys[0] {
      assert (xs + ys)[i] == xs[i] && (xs + ys)[|xs|] == ys[0];
    }
  }

  /** The builder does not refuse a repeated parameter name, where
      `add_parameter` does. */
  lemma BuilderKeepsDuplicates(fname: string, p: string)
    requires fname != ""
    ensures var b := WithParam(WithParam(NewFunctionBuilder(fname), p, None, NoneValue), p, None, NoneValue);
      BuildFunction(b).Ok? && |BuildFunction(b).value.params| == 2 &&
      AddParameter(BuildFunction(WithParam(NewFunctionBuilder(fname), p, None, NoneValue)).value, p, None, NoneValue).Err?
  {
    var one := BuildFunction(WithParam(NewFunctionBuilder(fname), p, None, NoneValue)).value;
    assert one.params[0].name == p;
  }

  // ---------------------------------------------------------------------
  // PyClassBuilder
  // ---------------------------------------------------------------------

  datatype ClassBuilder = ClassBuilder(name: string, bases: seq<string>, methods: seq<Function>,
                                       attributes: seq<string>, docstring: Option<string>)

  /** `PyClassBuilder(name)` */
  function NewClassBuilder(name: string): ClassBuilder {
    ClassBuilder(name, [], [], [], None)
  }

  /** A fresh builder builds, for a non-empty name, a class with no bases,
      methods, attributes or docstring, whose header is `class name:`; for
      the empty name it builds nothing. */
  lemma NewClassBuilderBuilds(name: string)
    ensures name == "" ==> BuildClass(NewClassBuilder(name)) == Err(BuilderError)
    ensures name != "" ==> BuildClass(NewClassBuilder(name)) == Ok(Class(Base(PyNone, true), name, [], None, [], []))
    ensures name != "" ==> ToClassDefinition(BuildClass(NewClassBuilder(name)).value) == "class " + name + ":"
  {
  }

  /** `with_base(b)` */
  function WithBase(b: ClassBuilder, base: string): (r: ClassBuilder)
    ensures r.bases == b.bases + [base] && r.(bases := b.bases) == b
  {
    b.(bases := b.bases + [base])
  }

  /** `with_bases(bs)`: the list extended in one step. */
  function WithBases(b: ClassBuilder, bases: seq<string>): (r: ClassBuilder)
    ensures |r.bases| == |b.bases| + |bases| && r.bases[..|b.bases|] == b.bases && r.bases[|b.bases|..] == bases
    ensures r.(bases := b.bases) == b
  {
    b.(bases := b.bases + bases)
  }

  /** `with_method(m)` */
  function WithMethod(b: ClassBuilder, m: Function): (r: ClassBuilder)
    ensures r.methods == b.methods + [m] && r.(methods := b.methods) == b
  {
    b.(methods := b.methods + [m])
  }

  /** `with_methods(ms)` */
  function WithMethods(b: ClassBuilder, ms: seq<Function>): (r: ClassBuilder)
    ensures |r.methods| == |b.methods| + |ms| && r.methods[..|b.methods|] == b.methods && r.methods[|b.methods|..] == ms
    ensures r.(methods := b.methods) == b
  {
    b.(methods := b.methods + ms)
  }

  /** `with_attribute(name, type_hint, value)`: the same line `add_attribute`
      writes, with no duplicate check. */
  function WithAttribute(b: ClassBuilder, name: string, typeHint: Option<string>, value: PyValue): (r: ClassBuilder)
    ensures r.(attributes := b.attributes) == b
    ensures |r.attributes| == |b.attributes| + 1 && r.attributes[..|b.attributes|] == b.attributes
  {
    b.(attributes := b.attributes + [name + (if Filled(typeHint).Some? then ": " + typeHint.value else "") +
                                      (if value != NoneValue then " = " + Render(value) else "")])
  }

  /** `with_docstring(d)` */
  function WithClassDocstring(b: ClassBuilder, d: string): (r: ClassBuilder)
    ensures r.docstring == Some(d) && r.(docstring := b.docstring) == b
  {
    b.(docstring := Some(d))
  }

  /** `build()`: an empty name is refused with BuilderError. */
  function BuildClass(b: ClassBuilder): (r: Result<Class, Error>)
    ensures r.Err? <==> b.name == ""
    ensures r.Err? ==> r.error == BuilderError
    ensures r.Ok? ==> r.value == Class(Base(PyNone, true), b.name, b.bases, b.docstring, b.methods, b.attributes)
  {
    if b.name == "" then Err(BuilderError)
    else
      ConstructNone(true);
      NewClass(PyNone, true, b.name, b.bases, b.docstring, b.methods, b.attributes)
  }

  /** `with_base` once per name, in order. */
  function WithBaseEach(b: ClassBuilder, bases: seq<string>): ClassBuilder
    decreases |bases|
  {
    if |bases| == 0 then b else WithBaseEach(WithBase(b, bases[0]), bases[1..])
  }

  /** `with_bases(bs)` is `with_base` once per element. */
  lemma {:induction false} WithBasesIsEach(b: ClassBuilder, bases: seq<string>)
    ensures WithBases(b, bases) == WithBaseEach(b, bases)
    decreases |bases|
  {
    if |bases| > 0 {
      WithBasesIsEach(WithBase(b, bases[0]), bases[1..]);
      assert b.bases + [bases[0]] + bases[1..] == b.bases + bases;
    } else {
      assert b.bases + bases == b.bases;
    }
  }

  /** `with_method` once per method, in order. */
  function WithMethodEach(b: ClassBuilder, ms: seq<Function>): ClassBuilder
    decreases |ms|
  {
    if |ms| == 0 then b else WithMethodEach(WithMethod(b, ms[0]), ms[1..])
  }

  /** `with_methods(ms)` is `with_method` once per element. */
  lemma {:induction false} WithMethodsIsEach(b: ClassBuilder, ms: seq<Function>)
    ensures WithMethods(b, ms) == WithMethodEach(b, ms)
    decreases |ms|
  {
    if |ms| > 0 {
      WithMethodsIsEach(WithMethod(b, ms[0]), ms[1..]);
      assert b.methods + [ms[0]] + ms[1..] == b.methods + ms;
    } else {
      assert b.methods + ms == b.methods;
    }
  }

  /** The builder writes the same attribute line as `add_attribute`, and
      where `add_attribute` accepts the name, building after `with_attribute`
      gives the class `add_attribute` gives. */
  lemma WithAttributeAgreesWithAdd(b: ClassBuilder, name: string, typeHint: Option<string>, value: PyValue)
    requires b.name != ""
    requires name !in b.attributes
    ensures WithAttribute(b, name, typeHint, value).attributes[|b.attributes|] == AttributeText(name, typeHint, value)
    ensures AddAttribute(BuildClass(b).value, name, typeHint, value) == BuildClass(WithAttribute(b, name, typeHint, value))
  {
  }

  /** The builder accepts a bare attribute twice, where `add_attribute`
      refuses the second. */
  lemma BuilderKeepsDuplicateAttributes(cname: string, a: string)
    requires cname != ""
    ensures var b := WithAttribute(NewClassBuilder(cname), a, None, NoneValue);
      |WithAttribute(b, a, None, NoneValue).attributes| == 2 &&
      AddAttribute(BuildClass(b).value, a, None, NoneValue).Err?
  {
    var b := WithAttribute(NewClassBuilder(cname), a, None, NoneValue);
    assert a + "" + "" == a;
    assert b.attributes == [a];
  }

  /** A class built with an identifier name and clean base names renders a
      header that reads back as that name and those bases. */
  lemma BuiltHeaderRoundTrip(b: ClassBuilder)
    requires IsIdentifier(b.name)
    requires forall i :: 0 <= i < |b.bases| ==> CleanBase(b.bases[i])
    ensures BuildClass(b).Ok?
    ensures ParseHeader(ToClassDefinition(BuildClass(b).value)) == Some((b.name, b.bases))
  {
    HeaderRoundTrip(BuildClass(b).value);
  }
}
