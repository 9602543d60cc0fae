/** core/parameters.py: one function parameter. */
module Parameters {
  import opened Wrappers
  import opened CodeBase
  import opened PyStrings

  datatype Parameter = Parameter(name: string, typeHint: Option<string>, default: PyValue, isRequired: bool)

  /** `PyParameter(...)` with its `model_post_init`: any default other than
      `None` (including `0`, `False` and `""`) makes the parameter optional;
      the hook only ever clears the flag. */
  function NewParameter(name: string, typeHint: Option<string>, default: PyValue, isRequired: bool): (p: Parameter)
    ensures p.name == name && p.typeHint == typeHint && p.default == default
    ensures default != NoneValue ==> !p.isRequired
    ensures default == NoneValue ==> p.isRequired == isRequired
    ensures p.isRequired ==> isRequired
  {
    Parameter(name, typeHint, default, if default != NoneValue then false else isRequired)
  }

  /** Running the post-init hook again on its own result changes nothing. */
  lemma PostInitIdempotent(name: string, typeHint: Option<string>, default: PyValue, isRequired: bool)
    ensures var p := NewParameter(name, typeHint, default, isRequired);
      NewParameter(p.name, p.typeHint, p.default, p.isRequired) == p
  {
  }

  /** The rendered default, when the default is not `None`. */
  function DefaultText(v: PyValue): (r: Option<string>)
    ensures r.None? <==> v == NoneValue
  {
    if v == NoneValue then None else Some(Render(v))
  }

  /** `to_source()`: `name[: hint][ = default]`. */
  function ParamSource(p: Parameter): (r: string)
    ensures StartsWith(r, p.name)
    ensures r == p.name <==> Filled(p.typeHint).None? && p.default == NoneValue
  {
    Declaration(p.name, p.typeHint, DefaultText(p.default))
  }

  /** The rendered parameter reads back as its name, its hint when truthy and
      its default's text when the default is not `None`. */
  lemma ParamSourceRoundTrip(p: Parameter)
    requires forall i :: 0 <= i < |p.name| ==> !IsStop(p.name[i])
    requires p.typeHint.Some? ==> '=' !in p.typeHint.value
    ensures ReadDeclaration(ParamSource(p)) == (p.name, Filled(p.typeHint), DefaultText(p.default))
  {
    DeclarationRoundTrip(p.name, p.typeHint, DefaultText(p.default));
  }

  /** A default of `0` counts as present: it is rendered and it makes the
      parameter optional. */
  lemma ZeroDefault(name: string)
    ensures !NewParameter(name, None, Int(0), true).isRequired
    ensures ParamSource(NewParameter(name, None, Int(0), true)) == name + " = 0"
  {
    assert Render(Int(0)) == "0";
  }
}
