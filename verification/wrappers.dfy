/** Option and Result, the failure-compatible wrappers the rest of the model uses
    for Python's `None` and for raised exceptions. */
module Wrappers {

  datatype Option<+T> = None | Some(value: T) {

    predicate IsFailure() {
      None?
    }

    function PropagateFailure<U>(): Option<U>
      requires None?
    {
      None
    }

    function Extract(): T
      requires Some?
    {
      value
    }

    function GetOr(default: T): T {
      match this
      case Some(v) => v
      case None => default
    }
  }

  datatype Result<+R, +E> = Ok(value: R) | Err(error: E) {

    predicate IsFailure() {
      Err?
    }

    function PropagateFailure<U>(): Result<U, E>
      requires Err?
    {
      Err(error)
    }

    function Extract(): R
      requires Ok?
    {
      value
    }
  }

  /** A loop that stops at the first failure: all the values when every
      step succeeded, else the first error. */
  function AllOk<R, E(==)>(rs: seq<Result<R, E>>): (r: Result<seq<R>, E>)
    ensures r.Ok? <==> forall i :: 0 <= i < |rs| ==> rs[i].Ok?
    ensures r.Ok? ==> |r.value| == |rs| && forall i :: 0 <= i < |rs| ==> r.value[i] == rs[i].value
    ensures r.Err? ==> exists i :: 0 <= i < |rs| && rs[i].Err? && rs[i].error == r.error && forall j :: 0 <= j < i ==> rs[j].Ok?
    decreases |rs|
  {
    if |rs| == 0 then Ok([])
    else if rs[0].Err? then Err(rs[0].error)
    else
      match AllOk(rs[1..])
      case Err(e) =>
        assert forall i :: 0 <= i < |rs| - 1 ==> rs[1..][i] == rs[i + 1];
        Err(e)
      case Ok(vs) => Ok([rs[0].value] + vs)
  }
}

/** The exception kinds the modelled code raises, its own and Python's. */
module Errors {

  datatype Error =
    // pydantree.exceptions
    | ValidationError
    | GraphSitterIntegrationError
    | BuilderError
    // Python built-ins raised directly or by the interpreter
    | ValueError
    | RuntimeError
    | IndexError
    | AttributeError
    | NameError
    | TypeError
    | ModuleNotFoundError
    // a required model field that a constructor call does not supply
    | MissingField(field: string)
    // an exception raised by a foreign object's own method and passed through
    | ForeignError
}
