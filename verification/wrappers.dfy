/** Failure-compatible wrappers and the error taxonomy of the controller.
    Every exception class the core raises becomes one constructor of `Error`. */
module Wrappers {

  /** The exceptions raised by the core (the controller's Exceptions module),
      plus the `KeyError` of a `dict.pop` on a missing key. ConfigurationNotFound
      is raised by a lookup of an unset configuration option; NameError by an
      exception handler naming an exception class its module never imported;
      AttributeError by asking a host for a switch-only attribute. */
  datatype Error =
    | DeviceNotFound
    | DomainNotFound
    | NextHopNotFound
    | LinkNotFound
    | EntryNotFound
    | TableNotFound
    | TableManagerNotFound
    | EventNotFound
    | HandlerNotFound
    | KeyError
    | ConfigurationNotFound
    | NameError
    | AttributeError

  datatype Option<+T> = None | Some(value: T) {
    function GetOr(default: T): T {
      match this
      case Some(v) => v
      case None => default
    }
  }

  /** A computation that either returns a value or raises one of the core's errors. */
  datatype Result<+T> = Ok(value: T) | Err(error: Error) {
    predicate IsFailure() {
      Err?
    }

    function PropagateFailure<U>(): Result<U>
      requires Err?
    {
      Err(error)
    }

    function Extract(): T
      requires Ok?
    {
      value
    }
  }

  /** A loop that computes one value per item and stops at the first failure. */
  function MapResult<X, Y>(f: X -> Result<Y>, xs: seq<X>): (r: Result<seq<Y>>)
    ensures r.Ok? <==> forall i :: 0 <= i < |xs| ==> f(xs[i]).Ok?
    ensures r.Ok? ==> |r.value| == |xs| && forall i :: 0 <= i < |xs| ==> r.value[i] == f(xs[i]).value
    ensures r.Err? ==> exists i :: 0 <= i < |xs| && f(xs[i]) == Err(r.error) && forall j :: 0 <= j < i ==> f(xs[j]).Ok?
  {
    if xs == [] then Ok([])
    else
      assert forall i :: 1 <= i < |xs| ==> xs[i] == xs[1..][i - 1];
      var first :- f(xs[0]);
      var rest :- MapResult(f, xs[1..]);
      Ok([first] + rest)
  }
}
