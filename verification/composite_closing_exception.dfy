/**
  `CompositeClosingException`: the one error a registry lets out of a close
  pass. It carries every failure the pass caught, in the order caught, and it
  cannot exist without at least one of them.
 */
module ClosingErrors {
  import opened Results
  import opened Resources

  /**
    An aggregate error. Storing the first cause apart from the rest makes an
    error with no causes unrepresentable; being an immutable value, it offers
    no way to change its causes once built.
   */
  datatype CompositeClosingError = CompositeClosingError(first: Failure, rest: seq<Failure>) {

    /** The `causes()` view, in the order the failures were given. */
    function Causes(): (causes: seq<Failure>)
      ensures |causes| == |rest| + 1
      ensures causes[0] == first && causes[1..] == rest
    {
      [first] + rest
    }
  }

  /** The `IllegalStateException` the constructor throws. */
  datatype ConstructionError = IllegalState(message: string)

  /** The constructor: refuses an empty collection of causes. */
  function New(causes: seq<Failure>): (r: Result<CompositeClosingError, ConstructionError>)
    ensures r.Err? <==> causes == []
    ensures r.Err? ==> r.error == IllegalState("No causes")
    ensures r.Ok? ==> r.value.Causes() == causes
  {
    if causes == [] then Err(IllegalState("No causes"))
    else Ok(CompositeClosingError(causes[0], causes[1..]))
  }

  /**
    Every error is exactly the one the constructor builds from its own
    causes, so the causes determine the error.
   */
  lemma {:induction false} NewFromCausesRoundTrip(e: CompositeClosingError)
    ensures New(e.Causes()) == Ok(e)
  {
    var cs := e.Causes();
    assert cs[0] == e.first && cs[1..] == e.rest;
  }

  /** One stack trace printed by `printAllStackTraces`. */
  datatype StackTrace = OwnTrace(error: CompositeClosingError) | CauseTrace(cause: Failure)

  /**
    `printAllStackTraces`: the error's own trace first, then one trace per
    cause, each cause once and in order. The printing itself is not modelled;
    the result is the order of the traces.
   */
  method PrintAllStackTraces(e: CompositeClosingError) returns (printed: seq<StackTrace>)
    ensures |printed| == |e.Causes()| + 1
    ensures printed[0] == OwnTrace(e)
    ensures forall i :: 0 <= i < |e.Causes()| ==> printed[i + 1] == CauseTrace(e.Causes()[i])
  {
    var causes := e.Causes();
    printed := [OwnTrace(e)];
    var i := 0;
    while i < |causes|
      invariant 0 <= i <= |causes|
      invariant |printed| == i + 1
      invariant printed[0] == OwnTrace(e)
      invariant forall j :: 0 <= j < i ==> printed[j + 1] == CauseTrace(causes[j])
    {
      printed := printed + [CauseTrace(causes[i])];
      i := i + 1;
    }
  }
}
