/**
  The resources a registry holds: anything closeable (`AutoCloseable`), of
  which some are also `Terminable` (they can report `closed()`) and some also
  implement `Reset` (they have a `reset()` hook).

  Java's runtime `instanceof` checks become explicit capability flags, and a
  resource's `close()` becomes a fixed outcome: it either returns or throws
  one particular failure.
 */
module Resources {
  import opened Results

  /** An exception thrown by one resource's `close()`. */
  datatype Failure = Failure(code: nat)

  /** What calling `close()` on a resource does. */
  datatype CloseOutcome = Succeeds | Throws(failure: Failure)

  /**
    What `closed()` answers. `DefaultClosed` is a Terminable that keeps the
    interface's default; `Overridden` tracks the answer it gives now and the
    answer it gives once its `reset()` hook has run.
   */
  datatype ClosedState = DefaultClosed | Overridden(closed: bool, closedAfterReset: bool)

  /**
    A closeable resource. `id` is its identity: two values with the same `id`
    are the same object, which is what `equals` compares.
   */
  datatype Resource = Resource(
    id: nat,
    closeOutcome: CloseOutcome,
    terminable: bool,
    resettable: bool,
    closedState: ClosedState)

  /** Java's `a.equals(b)` on two resources. */
  predicate SameResource(a: Resource, b: Resource) {
    a.id == b.id
  }

  /**
    `SameResource` keeps the `equals` contract: reflexive, symmetric and
    transitive, and a `reset()` hook does not change what a resource equals.
   */
  lemma SameResourceIsEquivalence(a: Resource, b: Resource, c: Resource)
    ensures SameResource(a, a)
    ensures SameResource(a, b) ==> SameResource(b, a)
    ensures SameResource(a, b) && SameResource(b, c) ==> SameResource(a, c)
    ensures a.resettable ==> (SameResource(ResetHook(a), b) <==> SameResource(a, b))
  {
  }

  /**
    The exceptions a `try { r.close(); } catch (Exception e) { ... }` block
    catches: none, or the one `close()` threw.
   */
  function Caught(r: Resource): (caught: seq<Failure>)
    ensures |caught| <= 1
    ensures caught == [] <==> r.closeOutcome.Succeeds?
    ensures r.closeOutcome.Throws? ==> caught == [r.closeOutcome.failure]
  {
    match r.closeOutcome
    case Succeeds => []
    case Throws(e) => [e]
  }

  /** `Terminable.closed()`: only a Terminable can be asked. */
  function Closed(r: Resource): (closed: bool)
    requires r.terminable
    ensures r.closedState.DefaultClosed? ==> !closed
    ensures closed ==> r.closedState == Overridden(true, r.closedState.closedAfterReset)
  {
    match r.closedState
    case DefaultClosed => false
    case Overridden(c, _) => c
  }

  /**
    `Reset.reset()`: the hook may change what `closed()` reports, and nothing
    else about the resource.
   */
  function ResetHook(r: Resource): (after: Resource)
    requires r.resettable
    ensures after.id == r.id && after.closeOutcome == r.closeOutcome
    ensures after.terminable == r.terminable && after.resettable
    ensures after.closedState.DefaultClosed? == r.closedState.DefaultClosed?
    ensures r.terminable ==> (Closed(after) <==> r.closedState.Overridden? && r.closedState.closedAfterReset)
  {
    match r.closedState
    case DefaultClosed => r
    case Overridden(_, a) => r.(closedState := Overridden(a, a))
  }

  /** Running the hook a second time changes nothing more. */
  lemma ResetHookIdempotent(r: Resource)
    requires r.resettable
    ensures ResetHook(ResetHook(r)) == ResetHook(r)
  {
  }

  /**
    `Terminable.closeSilently()`: closes the resource and hands back the
    exception instead of throwing it.
   */
  function CloseSilently(r: Resource): (thrown: Option<Failure>)
    requires r.terminable
    ensures thrown.None? <==> r.closeOutcome.Succeeds?
    ensures thrown.Some? ==> r.closeOutcome == Throws(thrown.value)
  {
    if Caught(r) == [] then None else Some(Caught(r)[0])
  }

  /**
    `Terminable.closeUnchecked()`: closes the resource and never throws; the
    result lists the exceptions whose stack trace gets printed.
   */
  function CloseUnchecked(r: Resource): (printed: seq<Failure>)
    requires r.terminable
    ensures printed == [] <==> CloseSilently(r).None?
    ensures CloseSilently(r).Some? ==> printed == [CloseSilently(r).value]
  {
    match CloseSilently(r)
    case None => []
    case Some(e) => [e]
  }
}
