/**
  `CompositeTerminable.Simple`: a registry of pending resources. Resources
  are pushed onto the head of a deque; closing drains the deque from the head,
  so the most recently bound resource is closed first. A close pass never
  stops at a failing resource: it collects every failure, in order, and
  reports them together as one `CompositeClosingError`.

  Each operation is modelled as one atomic step on a sequence: the registry
  before, the registry after, the resources whose `close()` (or `reset()`)
  was called, in call order, and the error thrown, if any.
 */
module Composite {
  import opened Seqs
  import opened Results
  import opened Resources
  import opened ClosingErrors

  /** The pending resources; index 0 is the head of the deque. */
  type Registry = seq<Resource>

  // ---------------------------------------------------------------------------
  // Binding
  // ---------------------------------------------------------------------------

  /** `with(c)`: `c` becomes the head; the rest of the registry is untouched. */
  function With(reg: Registry, c: Resource): (r: Registry)
    ensures |r| == |reg| + 1
    ensures r[0] == c && r[1..] == reg
  {
    [c] + reg
  }

  /** A registry together with the value a fluent call hands back. */
  datatype Bound = Bound(registry: Registry, returned: Resource)

  /** `bind(t)`: the effect of `with(t)`, returning `t` itself. */
  function Bind(reg: Registry, t: Resource): (b: Bound)
    ensures b.returned == t
    ensures b.registry == With(reg, t)
  {
    Bound(With(reg, t), t)
  }

  /** `Terminable.bindWith(consumer)` with the registry as the consumer. */
  function BindWith(t: Resource, reg: Registry): (r: Registry)
    requires t.terminable
    ensures |r| == |reg| + 1
    ensures r[0] == t && r[1..] == reg
  {
    Bind(reg, t).registry
  }

  /**
    `withAll(closeables)`: `with` applied to each argument in turn, so the
    last argument ends up at the head.
   */
  function WithAll(reg: Registry, cs: seq<Resource>): (r: Registry)
    ensures r == Reverse(cs) + reg
    decreases |cs|
  {
    if |cs| == 0 then reg
    else
      var rest := Reverse(cs[1..]);
      assert Reverse(cs) == rest + [cs[0]];
      assert (rest + [cs[0]]) + reg == rest + ([cs[0]] + reg);
      WithAll(With(reg, cs[0]), cs[1..])
  }

  /** Binding `a ++ b` at once is binding `a`, then binding `b`. */
  lemma {:induction false} WithAllAppend(reg: Registry, a: seq<Resource>, b: seq<Resource>)
    ensures WithAll(reg, a + b) == WithAll(WithAll(reg, a), b)
  {
    ReverseAppend(a, b);
  }

  /**
    Draining a registry built by binding `cs` visits `cs` backwards: the
    resource bound last is closed first.
   */
  lemma {:induction false} DrainOrderIsLifo(cs: seq<Resource>)
    ensures |WithAll([], cs)| == |cs|
    ensures forall i :: 0 <= i < |cs| ==> WithAll([], cs)[i] == cs[|cs| - 1 - i]
  {
    assert WithAll([], cs) == Reverse(cs) + [];
    ReverseIndex(cs);
  }

  // ---------------------------------------------------------------------------
  // Failures and the aggregate error
  // ---------------------------------------------------------------------------

  /** The exceptions thrown when closing `rs` front to back, in that order. */
  function Failures(rs: seq<Resource>): (fs: seq<Failure>)
    ensures |fs| <= |rs|
  {
    if |rs| == 0 then [] else Caught(rs[0]) + Failures(rs[1..])
  }

  /** Nothing is caught exactly when every close succeeds. */
  lemma {:induction false} NoFailuresIffAllSucceed(rs: seq<Resource>)
    ensures Failures(rs) == [] <==> forall i :: 0 <= i < |rs| ==> rs[i].closeOutcome.Succeeds?
  {
    if |rs| > 0 {
      NoFailuresIffAllSucceed(rs[1..]);
      assert forall i :: 1 <= i < |rs| ==> rs[i] == rs[1..][i - 1];
    }
  }

  lemma {:induction false} FailuresAppend(a: seq<Resource>, b: seq<Resource>)
    ensures Failures(a + b) == Failures(a) + Failures(b)
  {
    if |a| == 0 {
      assert a + b == b;
    } else {
      assert (a + b)[1..] == a[1..] + b;
      FailuresAppend(a[1..], b);
    }
  }

  /** Closing one more resource catches its failure, if any, last. */
  lemma FailuresSnoc(rs: seq<Resource>, c: Resource)
    ensures Failures(rs + [c]) == Failures(rs) + Caught(c)
  {
    FailuresAppend(rs, [c]);
  }

  /**
    The end of a close pass: throw an aggregate of what was caught, but only
    if something was. The aggregate's constructor never refuses here.
   */
  function Raise(caught: seq<Failure>): (thrown: Option<CompositeClosingError>)
    ensures thrown.None? <==> caught == []
    ensures thrown.Some? ==> thrown.value.Causes() == caught
  {
    if caught == [] then None else Some(New(caught).value)
  }

  // ---------------------------------------------------------------------------
  // close
  // ---------------------------------------------------------------------------

  /**
    `close()`: polls the head until the deque is empty, closing each resource
    once and catching its failure; afterwards throws the aggregate if anything
    failed.
   */
  method Close(reg: Registry) returns (after: Registry, closed: seq<Resource>, thrown: Option<CompositeClosingError>)
    ensures after == []
    ensures closed == reg
    ensures thrown.None? <==> forall i :: 0 <= i < |reg| ==> reg[i].closeOutcome.Succeeds?
    ensures thrown.Some? ==> thrown.value.Causes() == Failures(reg)
  {
    var pending := reg;
    var caught: seq<Failure> := [];
    closed := [];
    while pending != []
      invariant |closed| <= |reg|
      invariant closed == reg[..|closed|] && pending == reg[|closed|..]
      invariant caught == Failures(closed)
      decreases |pending|
    {
      var ac := pending[0];
      assert reg[..|closed| + 1] == closed + [ac];
      pending := pending[1..];
      FailuresSnoc(closed, ac);
      closed := closed + [ac];
      caught := caught + Caught(ac);
    }
    assert closed == reg;
    after := pending;
    NoFailuresIffAllSucceed(reg);
    thrown := Raise(caught);
  }

  /**
    `closeSilently()`: the same pass as `close()`, with the aggregate handed
    back instead of thrown.
   */
  method CloseSilently(reg: Registry) returns (after: Registry, closed: seq<Resource>, error: Option<CompositeClosingError>)
    ensures after == [] && closed == reg
    ensures error.None? <==> Failures(reg) == []
    ensures error.Some? ==> error.value.Causes() == Failures(reg)
  {
    after, closed, error := Close(reg);
    NoFailuresIffAllSucceed(reg);
  }

  /**
    `closeUnchecked()`: the same pass as `close()`; a thrown aggregate is
    caught and all its stack traces are printed, so nothing escapes.
   */
  method CloseUnchecked(reg: Registry) returns (after: Registry, closed: seq<Resource>, printed: seq<StackTrace>)
    ensures after == [] && closed == reg
    ensures printed == [] <==> Failures(reg) == []
    ensures printed != [] ==> |printed| == |Failures(reg)| + 1
    ensures printed != [] ==> printed[0].OwnTrace? && printed[0].error.Causes() == Failures(reg)
    ensures printed != [] ==>
      forall i :: 0 <= i < |Failures(reg)| ==> printed[i + 1] == CauseTrace(Failures(reg)[i])
  {
    var thrown;
    after, closed, thrown := Close(reg);
    NoFailuresIffAllSucceed(reg);
    match thrown
    case None =>
      printed := [];
    case Some(e) =>
      printed := PrintAllStackTraces(e);
  }

  // ---------------------------------------------------------------------------
  // closeSpecific
  // ---------------------------------------------------------------------------

  /** The resources `closeSpecific(target)` takes out. */
  function Matches(target: Resource): Resource -> bool {
    c => SameResource(c, target)
  }

  /** The resources `closeSpecific(target)` leaves in place. */
  function Others(target: Resource): Resource -> bool {
    c => !SameResource(c, target)
  }

  /**
    What one `closeSpecific(target)` pass splits the registry into: the
    closed part and the kept part together hold every resource exactly once.
   */
  lemma CloseSpecificSplits(reg: Registry, target: Resource)
    ensures multiset(Filter(reg, Matches(target))) + multiset(Filter(reg, Others(target))) == multiset(reg)
    ensures |Filter(reg, Matches(target))| + |Filter(reg, Others(target))| == |reg|
  {
    FilterPartition(reg, Matches(target), Others(target));
  }

  /**
    `closeSpecific` of a resource that is not in the registry closes nothing
    and keeps everything, so it throws nothing.
   */
  lemma {:induction false} CloseSpecificNoMatch(reg: Registry, target: Resource)
    requires forall i :: 0 <= i < |reg| ==> !SameResource(reg[i], target)
    ensures Filter(reg, Others(target)) == reg
    ensures Filter(reg, Matches(target)) == []
  {
    FilterKeepsAll(reg, Others(target));
    FilterKeepsNone(reg, Matches(target));
  }

  /** The `removeIf` scan moving one element further. */
  lemma ScanStep(reg: Registry, i: nat, target: Resource)
    requires i < |reg|
    ensures Filter(reg[..i + 1], Matches(target)) ==
      Filter(reg[..i], Matches(target)) + (if SameResource(reg[i], target) then [reg[i]] else [])
    ensures Filter(reg[..i + 1], Others(target)) ==
      Filter(reg[..i], Others(target)) + (if SameResource(reg[i], target) then [] else [reg[i]])
  {
    FilterStep(reg, i, Matches(target));
    FilterStep(reg, i, Others(target));
  }

  /**
    The `removeIf` scan of `closeSpecific(target)`: head to tail, every
    resource equal to `target` is closed (its failure caught) and removed.
   */
  method RemoveAndClose(reg: Registry, target: Resource)
    returns (kept: Registry, closed: seq<Resource>, caught: seq<Failure>)
    ensures closed == Filter(reg, Matches(target))
    ensures kept == Filter(reg, Others(target))
    ensures caught == Failures(closed)
  {
    caught, kept, closed := [], [], [];
    var i := 0;
    while i < |reg|
      invariant 0 <= i <= |reg|
      invariant closed == Filter(reg[..i], Matches(target))
      invariant kept == Filter(reg[..i], Others(target))
      invariant caught == Failures(closed)
    {
      var c := reg[i];
      ScanStep(reg, i, target);
      if SameResource(c, target) {
        FailuresSnoc(closed, c);
        closed := closed + [c];
        caught := caught + Caught(c);
      } else {
        kept := kept + [c];
      }
      i := i + 1;
    }
    assert reg[..i] == reg;
  }

  /**
    `closeSpecific(target)`: removes and closes every resource equal to
    `target`, leaving the others in order, and throws the aggregate of the
    failures if any close failed.
   */
  method CloseSpecific(reg: Registry, target: Resource)
    returns (after: Registry, closed: seq<Resource>, thrown: Option<CompositeClosingError>)
    ensures closed == Filter(reg, Matches(target))
    ensures after == Filter(reg, Others(target))
    ensures forall c :: c in closed ==> SameResource(c, target)
    ensures forall c :: c in after ==> !SameResource(c, target)
    ensures thrown.None? <==> Failures(closed) == []
    ensures thrown.Some? ==> thrown.value.Causes() == Failures(closed)
  {
    var caught;
    after, closed, caught := RemoveAndClose(reg, target);
    forall c | c in closed
      ensures SameResource(c, target)
    {
      FilterMembership(reg, Matches(target), c);
    }
    forall c | c in after
      ensures !SameResource(c, target)
    {
      FilterMembership(reg, Others(target), c);
    }
    thrown := Raise(caught);
  }

  /**
    `closeSpecific` undoes `with`: binding a resource that was not yet in the
    registry and then closing it specifically closes exactly that resource
    and restores the registry.
   */
  lemma WithUndoneByCloseSpecific(reg: Registry, c: Resource)
    requires forall i :: 0 <= i < |reg| ==> !SameResource(reg[i], c)
    ensures Filter(With(reg, c), Matches(c)) == [c]
    ensures Filter(With(reg, c), Others(c)) == reg
  {
    assert With(reg, c)[1..] == reg;
    CloseSpecificNoMatch(reg, c);
  }

  // ---------------------------------------------------------------------------
  // reset
  // ---------------------------------------------------------------------------

  /** `reset()` calls the hook of resources that are both Terminable and Reset. */
  predicate RunsHook(c: Resource) {
    c.terminable && c.resettable
  }

  /** A resource as the scan leaves it: hooked if the hook runs, else as it was. */
  function AfterHook(c: Resource): (h: Resource)
    ensures h.id == c.id
    ensures !RunsHook(c) ==> h == c
  {
    if RunsHook(c) then ResetHook(c) else c
  }

  /** A Terminable reporting `closed()` once its hook has run is pruned. */
  predicate Prunable(c: Resource) {
    c.terminable && Closed(AfterHook(c))
  }

  predicate Survives(c: Resource) {
    !Prunable(c)
  }

  /** A resource `reset()` cannot see as Terminable. */
  predicate IsPlain(c: Resource) {
    !c.terminable
  }

  /** The registry after a `reset()` scan. */
  function Pruned(reg: Registry): (r: Registry)
    ensures |r| <= |reg|
  {
    if |reg| == 0 then []
    else (if Prunable(reg[0]) then [] else [AfterHook(reg[0])]) + Pruned(reg[1..])
  }

  /** No Terminable left behind by `reset()` reports `closed()`. */
  lemma {:induction false} PrunedLeavesNoClosed(reg: Registry)
    ensures forall i :: 0 <= i < |Pruned(reg)| && Pruned(reg)[i].terminable ==> !Closed(Pruned(reg)[i])
  {
    if |reg| > 0 {
      PrunedLeavesNoClosed(reg[1..]);
    }
  }

  lemma {:induction false} PrunedAppend(a: Registry, b: Registry)
    ensures Pruned(a + b) == Pruned(a) + Pruned(b)
  {
    if |a| == 0 {
      assert a + b == b;
    } else {
      assert (a + b)[1..] == a[1..] + b;
      PrunedAppend(a[1..], b);
    }
  }

  /** Scanning one element further. */
  lemma PrunedStep(reg: Registry, i: nat)
    requires i < |reg|
    ensures Pruned(reg[..i + 1]) == Pruned(reg[..i]) + (if Prunable(reg[i]) then [] else [AfterHook(reg[i])])
  {
    assert reg[..i + 1] == reg[..i] + [reg[i]];
    PrunedAppend(reg[..i], [reg[i]]);
  }

  /**
    `reset()` keeps exactly the resources that survive, in their original
    order, each as its hook left it.
   */
  lemma {:induction false} PrunedIsFilterThenHook(reg: Registry)
    ensures Pruned(reg) == Map(Filter(reg, Survives), AfterHook)
  {
    if |reg| > 0 {
      PrunedIsFilterThenHook(reg[1..]);
    }
  }

  /** Resources that are not Terminable come through `reset()` untouched and in order. */
  lemma {:induction false} PrunedKeepsPlain(reg: Registry)
    ensures Filter(Pruned(reg), IsPlain) == Filter(reg, IsPlain)
  {
    if |reg| > 0 {
      var c := reg[0];
      PrunedKeepsPlain(reg[1..]);
      var head := if Prunable(c) then [] else [AfterHook(c)];
      FilterAppend(head, Pruned(reg[1..]), IsPlain);
    }
  }

  /** A second `reset()` right after the first changes nothing. */
  lemma {:induction false} PrunedIdempotent(reg: Registry)
    ensures Pruned(Pruned(reg)) == Pruned(reg)
  {
    if |reg| > 0 {
      var c := reg[0];
      var head := if Prunable(c) then [] else [AfterHook(c)];
      PrunedIdempotent(reg[1..]);
      PrunedAppend(head, Pruned(reg[1..]));
      if !Prunable(c) && RunsHook(c) {
        ResetHookIdempotent(c);
      }
    }
  }

  /**
    `reset()`: one scan head to tail. A non-Terminable resource is kept and
    its hook is not called; a Terminable one has its `reset()` hook called if
    it is also Reset, and is then removed if it reports `closed()`. Nothing is
    closed and nothing is thrown.
   */
  method Reset(reg: Registry) returns (after: Registry, hooked: seq<Resource>)
    ensures after == Pruned(reg)
    ensures hooked == Filter(reg, RunsHook)
    ensures Filter(after, IsPlain) == Filter(reg, IsPlain)
    ensures forall i :: 0 <= i < |after| && after[i].terminable ==> !Closed(after[i])
  {
    after, hooked := [], [];
    var i := 0;
    while i < |reg|
      invariant 0 <= i <= |reg|
      invariant after == Pruned(reg[..i])
      invariant hooked == Filter(reg[..i], RunsHook)
    {
      var c := reg[i];
      PrunedStep(reg, i);
      FilterStep(reg, i, RunsHook);
      if c.terminable {
        if c.resettable {
          hooked := hooked + [c];
          c := ResetHook(c);
        }
        if !Closed(c) {
          after := after + [c];
        }
      } else {
        after := after + [c];
      }
      i := i + 1;
    }
    assert reg[..i] == reg;
    PrunedKeepsPlain(reg);
    PrunedLeavesNoClosed(reg);
  }
}
