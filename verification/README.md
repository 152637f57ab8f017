# Terminable registry — a Dafny model

This project models the resource registry of the `terminable` library
(`tr.com.infumia.terminable`). The core is `CompositeTerminable.Simple`, a deque of
`AutoCloseable` resources. `with`/`bind` push a resource onto the head. `close` drains
the deque from the head, closes every resource once and keeps going past failures. If
any close failed, it then throws one `CompositeClosingException` carrying all failures
in the order they happened. `closeSpecific` removes and closes the resources equal to
its argument. `reset` prunes Terminables that report `closed()`, after running their
`reset()` hook when they have one. The model also covers the `Terminable` defaults and
the recursive `setup` of `TerminableModuleCollection`.

Modules, one per source concern:

- `Seqs` (`seqs.dfy`): `Reverse`, `Filter` and `Map` over sequences, with their lemmas.
- `Results` (`results.dfy`): `Option` (Java's `Optional`) and `Result` (a constructor
  that either returns or throws).
- `Resources` (`terminable.dfy`): a resource is a value. It has an identity `id`, a
  fixed `close()` outcome (`Succeeds` or `Throws(failure)`), and the flags `terminable`
  and `resettable` in place of `instanceof`. It also has a `closedState`: either the
  inherited default (`closed()` is `false`) or an overriding answer. The overriding
  answer changes to `closedAfterReset` when the `reset()` hook runs.
- `ClosingErrors` (`composite_closing_exception.dfy`): the aggregate error. It stores
  its first cause apart from the rest, so an error without causes cannot be written
  down. It holds its own copy of the causes, so its `causes()` view cannot change
  after construction (see "Left out" for how the source differs).
- `Composite` (`composite_terminable.dfy`): the registry is a `seq<Resource>` whose
  index 0 is the head of the deque. `close`, `closeSpecific` and `reset` are methods
  whose loops follow the source's `poll` loop and `removeIf` scans. Each returns:
  - the registry afterwards;
  - the resources whose `close()` (for `reset`, whose `reset()`) was called, in call
    order;
  - the thrown aggregate, if any.

  Their contracts tie them to reference definitions (`Failures`, `Filter`, `Pruned`),
  and lemmas state the properties of those definitions.
- `ModuleCollections` (`terminable_module_collection.dfy`): a module is either a
  `Bundle` of resources that its `setup` binds in order, or a `Collection` of modules.
  A collection's `setup` goes through `bindModuleWith`, `bindModule` and `setup` for
  each member, as the source does.

Java's `equals` between resources is modelled as equal `id`s, i.e. the same object.
The `reset()` hook changes a resource's state but not its identity, so `closeSpecific`
still finds a resource after a `reset`.

## Model

| member | source | states |
|---|---|---|
| Composite.With | src/main/java/tr/com/infumia/terminable/CompositeTerminable.java:161-166 | the bound resource becomes the head and the rest of the registry is unchanged and in order |
| Composite.Bind | src/main/java/tr/com/infumia/terminable/CompositeTerminable.java:29-34 | `bind(t)` hands back `t` itself and changes the registry exactly as `with(t)` does |
| Composite.BindWith | src/main/java/tr/com/infumia/terminable/Terminable.java:17-21 | `bindWith(consumer)` binds the Terminable itself: it becomes the consumer's head and nothing else changes |
| Composite.WithAll | src/main/java/tr/com/infumia/terminable/CompositeTerminable.java:89-111 | binding `[a, b, c]` leaves `[c, b, a] ++ old`: the arguments reversed, in front of the old registry |
| Composite.WithAllAppend | src/main/java/tr/com/infumia/terminable/CompositeTerminable.java:104-111 | `withAll(a ++ b)` equals `withAll(a)` followed by `withAll(b)`, i.e. repeated `with` in argument order |
| Composite.DrainOrderIsLifo | src/main/java/tr/com/infumia/terminable/CompositeTerminable.java:126-135 | a registry built by binding `cs` holds the resource bound last at the head, so the drain closes `cs` back to front |
| Composite.Failures | src/main/java/tr/com/infumia/terminable/CompositeTerminable.java:129-135 | closing a sequence front to back catches at most one failure per resource |
| Composite.NoFailuresIffAllSucceed | src/main/java/tr/com/infumia/terminable/CompositeTerminable.java:129-136 | nothing is caught exactly when every close succeeds: a failing close is never swallowed |
| Composite.FailuresSnoc | src/main/java/tr/com/infumia/terminable/CompositeTerminable.java:129-135 | closing one more resource appends its failure, if any, after those already caught, so failures keep drain order |
| Composite.Raise | src/main/java/tr/com/infumia/terminable/CompositeTerminable.java:136-138 | an aggregate is thrown exactly when something was caught; its causes are exactly what was caught, so it is never empty and the constructor never refuses |
| Composite.Close | src/main/java/tr/com/infumia/terminable/CompositeTerminable.java:125-139 | `close` calls close on every element exactly once, head first. It leaves the registry empty and throws iff some close failed, with causes equal to the failures in drain order |
| Composite.CloseSilently | src/main/java/tr/com/infumia/terminable/CompositeTerminable.java:39-48 | returns no error iff every close succeeded, and otherwise returns the aggregate `close` throws, with the same causes |
| Composite.CloseUnchecked | src/main/java/tr/com/infumia/terminable/CompositeTerminable.java:50-59 | never throws. It prints nothing iff no close failed, and otherwise prints the aggregate's trace and then one trace per failure in drain order |
| Composite.RemoveAndClose | src/main/java/tr/com/infumia/terminable/CompositeTerminable.java:144-155 | the `removeIf` scan closes exactly the matching elements in order, keeps the others in order, and catches the matching elements' failures in order |
| Composite.CloseSpecificSplits | src/main/java/tr/com/infumia/terminable/CompositeTerminable.java:145-155 | the closed part and the kept part together hold every element exactly once, so no element is lost or closed twice |
| Composite.CloseSpecific | src/main/java/tr/com/infumia/terminable/CompositeTerminable.java:141-159 | closes and removes every element equal to the argument and keeps all others in their order. It throws iff a matching close failed, with causes equal to those failures in scan order |
| Composite.CloseSpecificNoMatch | src/main/java/tr/com/infumia/terminable/CompositeTerminable.java:141-159 | with no element equal to the argument, nothing is closed and the registry is unchanged, so nothing is caught and nothing is thrown |
| Composite.WithUndoneByCloseSpecific | src/main/java/tr/com/infumia/terminable/CompositeTerminable.java:141-166 | binding a resource not yet present and then closing it specifically closes exactly that resource and restores the registry |
| Composite.AfterHook | src/main/java/tr/com/infumia/terminable/CompositeTerminable.java:171-176 | the scan changes a resource only through its hook, keeps its identity, and leaves a resource that is not both Terminable and Reset as it was |
| Composite.Pruned | src/main/java/tr/com/infumia/terminable/CompositeTerminable.java:168-179 | `reset` never makes the registry grow |
| Composite.PrunedLeavesNoClosed | src/main/java/tr/com/infumia/terminable/CompositeTerminable.java:170-178 | after a reset no remaining Terminable reports `closed()` |
| Composite.PrunedIsFilterThenHook | src/main/java/tr/com/infumia/terminable/CompositeTerminable.java:169-179 | `reset` keeps exactly the elements that are not Terminable, or that do not report `closed()` once their hook ran. It keeps them in their original order, each as its hook left it |
| Composite.PrunedKeepsPlain | src/main/java/tr/com/infumia/terminable/CompositeTerminable.java:170-173 | elements that are not Terminable pass through `reset` untouched and in order |
| Composite.PrunedIdempotent | src/main/java/tr/com/infumia/terminable/CompositeTerminable.java:168-179 | under the modelled hook, a second `reset` right after a first one leaves the registry unchanged |
| Composite.Reset | src/main/java/tr/com/infumia/terminable/CompositeTerminable.java:168-179 | `reset` calls the hook exactly on the elements that are both Terminable and Reset, in order. It prunes as `Pruned` says and keeps non-Terminables untouched; it closes nothing and throws no aggregate |
| ClosingErrors.New | src/main/java/tr/com/infumia/terminable/CompositeClosingException.java:30-37 | construction fails with `IllegalState("No causes")` iff the causes are empty; otherwise `causes()` is exactly the given causes in the given order |
| ClosingErrors.NewFromCausesRoundTrip | src/main/java/tr/com/infumia/terminable/CompositeClosingException.java:30-37 | every aggregate is the one the constructor builds from its own causes, so its causes are never empty and determine it |
| ClosingErrors.CompositeClosingError.Causes | src/main/java/tr/com/infumia/terminable/CompositeClosingException.java:23-37 | the causes view is never empty: the first cause, then the rest, in order |
| ClosingErrors.PrintAllStackTraces | src/main/java/tr/com/infumia/terminable/CompositeClosingException.java:43-48 | the visit order is the exception itself first, then each cause once, in order: `[self] ++ causes` |
| Resources.Caught | src/main/java/tr/com/infumia/terminable/CompositeTerminable.java:130-134 | a `try { close } catch` catches nothing iff close succeeds, and otherwise exactly the thrown failure |
| Resources.Closed | src/main/java/tr/com/infumia/terminable/Terminable.java:45-52 | a Terminable that keeps the default `closed()` reports `false`, so `reset` never prunes it |
| Resources.ResetHook | src/main/java/tr/com/infumia/terminable/Reset.java:6-10 | the hook keeps the resource's identity, close outcome and capabilities; a Terminable reports `closed()` after the hook iff its overriding `closed()` says so |
| Resources.CloseSilently | src/main/java/tr/com/infumia/terminable/Terminable.java:23-36 | returns empty exactly when close succeeds, and otherwise the very failure close threw |
| Resources.CloseUnchecked | src/main/java/tr/com/infumia/terminable/Terminable.java:38-43 | never throws; prints nothing iff `closeSilently` is empty, and otherwise prints exactly that failure |
| Resources.SameResourceIsEquivalence | src/main/java/tr/com/infumia/terminable/CompositeTerminable.java:146 | the `equals` test used by `closeSpecific` is reflexive, symmetric and transitive, and a `reset()` hook does not change what a resource equals |
| ModuleCollections.Base | src/main/java/tr/com/infumia/terminable/TerminableModuleCollection.java:44-46 | the varargs constructor's collection binds exactly the arguments' resources, in argument order |
| ModuleCollections.Setup | src/main/java/tr/com/infumia/terminable/TerminableModuleCollection.java:22-27 | `setup` grows the registry by exactly as many resources as the module binds and leaves the old registry untouched underneath |
| ModuleCollections.SetupEach | src/main/java/tr/com/infumia/terminable/TerminableModuleCollection.java:24-26 | the member loop grows the registry by exactly the members' resources and leaves the old registry untouched underneath |
| ModuleCollections.BindModuleWith | src/main/java/tr/com/infumia/terminable/TerminableModule.java:14-16 | `bindModuleWith(consumer)` has the same effect as the module's `setup` on that consumer, growing it by exactly the module's resources |
| ModuleCollections.BindModule | src/main/java/tr/com/infumia/terminable/TerminableConsumer.java:35-42 | `bindModule(m)` hands back `m` itself and leaves the registry as `m.setup` does |
| ModuleCollections.SetupIsReversedFlatten | src/main/java/tr/com/infumia/terminable/TerminableModuleCollection.java:22-27 | setting up a module leaves `reverse(flattened resources) ++ old`; nested collections flatten depth first through `bindModuleWith` → `bindModule` → `setup` |
| ModuleCollections.SetupEachIsReversedFlatten | src/main/java/tr/com/infumia/terminable/TerminableModuleCollection.java:24-26 | the member loop binds the members' flattened resources in list order |
| ModuleCollections.SetupEachAppend | src/main/java/tr/com/infumia/terminable/TerminableModuleCollection.java:24-26 | the members are visited once each in list order: setting up `a ++ b` is setting up `a`, then `b` |
| ModuleCollections.SetupBindsNothingIff | src/main/java/tr/com/infumia/terminable/TerminableModuleCollection.java:23-27 | setup leaves the registry unchanged iff the module binds no resource; in particular a collection with no modules binds nothing |
| ModuleCollections.BaseKeepsArgumentOrder | src/main/java/tr/com/infumia/terminable/TerminableModuleCollection.java:44-46 | a collection built from varargs modules binds their resources in argument order |

## Left out

- Concurrency of `ConcurrentLinkedDeque`: the model has no weakly consistent `removeIf` and no `with` racing a drain. Each operation is one atomic step on a sequence.
- The exception message `"Exception(s) occurred whilst closing: " + causes` and the printing of stack traces. These are string formatting and I/O. Printing is modelled only as the order in which traces are visited.
- Runtime `instanceof` dispatch: it is replaced by the `terminable` and `resettable` flags on each resource.
- A nested `CompositeTerminable` used as a resource: it is an opaque resource whose close outcome is given, and its own `reset`/`closed` are not unfolded.
- A resource's `close()` is modelled as one fixed outcome. Side effects of closing beyond success or one failure are not modelled.
- Resources.ResetHook: the hook's only modelled effect is on what `closed()` answers next. That answer becomes the resource's fixed `closedAfterReset`, so running the hook twice is the same as running it once; arbitrary side effects of a `reset()` hook are not modelled.
- Composite.PrunedIdempotent: holds only because the modelled hook is idempotent. In the source a second `reset()` calls every surviving Terminable+Reset hook again, and an arbitrary hook may change what `closed()` answers, so the source makes no such promise.
- Composite.Reset: the `reset()` hook and `closed()` are modelled as never throwing. The source has no try/catch around them (CompositeTerminable.java:175,177), so an unchecked exception from either escapes `removeIf` partway through the scan, leaving the registry partly pruned.
- Only `Exception` failures of `close()` are modelled. `close`, `closeSpecific` and `Terminable.closeSilently` catch `Exception` only (CompositeTerminable.java:132,150; Terminable.java:33). A `java.lang.Error` escapes the loop, stops the pass, leaves the remaining resources registered and loses what was caught. `Failure` cannot express such an `Error`, so `Close` promises an empty registry.
- ClosingErrors.CompositeClosingError.Causes: the model stores a copy of the causes. The source stores `Collections.unmodifiableCollection(causes)` (CompositeClosingException.java:37), a live view of the caller's collection, so a caller that clears its collection later empties `causes()` after the emptiness check passed. Inside the registry this cannot happen: `caught` is a local that is not touched after the throw (CompositeTerminable.java:127,137).
- Cyclic module graphs: `TerminableModule` is an inductive datatype, so a collection cannot contain itself. In Java a `TerminableModuleCollection` whose `modules()` reaches itself is possible (any implementation of the interface, or a `Base` whose varargs array behind `Arrays.asList` is later made to point back at it). Its `setup` recurses through `bindModuleWith`, `bindModule` and `setup` until a `StackOverflowError`. Termination of `Setup` holds for the model only.
- `equals`: two resources are equal iff they have the same `id`. Resource classes that override `equals` with value equality are not modelled separately.
- The `catch (final Exception e)` branch of `CompositeTerminable.closeUnchecked` (CompositeTerminable.java:56-57). `close` in the model can only throw the aggregate, so that branch is unreachable.
- A module's `setup` is arbitrary code. It is modelled as a fixed list of resources bound in order (`Bundle`), or as a collection.
- Java generics, Lombok and JetBrains annotations, and the `null` rejection of `List.of` in `withAll(varargs)`.
- `build.gradle.kts`: build and publishing configuration.
