/**
  `TerminableModule` and `TerminableModuleCollection`, with a registry as the
  consumer. A module is a deferred batch of `bind` calls; a collection is a
  module whose `setup` registers each member module in list order, through
  `bindModuleWith` -> `bindModule` -> `setup`, so nested collections unfold
  depth first.
 */
module ModuleCollections {
  import opened Seqs
  import opened Resources
  import opened Composite

  /**
    A module: either a plain module whose `setup` binds the given resources
    in order, or a collection of member modules.
   */
  datatype TerminableModule =
    | Bundle(binds: seq<Resource>)
    | Collection(modules: seq<TerminableModule>)

  /**
    `TerminableModuleCollection.Base(modules...)`: the collection of the
    given modules, in argument order.
   */
  function Base(modules: seq<TerminableModule>): (c: TerminableModule)
    ensures Flatten(c) == FlattenEach(modules)
  {
    Collection(modules)
  }

  /**
    `setup(consumer)`: the registry grows by exactly the module's resources,
    and the old registry stays underneath, untouched.
   */
  function Setup(m: TerminableModule, reg: Registry): (r: Registry)
    ensures |r| == |reg| + |Flatten(m)|
    ensures r[|Flatten(m)|..] == reg
    decreases m, 1
  {
    match m
    case Bundle(rs) => WithAll(reg, rs)
    case Collection(ms) => SetupEach(ms, reg)
  }

  /** A registry together with the module `bindModule` hands back. */
  datatype ModuleBound = ModuleBound(registry: Registry, returned: TerminableModule)

  /** `TerminableConsumer.bindModule(module)`: sets the module up, returns it. */
  function BindModule(reg: Registry, m: TerminableModule): (b: ModuleBound)
    ensures b.returned == m
    ensures b.registry == Setup(m, reg)
    decreases m, 2
  {
    ModuleBound(Setup(m, reg), m)
  }

  /** `TerminableModule.bindModuleWith(consumer)`: hands the module to `bindModule`. */
  function BindModuleWith(m: TerminableModule, reg: Registry): (r: Registry)
    ensures r == Setup(m, reg)
    ensures |r| == |reg| + |Flatten(m)| && r[|Flatten(m)|..] == reg
    decreases m, 3
  {
    BindModule(reg, m).registry
  }

  /**
    The loop of the collection's `setup`: each member in list order. The
    registry grows by exactly the members' resources over the old one.
   */
  function SetupEach(ms: seq<TerminableModule>, reg: Registry): (r: Registry)
    ensures |r| == |reg| + |FlattenEach(ms)|
    ensures r[|FlattenEach(ms)|..] == reg
    decreases ms
  {
    if |ms| == 0 then reg
    else
      var first := BindModuleWith(ms[0], reg);
      var r := SetupEach(ms[1..], first);
      assert r[|FlattenEach(ms)|..] == r[|FlattenEach(ms[1..])|..][|Flatten(ms[0])|..];
      r
  }

  /** The resources a module binds, in binding order, nested collections unfolded depth first. */
  function Flatten(m: TerminableModule): seq<Resource>
    decreases m, 1
  {
    match m
    case Bundle(rs) => rs
    case Collection(ms) => FlattenEach(ms)
  }

  function FlattenEach(ms: seq<TerminableModule>): seq<Resource>
    decreases ms
  {
    if |ms| == 0 then [] else Flatten(ms[0]) + FlattenEach(ms[1..])
  }

  /**
    Setting a module up on a registry pushes its flattened resources in
    order, so they sit in front of the old registry reversed.
   */
  lemma {:induction false} SetupIsReversedFlatten(m: TerminableModule, reg: Registry)
    ensures Setup(m, reg) == Reverse(Flatten(m)) + reg
    decreases m, 1
  {
    match m
    case Bundle(rs) =>
    case Collection(ms) =>
      SetupEachIsReversedFlatten(ms, reg);
  }

  lemma {:induction false} SetupEachIsReversedFlatten(ms: seq<TerminableModule>, reg: Registry)
    ensures SetupEach(ms, reg) == Reverse(FlattenEach(ms)) + reg
    decreases ms
  {
    if |ms| > 0 {
      var first := BindModuleWith(ms[0], reg);
      SetupIsReversedFlatten(ms[0], reg);
      SetupEachIsReversedFlatten(ms[1..], first);
      ReverseAppendOnto(Flatten(ms[0]), FlattenEach(ms[1..]), reg);
    }
  }

  /**
    The members are set up once each, in list order: setting up `a ++ b` is
    setting up `a`, then `b`.
   */
  lemma {:induction false} SetupEachAppend(a: seq<TerminableModule>, b: seq<TerminableModule>, reg: Registry)
    ensures SetupEach(a + b, reg) == SetupEach(b, SetupEach(a, reg))
    decreases |a|
  {
    if |a| > 0 {
      assert (a + b)[0] == a[0];
      assert (a + b)[1..] == a[1..] + b;
      SetupEachAppend(a[1..], b, BindModuleWith(a[0], reg));
    } else {
      assert a + b == b;
    }
  }

  /** A module leaves the registry as it was exactly when it binds nothing. */
  lemma SetupBindsNothingIff(m: TerminableModule, reg: Registry)
    ensures Setup(m, reg) == reg <==> Flatten(m) == []
  {
    SetupIsReversedFlatten(m, reg);
    var f := Flatten(m);
    if Setup(m, reg) == reg {
      assert |Reverse(f) + reg| == |reg|;
    }
  }

  /**
    A collection built from `modules` binds their resources in argument
    order, so the last one bound ends up at the head.
   */
  lemma BaseKeepsArgumentOrder(modules: seq<TerminableModule>, reg: Registry)
    ensures Setup(Base(modules), reg) == Reverse(FlattenEach(modules)) + reg
  {
    SetupEachIsReversedFlatten(modules, reg);
  }
}
