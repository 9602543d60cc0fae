/** loader.py: `NodeTypesBootstrap.ensure`, a one-shot state machine that
    imports the generated node module and merges its `NODE_MAP` into the
    registry.

    The interpreter's module table is a parameter: it maps each importable
    dotted name to what the module defines (here only whether it has a
    `NODE_MAP`, and which). Code run while a module is imported is not
    modelled. */
module Bootstrap {
  import opened Wrappers
  import opened Errors
  import opened Nodes

  datatype ModuleInfo = ModuleInfo(nodeMap: Option<Registry>)

  type Modules = map<string, ModuleInfo>

  /** The class-level flag and the registry it guards. */
  datatype State = State(loaded: bool, registry: Registry)

  /** The state after a call, and the exception it raised if any. */
  datatype Step = Step(state: State, raised: Option<Error>)

  /** Every package `__import__` loads on the way to `name`: the text before
      each dot, then `name` itself. */
  predicate AllImportable(modules: Modules, name: string) {
    name in modules &&
    forall k :: 0 <= k < |name| && name[k] == '.' ==> name[..k] in modules
  }

  /** The text before the first dot: the top-level package. */
  function TopLevel(name: string): (t: string)
    ensures |t| <= |name| && t == name[..|t|]
    ensures '.' !in t
    ensures |t| < |name| ==> name[|t|] == '.'
  {
    if |name| == 0 || name[0] == '.' then ""
    else [name[0]] + TopLevel(name[1..])
  }

  /** `__import__(name)`: the empty name is a ValueError, a missing package or
      module a ModuleNotFoundError; otherwise the TOP-LEVEL package is
      returned, not the module named. */
  function Import(modules: Modules, name: string): (r: Result<ModuleInfo, Error>)
    ensures r.Err? <==> name == "" || !AllImportable(modules, name)
    ensures r.Ok? ==> TopLevel(name) in modules && r.value == modules[TopLevel(name)]
  {
    if name == "" then Err(ValueError)
    else if !AllImportable(modules, name) then Err(ModuleNotFoundError)
    else
      var t := TopLevel(name);
      assert t in modules by {
        if |t| < |name| {
          assert name[..|t|] in modules;
        } else {
          assert t == name;
        }
      }
      Ok(modules[t])
  }

  /** The shared tail of both versions: merge the map of the module checked. */
  function Merge(st: State, checked: ModuleInfo): (s: Step)
    ensures checked.nodeMap.None? ==> s.raised == Some(RuntimeError) && s.state == st
    ensures checked.nodeMap.Some? ==> s.raised.None? && s.state.loaded
  {
    match checked.nodeMap
    case None => Step(st, Some(RuntimeError))
    case Some(m) => Step(State(true, Register(st.registry, m)), None)
  }

  /** After a merge every type the module maps gets its mapped class, and
      every other type keeps the class it had. */
  lemma MergeClasses(st: State, checked: ModuleInfo, caller: string, t: string)
    requires checked.nodeMap.Some?
    ensures t in checked.nodeMap.value ==>
      ClassFor(Merge(st, checked).state.registry, caller, t) == checked.nodeMap.value[t]
    ensures t !in checked.nodeMap.value ==>
      ClassFor(Merge(st, checked).state.registry, caller, t) == ClassFor(st.registry, caller, t)
  {
    ClassForRegister(st.registry, checked.nodeMap.value, caller, t);
  }

  /** `ensure(module_name)` as written: `NODE_MAP` is looked up on what
      `__import__` returns, the top-level package. */
  function EnsureAsWritten(st: State, modules: Modules, name: string): (s: Step)
    ensures s.raised.Some? ==> s.state == st
  {
    if st.loaded then Step(st, None)
    else match Import(modules, name)
      case Err(ValueError) => Step(st, Some(ValueError))
      case Err(_) => Step(st, Some(RuntimeError))
      case Ok(top) => Merge(st, top)
  }

  /** `ensure(module_name)` as intended: `NODE_MAP` is looked up on the module
      named, after importing every package on its path. */
  function Ensure(st: State, modules: Modules, name: string): (s: Step)
    ensures s.raised.Some? ==> s.state == st
  {
    if st.loaded then Step(st, None)
    else match Import(modules, name)
      case Err(ValueError) => Step(st, Some(ValueError))
      case Err(_) => Step(st, Some(RuntimeError))
      case Ok(_) => Merge(st, modules[name])
  }

  /** Once loaded, a call does nothing, whatever module it names. */
  lemma LoadedIsNoop(st: State, modules: Modules, name: string)
    requires st.loaded
    ensures Ensure(st, modules, name) == Step(st, None)
    ensures EnsureAsWritten(st, modules, name) == Step(st, None)
  {
  }

  /** The outcome of a first call: RuntimeError for a missing module or a
      module without `NODE_MAP`, ValueError for the empty name, and otherwise
      the module's map merged and the flag set. */
  lemma EnsureOutcome(st: State, modules: Modules, name: string)
    requires !st.loaded
    ensures var s := Ensure(st, modules, name);
      (name == "" ==> s == Step(st, Some(ValueError))) &&
      (name != "" && !AllImportable(modules, name) ==> s == Step(st, Some(RuntimeError))) &&
      (name != "" && AllImportable(modules, name) && modules[name].nodeMap.None? ==>
         s == Step(st, Some(RuntimeError))) &&
      (s.raised.None? <==> name != "" && AllImportable(modules, name) && modules[name].nodeMap.Some?) &&
      (s.raised.None? ==>
         s.state == State(true, Register(st.registry, modules[name].nodeMap.value)))
  {
  }

  /** The outcome of a first call as written: ValueError for the empty name,
      RuntimeError for a missing module or a top-level package without
      `NODE_MAP`, and otherwise the top-level package's map merged and the
      flag set. */
  lemma EnsureAsWrittenOutcome(st: State, modules: Modules, name: string)
    requires !st.loaded
    ensures name == "" ==> EnsureAsWritten(st, modules, name) == Step(st, Some(ValueError))
    ensures name != "" && !AllImportable(modules, name) ==>
      EnsureAsWritten(st, modules, name) == Step(st, Some(RuntimeError))
    ensures name != "" && AllImportable(modules, name) ==> TopLevel(name) in modules
    ensures (name != "" && AllImportable(modules, name) && TopLevel(name) in modules &&
             modules[TopLevel(name)].nodeMap.None?) ==>
      EnsureAsWritten(st, modules, name) == Step(st, Some(RuntimeError))
    ensures EnsureAsWritten(st, modules, name).raised.None? <==>
      (name != "" && AllImportable(modules, name) && TopLevel(name) in modules &&
       modules[TopLevel(name)].nodeMap.Some?)
    ensures EnsureAsWritten(st, modules, name).raised.None? ==>
      TopLevel(name) in modules && modules[TopLevel(name)].nodeMap.Some? &&
      EnsureAsWritten(st, modules, name).state ==
        State(true, Register(st.registry, modules[TopLevel(name)].nodeMap.value))
  {
    if name != "" && AllImportable(modules, name) {
      assert Import(modules, name).Ok?;
    }
  }

  /** After a successful call every later call is a no-op: the map is
      registered at most once. */
  lemma EnsureOnce(st: State, modules: Modules, a: string, b: string)
    requires Ensure(st, modules, a).raised.None?
    ensures var s := Ensure(st, modules, a).state;
      s.loaded && Ensure(s, modules, b) == Step(s, None)
  {
  }

  /** The two versions agree on names without a dot. */
  lemma AsWrittenAgreesUndotted(st: State, modules: Modules, name: string)
    requires '.' !in name
    ensures EnsureAsWritten(st, modules, name) == Ensure(st, modules, name)
  {
    if name != "" && AllImportable(modules, name) {
      assert TopLevel(name) == name;
    }
  }

  lemma {:induction false} TopLevelOf(pkg: string, rest: string)
    requires '.' !in pkg
    ensures TopLevel(pkg + "." + rest) == pkg
    decreases |pkg|
  {
    if |pkg| > 0 {
      assert (pkg + "." + rest)[1..] == pkg[1..] + "." + rest;
      TopLevelOf(pkg[1..], rest);
    }
  }

  /** A module inside a package that defines no `NODE_MAP` (the default
      `data.python_nodes` inside `data`): as written the call fails, as
      intended it loads the module's map. */
  lemma AsWrittenMissesLeafModule(pkg: string, leaf: string, m: Registry)
    requires pkg != "" && '.' !in pkg && '.' !in leaf
    ensures var name := pkg + "." + leaf;
      var mods := map[pkg := ModuleInfo(None), name := ModuleInfo(Some(m))];
      var st := State(false, map[]);
      EnsureAsWritten(st, mods, name) == Step(st, Some(RuntimeError)) &&
      Ensure(st, mods, name) == Step(State(true, m), None)
  {
    var name := pkg + "." + leaf;
    var mods := map[pkg := ModuleInfo(None), name := ModuleInfo(Some(m))];
    forall k | 0 <= k < |name| && name[k] == '.'
      ensures name[..k] in mods
    {
      assert k == |pkg|;
      assert name[..k] == pkg;
    }
    TopLevelOf(pkg, leaf);
    assert Register(map[], m) == m;
  }
}
