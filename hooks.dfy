/** File action hooks of the later generation (hisfs/hooks.py): hooks
    configured per event as dotted Python paths, loaded by splitting the
    path into module and member, and run so that no failure of loading or
    of the hook itself escapes. Importing a module is modelled by a table
    of the modules the interpreter can import and their members; what a
    hook does when called is a parameter that says whether it raised. */
module Hooks {
  import opened Common
  import opened Text

  /** `Hook(name, package, module, function)`; a field the configuration
      leaves out is `None`. */
  datatype Hook = Hook(name: Option<string>, packageName: Option<string>,
                       moduleName: Option<string>, functionName: Option<string>)

  /** One hook's entry in the configuration. */
  type HookConfig = map<string, string>

  /** `HOOKS`: the configured hooks per event, in configuration order. */
  type HooksConfig = map<string, seq<HookConfig>>

  function Get(d: HookConfig, key: string): Option<string>
  {
    if key in d then Some(d[key]) else None
  }

  /** `Hook.from_dict`: missing keys become `None`. */
  function FromDict(d: HookConfig): (h: Hook)
    ensures h.name.Some? <==> "name" in d
    ensures h.packageName.Some? <==> "package" in d
    ensures h.moduleName.Some? <==> "module" in d
    ensures h.functionName.Some? <==> "function" in d
  {
    Hook(Get(d, "name"), Get(d, "package"), Get(d, "module"), Get(d, "function"))
  }

  /** The configuration entry a hook is read from. */
  function ToDict(h: Hook): HookConfig
  {
    var d0: HookConfig := map[];
    var d1 := if h.name.Some? then d0["name" := h.name.value] else d0;
    var d2 := if h.packageName.Some? then d1["package" := h.packageName.value] else d1;
    var d3 := if h.moduleName.Some? then d2["module" := h.moduleName.value] else d2;
    if h.functionName.Some? then d3["function" := h.functionName.value] else d3
  }

  /** Every hook is read back from its own entry. */
  lemma FromDictToDict(h: Hook)
    ensures FromDict(ToDict(h)) == h
  {
    var d := ToDict(h);
    assert Get(d, "name") == h.name;
    assert Get(d, "package") == h.packageName;
    assert Get(d, "module") == h.moduleName;
    assert Get(d, "function") == h.functionName;
  }

  /** `Hook.load`: the event's hooks in configuration order, none for an
      event that is not configured. */
  function Load(config: HooksConfig, event: string): (r: seq<Hook>)
    ensures event !in config ==> r == []
    ensures event in config ==>
      && |r| == |config[event]|
      && forall i | 0 <= i < |r| :: r[i] == FromDict(config[event][i])
  {
    if event in config then seq(|config[event]|, i requires 0 <= i < |config[event]| => FromDict(config[event][i]))
    else []
  }

  /** The fields after the name that are present, in order. */
  function PathNodes(h: Hook): (r: seq<string>)
    ensures |r| <= 3
  {
    (if h.packageName.Some? then [h.packageName.value] else [])
    + (if h.moduleName.Some? then [h.moduleName.value] else [])
    + (if h.functionName.Some? then [h.functionName.value] else [])
  }

  /** `Hook.python_path`. */
  function PythonPath(h: Hook): string
  {
    Join(PathNodes(h), '.')
  }

  /** The name takes no part in the path. */
  lemma PythonPathIgnoresName(h: Hook, name: Option<string>)
    ensures PythonPath(h.(name := name)) == PythonPath(h)
  {
  }

  /** With dot-free fields, the path splits back into exactly the present
      fields, and its last '.' separates the function from the rest. */
  lemma PythonPathSplits(h: Hook)
    requires |PathNodes(h)| >= 1
    requires forall i | 0 <= i < |PathNodes(h)| :: '.' !in PathNodes(h)[i]
    ensures Split(PythonPath(h), '.') == PathNodes(h)
    ensures |PathNodes(h)| >= 2 ==>
      var nodes := PathNodes(h);
      RSplitOnce(PythonPath(h), '.') == Some((Join(nodes[..|nodes| - 1], '.'), nodes[|nodes| - 1]))
  {
    var nodes := PathNodes(h);
    SplitJoin(nodes, '.');
    if |nodes| >= 2 {
      var init, last := nodes[..|nodes| - 1], nodes[|nodes| - 1];
      assert init + [last] == nodes;
      JoinAppend(init, last, '.');
      assert '.' !in last;
      RSplitOnceAt(Join(init, '.'), last, '.');
    }
  }

  /** `LoadingError`, by the failure it reports. */
  datatype LoadingError =
    | InvalidPythonPath(path: string)
    | NoSuchModule(moduleName: string)
    | NoSuchMember(functionName: string, moduleName: string)

  /** The importable modules and the members each one has. */
  type Modules = map<string, set<string>>

  /** A loaded callable: a member of a module. */
  datatype Target = Target(moduleName: string, functionName: string)

  /** `Hook.callable`. */
  function Callable(h: Hook, modules: Modules): (r: Result<Target, LoadingError>)
    ensures r.Err? && r.error.InvalidPythonPath? <==> '.' !in PythonPath(h)
    ensures r.Ok? ==>
      && PythonPath(h) == r.value.moduleName + "." + r.value.functionName
      && '.' !in r.value.functionName
      && r.value.moduleName in modules && r.value.functionName in modules[r.value.moduleName]
  {
    match RSplitOnce(PythonPath(h), '.')
    case None => Err(InvalidPythonPath(PythonPath(h)))
    case Some((m, f)) =>
      if m !in modules then Err(NoSuchModule(m))
      else if f !in modules[m] then Err(NoSuchMember(f, m))
      else Ok(Target(m, f))
  }

  /** What one run of a hook came to; it is logged, never raised. */
  datatype RunResult = Completed(target: Target) | NotLoaded(error: LoadingError) | Failed(target: Target)

  /** One call of a hook, for the run log. */
  datatype HookRun = HookRun(hook: Hook, ident: nat, result: RunResult)

  /** `Hook.__call__`: `raises` tells whether the loaded callable raised
      for this ident. */
  function Call(h: Hook, ident: nat, modules: Modules, raises: (Target, nat) -> bool): (r: HookRun)
    ensures r.hook == h && r.ident == ident
    ensures r.result.NotLoaded? <==> Callable(h, modules).Err?
    ensures r.result.Completed? <==> Callable(h, modules).Ok? && !raises(Callable(h, modules).value, ident)
  {
    match Callable(h, modules)
    case Err(e) => HookRun(h, ident, NotLoaded(e))
    case Ok(t) => HookRun(h, ident, if raises(t, ident) then Failed(t) else Completed(t))
  }

  /** `run_delete_hooks`: every 'on_delete' hook in configuration order,
      each with the same ident, whatever the earlier ones did. */
  method RunDeleteHooks(config: HooksConfig, ident: nat, modules: Modules, raises: (Target, nat) -> bool)
    returns (runs: seq<HookRun>)
    ensures |runs| == |Load(config, "on_delete")|
    ensures forall i | 0 <= i < |runs| :: runs[i] == Call(Load(config, "on_delete")[i], ident, modules, raises)
  {
    var hooks := Load(config, "on_delete");
    runs := [];
    var i := 0;
    while i < |hooks|
      invariant 0 <= i <= |hooks|
      invariant |runs| == i
      invariant forall k | 0 <= k < i :: runs[k] == Call(hooks[k], ident, modules, raises)
    {
      runs := runs + [Call(hooks[i], ident, modules, raises)];
      i := i + 1;
    }
  }
}
