/** The package dependency graph: the module graph reported by the static
    analyser (`deno info --json`) reduced to edges between packages. A module
    belongs to the package named by the first segment of its path relative
    to the working directory. Dependency sets are JavaScript `Set`s, which
    iterate in insertion order, so they are modelled as duplicate-free
    sequences. */
module PackageGraph {
  import opened Wrappers
  import opened Strings
  import opened Paths

  /** One entry of a module's `dependencies`: the resolved code and type
      specifiers, each possibly absent. */
  datatype Dependency = Dependency(code: Option<string>, types: Option<string>)

  /** One entry of the analyser's `modules` array. */
  datatype ModuleInfo = ModuleInfo(specifier: string, dependencies: seq<Dependency>)

  datatype GraphError =
    | NotAFileUrl(specifier: string)   // `fromFileUrl` throws on any other scheme
    | UnknownPackage(name: string)     // `pkgDeps.get(fromPkg)!` was undefined

  /** Package name to the packages it depends on, in discovery order. */
  type Graph = map<string, seq<string>>

  predicate IsFileUrl(spec: string) {
    StartsWith(spec, "file://")
  }

  /** `relative(cwd, fromFileUrl(spec)).split("/")[0]` for a file URL. */
  function FileUrlPackage(cwd: seq<string>, spec: string): string
    requires NormalPath(cwd) && IsFileUrl(spec)
  {
    FirstSegment(Relative(cwd, Resolve([], spec[7..])))
  }

  /** The package of a dependency specifier, or the error `fromFileUrl` raises. */
  function PackageOf(cwd: seq<string>, spec: string): (r: Result<string, GraphError>)
    requires NormalPath(cwd)
    ensures r.Success? <==> IsFileUrl(spec)
  {
    if IsFileUrl(spec) then Success(FileUrlPackage(cwd, spec)) else Failure(NotAFileUrl(spec))
  }

  /** Code and type specifiers of a module's dependencies, in visiting order. */
  function Targets(deps: seq<Dependency>): seq<string>
    decreases |deps|
  {
    if |deps| == 0 then []
    else
      (if deps[0].code.Some? then [deps[0].code.value] else []) +
      (if deps[0].types.Some? then [deps[0].types.value] else []) +
      Targets(deps[1..])
  }

  /** No package depends on itself and no dependency is listed twice. */
  predicate WellFormed(g: Graph) {
    forall p :: p in g ==> p !in g[p] && forall i, j :: 0 <= i < j < |g[p]| ==> g[p][i] != g[p][j]
  }

  /** The file-level dependency `from` -> `spec` yields the package edge
      `from` -> `to`. */
  predicate TargetEdge(cwd: seq<string>, from: string, spec: string, to: string)
    requires NormalPath(cwd)
  {
    PackageOf(cwd, spec) == Success(to) && to != from
  }

  /** A target the tool cannot process: not a file URL, or a package edge
      leaving a directory that is not a package. */
  predicate BadTarget(cwd: seq<string>, packages: set<string>, from: string, spec: string)
    requires NormalPath(cwd)
  {
    PackageOf(cwd, spec).Failure? ||
    (PackageOf(cwd, spec).value != from && from !in packages)
  }

  /** `pkgDeps.get(from)!.add(to)` unless `from` and `to` coincide. */
  function AddEdge(g: Graph, from: string, to: string): (r: Result<Graph, GraphError>)
    requires WellFormed(g)
    ensures r.Failure? <==> from != to && from !in g
    ensures r.Success? ==> r.value.Keys == g.Keys && WellFormed(r.value)
    ensures r.Success? ==> forall p, t :: p in g ==>
              (t in r.value[p] <==> t in g[p] || (p == from && t == to && to != from))
    ensures r.Success? ==> forall p :: p in g ==> g[p] <= r.value[p]
  {
    if from == to then Success(g)
    else if from !in g then Failure(UnknownPackage(from))
    else if to in g[from] then Success(g)
    else Success(g[from := g[from] + [to]])
  }

  /** The edges contributed by the dependency specifiers of one module of
      package `from`, processed in order; stops at the first failure. */
  function AddTargets(cwd: seq<string>, g: Graph, from: string, specs: seq<string>): (r: Result<Graph, GraphError>)
    requires NormalPath(cwd) && WellFormed(g)
    ensures r.Success? ==> r.value.Keys == g.Keys && WellFormed(r.value)
    decreases |specs|
  {
    if |specs| == 0 then Success(g)
    else
      match PackageOf(cwd, specs[0])
      case Failure(e) => Failure(e)
      case Success(to) =>
        match AddEdge(g, from, to)
        case Failure(e) => Failure(e)
        case Success(g1) => AddTargets(cwd, g1, from, specs[1..])
  }

  /** Processing a module's specifiers fails exactly when one of them is a
      bad target. */
  lemma {:induction false} AddTargetsFails(cwd: seq<string>, g: Graph, from: string, specs: seq<string>)
    requires NormalPath(cwd) && WellFormed(g)
    ensures AddTargets(cwd, g, from, specs).Failure? <==>
              exists s :: s in specs && BadTarget(cwd, g.Keys, from, s)
    decreases |specs|
  {
    if |specs| > 0 {
      var s0 := specs[0];
      var rest := specs[1..];
      assert forall s :: s in specs <==> s == s0 || s in rest;
      match PackageOf(cwd, s0)
      case Failure(e) =>
        assert BadTarget(cwd, g.Keys, from, s0);
      case Success(to) =>
        match AddEdge(g, from, to)
        case Failure(e) =>
          assert BadTarget(cwd, g.Keys, from, s0);
        case Success(g1) =>
          AddTargetsFails(cwd, g1, from, rest);
          assert g1.Keys == g.Keys;
    }
  }

  /** When it succeeds, processing a module's specifiers adds exactly the
      package edges they induce. */
  lemma {:induction false} AddTargetsEdges(cwd: seq<string>, g: Graph, from: string, specs: seq<string>, p: string, t: string)
    requires NormalPath(cwd) && WellFormed(g)
    requires AddTargets(cwd, g, from, specs).Success? && p in g
    ensures t in AddTargets(cwd, g, from, specs).value[p] <==>
              t in g[p] || (p == from && exists s :: s in specs && TargetEdge(cwd, from, s, t))
    decreases |specs|
  {
    if |specs| > 0 {
      var s0 := specs[0];
      var rest := specs[1..];
      assert forall s :: s in specs <==> s == s0 || s in rest;
      var to := PackageOf(cwd, s0).value;
      var g1 := AddEdge(g, from, to).value;
      AddTargetsEdges(cwd, g1, from, rest, p, t);
      assert TargetEdge(cwd, from, s0, t) <==> t == to && to != from;
    }
  }

  /** Package of a module the analyser reported as a local file. */
  function Owner(cwd: seq<string>, m: ModuleInfo): string
    requires NormalPath(cwd) && IsFileUrl(m.specifier)
  {
    FileUrlPackage(cwd, m.specifier)
  }

  /** Some local module of package `p` depends on a file of package `t != p`. */
  predicate ModuleEdge(cwd: seq<string>, m: ModuleInfo, p: string, t: string)
    requires NormalPath(cwd)
  {
    IsFileUrl(m.specifier) && Owner(cwd, m) == p &&
    exists s :: s in Targets(m.dependencies) && TargetEdge(cwd, p, s, t)
  }

  predicate ModuleFails(cwd: seq<string>, packages: set<string>, m: ModuleInfo)
    requires NormalPath(cwd)
  {
    IsFileUrl(m.specifier) &&
    exists s :: s in Targets(m.dependencies) && BadTarget(cwd, packages, Owner(cwd, m), s)
  }

  /** The loop over `graph.modules`: modules that are not local files are skipped. */
  function AddModules(cwd: seq<string>, g: Graph, modules: seq<ModuleInfo>): (r: Result<Graph, GraphError>)
    requires NormalPath(cwd) && WellFormed(g)
    ensures r.Success? ==> r.value.Keys == g.Keys && WellFormed(r.value)
    decreases |modules|
  {
    if |modules| == 0 then Success(g)
    else
      var m := modules[0];
      if !IsFileUrl(m.specifier) then AddModules(cwd, g, modules[1..])
      else
        match AddTargets(cwd, g, Owner(cwd, m), Targets(m.dependencies))
        case Failure(e) => Failure(e)
        case Success(g1) => AddModules(cwd, g1, modules[1..])
  }

  /** Processing the module list fails exactly when some local module has
      a bad target. */
  lemma {:induction false} AddModulesFails(cwd: seq<string>, g: Graph, modules: seq<ModuleInfo>)
    requires NormalPath(cwd) && WellFormed(g)
    ensures AddModules(cwd, g, modules).Failure? <==>
              exists m :: m in modules && ModuleFails(cwd, g.Keys, m)
    decreases |modules|
  {
    if |modules| > 0 {
      var m0 := modules[0];
      var rest := modules[1..];
      assert forall m :: m in modules <==> m == m0 || m in rest;
      if !IsFileUrl(m0.specifier) {
        AddModulesFails(cwd, g, rest);
      } else {
        var from := Owner(cwd, m0);
        AddTargetsFails(cwd, g, from, Targets(m0.dependencies));
        match AddTargets(cwd, g, from, Targets(m0.dependencies))
        case Failure(e) =>
          assert ModuleFails(cwd, g.Keys, m0);
        case Success(g1) =>
          AddModulesFails(cwd, g1, rest);
          assert g1.Keys == g.Keys;
      }
    }
  }

  /** When it succeeds, processing the module list adds exactly the edges
      its local modules induce. */
  lemma {:induction false} AddModulesEdges(cwd: seq<string>, g: Graph, modules: seq<ModuleInfo>, p: string, t: string)
    requires NormalPath(cwd) && WellFormed(g)
    requires AddModules(cwd, g, modules).Success? && p in g
    ensures t in AddModules(cwd, g, modules).value[p] <==>
              t in g[p] || exists m :: m in modules && ModuleEdge(cwd, m, p, t)
    decreases |modules|
  {
    if |modules| > 0 {
      var m0 := modules[0];
      var rest := modules[1..];
      assert forall m :: m in modules <==> m == m0 || m in rest;
      if !IsFileUrl(m0.specifier) {
        AddModulesEdges(cwd, g, rest, p, t);
        assert !ModuleEdge(cwd, m0, p, t);
      } else {
        var from := Owner(cwd, m0);
        var g1 := AddTargets(cwd, g, from, Targets(m0.dependencies)).value;
        AddTargetsEdges(cwd, g, from, Targets(m0.dependencies), p, t);
        AddModulesEdges(cwd, g1, rest, p, t);
        assert ModuleEdge(cwd, m0, p, t) <==>
                 p == from && exists s :: s in Targets(m0.dependencies) && TargetEdge(cwd, from, s, t);
      }
    }
  }

  /** Lines 121-144: start every package with an empty dependency set, then
      add one edge per cross-package code or type dependency. */
  function BuildGraph(cwd: seq<string>, packages: seq<string>, modules: seq<ModuleInfo>): (r: Result<Graph, GraphError>)
    requires NormalPath(cwd)
    ensures r.Failure? <==> exists m :: m in modules && ModuleFails(cwd, (set p | p in packages), m)
    ensures r.Success? ==> r.value.Keys == set p | p in packages
    ensures r.Success? ==> forall p :: p in r.value ==> p !in r.value[p]
    ensures r.Success? ==> forall p, t :: p in r.value ==>
              (t in r.value[p] <==> exists m :: m in modules && ModuleEdge(cwd, m, p, t))
  {
    var g0: Graph := map p | p in packages :: [];
    assert g0.Keys == set p | p in packages;
    AddModulesFails(cwd, g0, modules);
    var r := AddModules(cwd, g0, modules);
    if r.Success? then
      assert forall p, t :: p in r.value ==>
               (t in r.value[p] <==> exists m :: m in modules && ModuleEdge(cwd, m, p, t)) by {
        forall p, t | p in r.value
          ensures t in r.value[p] <==> exists m :: m in modules && ModuleEdge(cwd, m, p, t)
        {
          AddModulesEdges(cwd, g0, modules, p, t);
        }
      }
      r
    else r
  }
}
