/**
  Two more traversals of project references: whether a package's own configs reference the
  shared invariants project, and which directories a clean build would write.
 */
module ReferenceWalks {
  import opened Wrappers
  import opened Digraph
  import opened Worklist

  // ---- does a package reference the invariants project ----

  /** A resolved reference, the config file it names, and whether it lies inside the owning package. */
  datatype Reference<N> = Reference(path: N, config: N, owned: bool)

  type Configs<!N(==)> = map<N, seq<Reference<N>>>

  ghost predicate References<N>(configs: Configs<N>, config: N, target: N) {
    config in configs && exists i :: 0 <= i < |configs[config]| && configs[config][i].path == target
  }

  function OwnConfigs<N(==)>(configs: Configs<N>, references: seq<Reference<N>>): seq<N> {
    if references == [] then []
    else
      var last := references[|references| - 1];
      OwnConfigs(configs, references[..|references| - 1])
        + (if last.owned && last.config in configs then [last.config] else [])
  }

  ghost predicate NamesOwn<N>(references: seq<Reference<N>>, config: N) {
    exists r :: r in references && r.owned && r.config == config
  }

  lemma {:induction false} OwnConfigsIff<N(!new)>(configs: Configs<N>, references: seq<Reference<N>>, config: N)
    ensures config in OwnConfigs(configs, references) <==> config in configs && NamesOwn(references, config)
  {
    if references != [] {
      OwnConfigsIff(configs, references[..|references| - 1], config);
      assert references == references[..|references| - 1] + [references[|references| - 1]];
    }
  }

  /** The package's own existing configs, as its references name them. */
  ghost function OwnGraph<N>(configs: Configs<N>): Graph<N> {
    map c | c in configs :: OwnConfigs(configs, configs[c])
  }

  /** An existing config of the package leads to another one that it references. */
  lemma OwnEdgeIff<N(!new)>(configs: Configs<N>, a: N, b: N)
    ensures Edge(OwnGraph(configs), a, b) <==> a in configs && b in configs && NamesOwn(configs[a], b)
  {
    if a in configs { OwnConfigsIff(configs, configs[a], b); }
  }

  /** The references of one config: whether one is the target, and otherwise the configs to visit. */
  method ScanReferences<N(==)>(configs: Configs<N>, config: N, target: N) returns (found: bool, pushed: seq<N>)
    requires config in configs
    ensures found <==> References(configs, config, target)
    ensures !found ==> pushed == OwnConfigs(configs, configs[config])
  {
    var references := configs[config];
    pushed := [];
    for i := 0 to |references|
      invariant pushed == OwnConfigs(configs, references[..i])
      invariant forall j :: 0 <= j < i ==> references[j].path != target
    {
      assert references[..i + 1][..i] == references[..i];
      if references[i].path == target { return true, []; }
      if references[i].owned && references[i].config in configs { pushed := pushed + [references[i].config]; }
    }
    assert references[..|references|] == references;
    return false, pushed;
  }

  datatype ReadError = Unreadable

  /** True exactly when some config of the package that its entry config leads to references the target. */
  method ProjectReferences<N(!new,==)>(configs: Configs<N>, entry: N, target: N) returns (r: Result<bool, ReadError>)
    ensures r.Err? <==> entry !in configs
    ensures r.Ok? ==> (r.value <==>
      exists c :: ReachesConfig(OwnGraph(configs), [entry], c) && References(configs, c, target))
  {
    if entry !in configs { return Err(Unreadable); }
    ghost var g := OwnGraph(configs);
    var pending := [entry];
    var visited: set<N> := {};
    while pending != []
      invariant Frontier(g, [entry], visited, pending) && forall n :: n in pending ==> n in configs
      invariant forall c :: c in visited ==> !References(configs, c, target)
      decreases configs.Keys - visited, |pending|
    {
      var config := pending[|pending| - 1];
      if config in visited {
        Skip(g, [entry], visited, pending);
        pending := pending[..|pending| - 1];
      } else {
        var found, pushed := ScanReferences(configs, config, target);
        if found { return Ok(true); }
        forall c | c in pushed ensures c in configs { OwnConfigsIff(configs, configs[config], c); }
        Visit(g, [entry], visited, pending, pushed);
        pending := pending[..|pending| - 1] + pushed;
        visited := visited + {config};
      }
    }
    Done(g, [entry], visited);
    return Ok(false);
  }

  // ---- what a build writes ----

  /** Where a config's output lands: a directory that may be removed, or a path that must not be. */
  datatype Output<N> = Removable(directory: N) | Refused(path: N)

  datatype BuildConfig<N> = BuildConfig(output: Option<Output<N>>, references: seq<N>)

  type Build<!N(==)> = map<N, BuildConfig<N>>

  ghost function BuildGraph<N>(build: Build<N>): Graph<N> {
    map c | c in build :: build[c].references
  }

  /** A config that can be read and does not write where nothing may be removed. */
  predicate Cleanable<N(==)>(build: Build<N>, config: N) {
    config in build && (build[config].output.Some? ==> build[config].output.value.Removable?)
  }

  /**
    Succeeds exactly when every config the root leads to can be read and writes to a removable
    directory, and then returns all those directories and nothing else.
   */
  method BuildOutputs<N(!new,==)>(build: Build<N>, root: N) returns (r: Result<set<N>, N>)
    ensures r.Ok? <==> forall c :: FromRoots(BuildGraph(build), [root], c) ==>
      c in build && forall path :: build[c].output != Some(Refused(path))
    ensures r.Err? ==> FromRoots(BuildGraph(build), [root], r.error) && !Cleanable(build, r.error)
    ensures r.Ok? ==> forall d :: d in r.value <==>
      exists c :: ReachesConfig(BuildGraph(build), [root], c) && build[c].output == Some(Removable(d))
  {
    ghost var g := BuildGraph(build);
    var outputs: set<N> := {};
    var pending := [root];
    var visited: set<N> := {};
    while pending != []
      invariant Frontier(g, [root], visited, pending)
      invariant forall c :: c in visited ==> Cleanable(build, c)
      invariant root in visited || root in pending
      invariant forall c, d :: c in visited && Edge(g, c, d) ==> d in visited || d in pending
      invariant forall d :: d in outputs <==> exists c :: c in visited && build[c].output == Some(Removable(d))
      decreases build.Keys - visited, |pending|
    {
      var config := pending[|pending| - 1];
      assert config in pending && pending == pending[..|pending| - 1] + [config];
      if config in visited {
        Skip(g, [root], visited, pending);
        pending := pending[..|pending| - 1];
      } else {
        if !Cleanable(build, config) { return Err(config); }
        Visit(g, [root], visited, pending, build[config].references);
        pending := pending[..|pending| - 1] + build[config].references;
        visited := visited + {config};
        if build[config].output.Some? { outputs := outputs + {build[config].output.value.directory}; }
      }
    }
    Done(g, [root], visited);
    AllVisited(g, root, visited);
    return Ok(outputs);
  }

  lemma AllVisited<N(!new)>(g: Graph<N>, root: N, visited: set<N>)
    requires root in visited && forall c, d :: c in visited && Edge(g, c, d) ==> d in visited
    ensures forall c :: FromRoots(g, [root], c) ==> c in visited
  {
    forall c | FromRoots(g, [root], c) ensures c in visited {
      var closed := iset n | n in visited;
      if c != root { ClosedSetContainsReachable(g, closed, root, c); }
    }
  }
}
