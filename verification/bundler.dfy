/** What `Bundler` decides before esbuild runs: the working and
    `node_modules` directories, the check that module resolution can reach
    `node_modules`, the list handed to the installer, the output directory
    and the options esbuild is finally run with. */
module Bundlers {
  import opened Wrappers
  import opened JPaths
  import opened OrderedMaps
  import opened EsBuildConfigs
  import opened EsBuildConfigBuilders
  import opened WebDependencies

  const NodeModules := "node_modules"
  const DefaultOutDir := "dist"

  /** `BundleOptions` over entry points of type `E`; a missing list of
      entries is `None`. Plugins are known by name. */
  datatype Options<E> = Options(
    entries: Option<seq<E>>,
    dependencies: seq<WebDependency>,
    config: Config,
    plugins: seq<string>,
    timeoutSeconds: int,
    workDir: Option<JPath>,
    nodeModulesDir: Option<JPath>)

  /** `getWorkDir`: the given directory normalized, or a fresh temporary
      directory `tmp`. */
  function WorkDir<E>(o: Options<E>, tmp: JPath): JPath {
    if o.workDir.Some? then Normalize(o.workDir.value) else tmp
  }

  /** `getNodeModulesDir`: `node_modules` in the working directory unless
      the options name one, which is then normalized. */
  function NodeModulesDir<E>(workDir: JPath, o: Option<Options<E>>): (r: JPath)
    ensures o.None? || o.value.nodeModulesDir.None? ==>
      r.absolute == workDir.absolute && r.names == workDir.names + [NodeModules]
    ensures o.Some? && o.value.nodeModulesDir.Some? ==>
      r.absolute == o.value.nodeModulesDir.value.absolute
      && forall i :: 0 <= i < |r.names| ==> r.names[i] != "."
  {
    if o.None? || o.value.nodeModulesDir.None? then Resolve(workDir, JPath(false, [NodeModules]))
    else Normalize(o.value.nodeModulesDir.value)
  }

  /** Module resolution walks up from the working directory, so
      `node_modules` must sit in one of its ancestors (or in it). */
  predicate Reachable(workDir: JPath, nodeModulesDir: JPath, cwd: JPath)
    requires cwd.absolute
  {
    Parent(nodeModulesDir).Some?
    && JPaths.StartsWith(ToAbsolute(workDir, cwd), ToAbsolute(Parent(nodeModulesDir).value, cwd))
  }

  /** `ScriptRunner.getOutDir`: the configured output directory, "dist" by
      default, resolved against the working directory. */
  function OutDir(workDir: JPath, c: Config): (r: JPath)
    ensures c.outdir.None? ==> r.absolute == workDir.absolute && r.names == workDir.names + [DefaultOutDir]
  {
    ResolveStr(workDir, c.outdir.GetOr(DefaultOutDir))
  }

  /** `install`: the user's dependencies, then the class path's. */
  function InstallList(userDeps: seq<WebDependency>, esbuildDeps: seq<WebDependency>): (r: seq<WebDependency>)
    ensures |r| == |userDeps| + |esbuildDeps|
    ensures r[..|userDeps|] == userDeps && r[|userDeps|..] == esbuildDeps
  {
    userDeps + esbuildDeps
  }

  /** The entry points processed in order; `process` stands for
      `EntryPoint.process`, which writes the entry's file into the working
      directory and returns its path. */
  function EntryPaths<E>(entries: seq<E>, workDir: JPath, process: (E, JPath) -> JPath): (r: seq<string>)
    ensures |r| == |entries|
    ensures forall i :: 0 <= i < |entries| ==> r[i] == Show(process(entries[i], workDir))
  {
    if entries == [] then []
    else [Show(process(entries[0], workDir))] + EntryPaths(entries[1..], workDir, process)
  }

  /** What a call did to the disk before its outcome was known: the list
      handed to the installer, if it ran, and the output directory that was
      emptied and re-created, if any. */
  datatype Effects = Effects(installed: Option<seq<WebDependency>>, emptied: Option<JPath>)

  const NoEntries := "At least one entry point is required"

  /** `prepareForBundling`: the output directory is emptied and re-created
      first; then a missing (null) list of entries is refused, while an
      empty one passes; the configuration is edited to write into `dist`
      and to bundle the processed entries. */
  function PrepareForBundling<E>(o: Options<E>, nodeModulesDir: JPath, workDir: JPath, dist: JPath,
                                 process: (E, JPath) -> JPath): (r: (Result<Options<E>>, Effects))
    ensures r.1 == Effects(None, Some(dist))
    ensures r.0.Err? <==> o.entries.None? || Edit(o.config).Err?
    ensures o.entries.None? ==> r.0 == Err(NoEntries)
    ensures r.0.Ok? ==> r.0.value.nodeModulesDir == Some(nodeModulesDir)
    ensures r.0.Ok? ==> r.0.value.config.outdir == Some(Show(dist))
    ensures r.0.Ok? ==> r.0.value.config.entryPoints == Some(EntryPaths(o.entries.value, workDir, process))
  {
    var emptied := Effects(None, Some(dist));
    if o.entries.None? then (Err(NoEntries), emptied)
    else
      var paths := EntryPaths(o.entries.value, workDir, process);
      match Edit(o.config)
      case Err(e) => (Err(e), emptied)
      case Ok(b) =>
        (Ok(o.(nodeModulesDir := Some(nodeModulesDir),
               config := Build(b.(outdir := Some(Show(dist)), entryPoint := Some(paths))))), emptied)
  }

  /** The outcome of `getBundling`. */
  datatype Bundling<E> = Bundling(
    workDir: JPath,
    nodeModulesDir: JPath,
    dist: JPath,
    options: Options<E>)

  /** `getBundling`, with what it did on the way. `tmp` is the temporary
      directory made when the options name no working directory, `cwd` the
      process directory relative paths are resolved against, and
      `esbuildDeps` the class path's web dependencies. Once `node_modules`
      is accepted, the installer runs (when asked) and the output directory
      is emptied, whether or not the entries are then refused. */
  function GetBundling<E>(o: Options<E>, install: bool, tmp: JPath, cwd: JPath,
                          esbuildDeps: seq<WebDependency>, process: (E, JPath) -> JPath): (r: (Result<Bundling<E>>, Effects))
    requires cwd.absolute
    ensures r.0.Err? <==>
      !Reachable(WorkDir(o, tmp), NodeModulesDir(WorkDir(o, tmp), Some(o)), cwd)
      || o.entries.None? || Edit(o.config).Err?
    ensures r.0.Ok? ==> Reachable(r.0.value.workDir, r.0.value.nodeModulesDir, cwd)
    ensures r.0.Ok? ==> r.0.value.options.nodeModulesDir == Some(r.0.value.nodeModulesDir)
    ensures r.0.Ok? ==> r.0.value.options.config.outdir == Some(Show(r.0.value.dist))
    // a refused node_modules directory is refused before anything is done
    ensures !Reachable(WorkDir(o, tmp), NodeModulesDir(WorkDir(o, tmp), Some(o)), cwd) ==> r.1 == Effects(None, None)
    // otherwise the installer ran when asked, and the output directory was
    // emptied, on success and failure alike
    ensures Reachable(WorkDir(o, tmp), NodeModulesDir(WorkDir(o, tmp), Some(o)), cwd) ==>
      && (r.1.installed.Some? <==> install)
      && r.1.emptied == Some(OutDir(WorkDir(o, tmp), o.config))
    ensures r.1.installed.Some? ==> r.1.installed.value == o.dependencies + esbuildDeps
    ensures r.0.Ok? ==> r.1.emptied == Some(r.0.value.dist)
  {
    var workDir := WorkDir(o, tmp);
    var nodeModulesDir := NodeModulesDir(workDir, Some(o));
    if !Reachable(workDir, nodeModulesDir, cwd) then
      (Err("Invalid node_modules directory: '" + Show(nodeModulesDir)
          + "'. It must be located in an ancestor of the working directory '" + Show(workDir)
          + "' to enable module resolution."), Effects(None, None))
    else
      var installed := if install then Some(InstallList(o.dependencies, esbuildDeps)) else None;
      var dist := OutDir(workDir, o.config);
      var (prepared, effects) := PrepareForBundling(o, nodeModulesDir, workDir, dist, process);
      var done := effects.(installed := installed);
      match prepared
      case Err(e) => (Err(e), done)
      case Ok(effective) => (Ok(Bundling(workDir, nodeModulesDir, dist, effective)), done)
  }

  /** Missing entries are refused only after the installer has run and the
      output directory has been emptied. */
  lemma MissingEntriesAfterEffects<E>(o: Options<E>, install: bool, tmp: JPath, cwd: JPath,
                                      esbuildDeps: seq<WebDependency>, process: (E, JPath) -> JPath)
    requires cwd.absolute && o.entries.None?
    requires Reachable(WorkDir(o, tmp), NodeModulesDir(WorkDir(o, tmp), Some(o)), cwd)
    ensures var r := GetBundling(o, install, tmp, cwd, esbuildDeps, process);
      && r.0 == Err(NoEntries)
      && r.1.emptied == Some(OutDir(WorkDir(o, tmp), o.config))
      && (install ==> r.1.installed == Some(o.dependencies + esbuildDeps))
  {
  }

  /** An empty list of entries is not refused: only a missing one is. */
  lemma EmptyEntriesAccepted<E>(o: Options<E>, nodeModulesDir: JPath, workDir: JPath, dist: JPath,
                                process: (E, JPath) -> JPath)
    requires o.entries == Some([]) && Edit(o.config).Ok?
    ensures PrepareForBundling(o, nodeModulesDir, workDir, dist, process).0.Ok?
    ensures PrepareForBundling(o, nodeModulesDir, workDir, dist, process).0.value.config.entryPoints == Some([])
  {
  }

  /** The default `node_modules`, inside the working directory, is always
      reachable, unless the working directory is the empty path, whose
      `node_modules` has no parent. */
  lemma DefaultNodeModulesReachable<E>(o: Options<E>, tmp: JPath, cwd: JPath)
    requires cwd.absolute && o.nodeModulesDir.None?
    requires WorkDir(o, tmp) != JPaths.Empty
    ensures Reachable(WorkDir(o, tmp), NodeModulesDir(WorkDir(o, tmp), Some(o)), cwd)
  {
    var w := WorkDir(o, tmp);
    var nm := NodeModulesDir(w, Some(o));
    assert Parent(nm) == Some(w);
    var a := ToAbsolute(w, cwd);
    assert a.names[..|a.names|] == a.names;
  }

  /** The empty working directory is refused: its `node_modules` has no
      parent. */
  lemma EmptyWorkDirRefused<E>(o: Options<E>, install: bool, tmp: JPath, cwd: JPath,
                               esbuildDeps: seq<WebDependency>, process: (E, JPath) -> JPath)
    requires cwd.absolute && o.nodeModulesDir.None? && WorkDir(o, tmp) == JPaths.Empty
    ensures GetBundling(o, install, tmp, cwd, esbuildDeps, process).0.Err?
    ensures GetBundling(o, install, tmp, cwd, esbuildDeps, process).1 == Effects(None, None)
  {
  }

  /** A `node_modules` in a sibling of the working directory cannot be
      reached: `<base>/work` with `<base>/foo/node_modules` is refused. */
  lemma SiblingNodeModulesRefused<E>(o: Options<E>, install: bool, tmp: JPath, cwd: JPath,
                                     esbuildDeps: seq<WebDependency>, process: (E, JPath) -> JPath,
                                     base: seq<string>)
    requires cwd.absolute
    requires o.workDir == Some(JPath(true, base + ["work"]))
    requires Normalize(o.workDir.value) == o.workDir.value
    requires o.nodeModulesDir == Some(JPath(true, base + ["foo", NodeModules]))
    requires Normalize(o.nodeModulesDir.value) == o.nodeModulesDir.value
    ensures GetBundling(o, install, tmp, cwd, esbuildDeps, process).0.Err?
    ensures GetBundling(o, install, tmp, cwd, esbuildDeps, process).1 == Effects(None, None)
  {
    var w := JPath(true, base + ["work"]);
    var nm := JPath(true, base + ["foo", NodeModules]);
    var p := JPath(true, base + ["foo"]);
    assert nm.names[..|nm.names| - 1] == p.names;
    assert Parent(nm) == Some(p);
    assert w.names[..|p.names|][|base|] == "work";
  }

  /** The options esbuild runs with differ from the user's only in the
      `node_modules` directory, the output directory and the entry points,
      when the user's `alias` and `define` maps are present with distinct
      keys. */
  lemma EffectiveOptions<E>(o: Options<E>, install: bool, tmp: JPath, cwd: JPath,
                            esbuildDeps: seq<WebDependency>, process: (E, JPath) -> JPath)
    requires cwd.absolute
    requires GetBundling(o, install, tmp, cwd, esbuildDeps, process).0.Ok?
    requires o.config.alias.Some? && UniqueKeys(o.config.alias.value)
    requires o.config.define.Some? && UniqueKeys(o.config.define.value)
    ensures var b := GetBundling(o, install, tmp, cwd, esbuildDeps, process).0.value;
            b.options == o.(nodeModulesDir := Some(b.nodeModulesDir),
                            config := o.config.(outdir := Some(Show(b.dist)),
                                                entryPoints := Some(EntryPaths(o.entries.value, b.workDir, process))))
  {
    BuildEdit(o.config);
  }
}
