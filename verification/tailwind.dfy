/** The incremental Tailwind CSS cache of the esbuild Tailwind plugin.

    A `Root` caches, for one CSS file, a compiler handle, a scanner handle,
    the utility-class candidates seen so far and the last-seen modification
    time of every file the compilation depended on. Each `Generate` call
    either reuses the handles or rebuilds them, then either builds CSS or
    answers "passthrough", after which the plugin forgets the file.

    The Tailwind compiler, the candidate scanner, the CSS optimizer and
    `fs.stat` are injected through `Env`: `stat` is a snapshot of the file
    system (a path missing from it is one whose `stat` fails), and
    `compile`, `new Scanner`, `scan` and `build` stand for the library
    calls, each of which may throw. Asynchrony is not modelled: a call is
    one sequential step. */
module Tailwind {
  import opened Wrappers
  import opened Strings
  import opened OrderedMaps
  import opened JPaths
  import NodePaths

  /** The compiler feature bits the plugin inspects (`Features` of the
      Tailwind node package), as a set of flags. */
  datatype Feature = AtApply | AtImport | JsPluginCompat | ThemeFunction | Utilities | Variants

  /** The features whose absence makes the plugin pass the file through. */
  const ContentFeatures: set<Feature> := {AtApply, JsPluginCompat, ThemeFunction, Utilities}

  /** A scanner source `{ base, pattern, negated }`. */
  datatype SourceEntry = SourceEntry(base: string, pattern: string, negated: bool)

  /** `compiler.root`: `null`, the string `'none'`, or a declared source root. */
  datatype CompilerRoot = NullRoot | NoneRoot | Declared(base: string, pattern: string)

  /** A compiler object; `handle` stands for its identity. */
  datatype Compiler = Compiler(handle: nat, features: set<Feature>, root: CompilerRoot, sources: seq<SourceEntry>)

  datatype Scanner = Scanner(sources: seq<SourceEntry>)

  /** A recorded modification time: `null` when `stat` failed. */
  datatype Freshness = Unknown | Known(mtime: nat)

  type Deps = OMap<string, Freshness>

  /** What `compile` did: the dependencies it reported through
      `onDependency`, in order, and the compiler or the error it threw. */
  datatype Compiled = Compiled(dependencies: seq<string>, result: Result<Compiler>)

  /** `scannerError` is what `new Scanner({ sources })` throws for those
      sources, if anything. */
  datatype Env = Env(
    stat: map<string, nat>,
    compile: (string, string) -> Compiled,
    scannerError: seq<SourceEntry> -> Option<string>,
    scan: Scanner -> Result<seq<string>>,
    build: (Compiler, seq<string>) -> Result<string>)

  datatype Root = Root(
    id: string,
    sources: seq<SourceEntry>,
    base: string,
    pattern: string,
    compiler: Option<Compiler>,
    scanner: Option<Scanner>,
    candidates: seq<string>,
    deps: Deps)

  datatype Generated = Css(code: string) | Passthrough | Failed(error: string)

  datatype GenerateOutcome = GenerateOutcome(root: Root, result: Generated)

  /** JavaScript truthiness of an optional string. */
  predicate Truthy(v: Option<string>) {
    v.Some? && v.value != ""
  }

  const DefaultPattern := "**/*"

  /** `new Root(id, base, pattern, sources, false)`: base falls back to the
      working directory and pattern to every file. */
  function NewRoot(id: string, base: Option<string>, pattern: Option<string>, sources: seq<SourceEntry>, cwd: JPath): (r: Root)
    ensures r.id == id && r.sources == sources
    ensures Truthy(base) ==> r.base == base.value
    ensures !Truthy(base) ==> r.base == Show(cwd)
    ensures Truthy(pattern) ==> r.pattern == pattern.value
    ensures !Truthy(pattern) ==> r.pattern == DefaultPattern
    ensures r.compiler.None? && r.scanner.None? && r.candidates == [] && r.deps == []
  {
    Root(id, sources, if Truthy(base) then base.value else Show(cwd),
         if Truthy(pattern) then pattern.value else DefaultPattern, None, None, [], [])
  }

  // ---------------------------------------------------------------------
  // Helpers: file type and id to path
  // ---------------------------------------------------------------------

  /** `isCssFile`: the extension after the last dot of the base name is "css". */
  function IsCssFile(id: string): (b: bool)
    ensures b <==> var n := NodePaths.BaseName(id); |n| > 4 && EndsWith(n, ".css")
  {
    var e := NodePaths.ExtName(id);
    var n := NodePaths.BaseName(id);
    assert EndsWith(n, ".css") && |n| > 4 ==> e == ".css" by {
      if EndsWith(n, ".css") && |n| > 4 {
        assert n[|n| - 4] == '.' && n != "..";
        var k := LastIndexOf(n, '.');
        assert k == |n| - 4 by {
          assert forall i :: |n| - 4 < i < |n| ==> n[i] == ".css"[i - (|n| - 4)];
        }
      }
    }
    e == ".css"
  }

  predicate IsLineTerminator(c: char) {
    c == '\n' || c == '\r' || c == '\U{2028}' || c == '\U{2029}'
  }

  predicate NoLineTerminator(s: string) {
    forall i :: 0 <= i < |s| ==> !IsLineTerminator(s[i])
  }

  /** `id.replace(/\?.*$/, '')`: cut at the first "?" after which no line
      terminator follows (the regex's "." stops at line terminators and its
      "$" only matches at the very end). */
  function StripQuery(id: string): (r: string)
    ensures |r| <= |id| && r == id[..|r|]
    ensures r == id || (id[|r|] == '?' && NoLineTerminator(id[|r| + 1..]))
    ensures forall i :: 0 <= i < |r| && r[i] == '?' ==> !NoLineTerminator(id[i + 1..])
  {
    if id == [] then []
    else if id[0] == '?' && NoLineTerminator(id[1..]) then []
    else
      var rest := StripQuery(id[1..]);
      assert forall i :: 1 <= i <= |rest| ==> id[i + 1..] == id[1..][i..];
      [id[0]] + rest
  }

  /** `idToPath`: the query-less id resolved against the working directory. */
  function IdToPath(id: string, cwd: JPath): (p: string)
    requires cwd.absolute
  {
    Show(NodePaths.Resolve(cwd, StripQuery(id)))
  }

  // ---------------------------------------------------------------------
  // Build dependencies
  // ---------------------------------------------------------------------

  /** What `fs.stat(p)` yields: its mtime, or `null` when it throws. */
  function StatFreshness(p: string, stat: map<string, nat>): Freshness {
    if p in stat then Known(stat[p]) else Unknown
  }

  /** `addBuildDependency(p)`: record (or overwrite) `p`'s current mtime. */
  function AddBuildDependency(deps: Deps, p: string, stat: map<string, nat>): (r: Deps)
    ensures Get(r, p) == Some(StatFreshness(p, stat))
    ensures forall q :: q != p ==> Get(r, q) == Get(deps, q)
    ensures UniqueKeys(deps) ==> UniqueKeys(r)
    ensures |deps| <= |r| && forall i :: 0 <= i < |deps| ==> r[i].0 == deps[i].0
    ensures forall i :: 0 <= i < |r| ==> r[i] in deps || r[i] == (p, StatFreshness(p, stat))
  {
    var r := Put(deps, p, StatFreshness(p, stat));
    assert forall q :: Get(r, q) == if q == p then Some(StatFreshness(p, stat)) else Get(deps, q) by {
      forall q { GetPut(deps, p, StatFreshness(p, stat), q); }
    }
    assert UniqueKeys(deps) ==> UniqueKeys(r) by {
      if UniqueKeys(deps) { PutKeepsUnique(deps, p, StatFreshness(p, stat)); }
    }
    r
  }

  /** `onDependency` called once per reported path, in order. */
  function AddBuildDependencies(deps: Deps, ps: seq<string>, stat: map<string, nat>): (r: Deps)
    ensures forall q :: HasKey(r, q) <==> HasKey(deps, q) || q in ps
    ensures UniqueKeys(deps) ==> UniqueKeys(r)
    ensures |deps| <= |r| && forall i :: 0 <= i < |deps| ==> r[i].0 == deps[i].0
    ensures Consistent(deps, stat) ==> Consistent(r, stat)
    decreases |ps|
  {
    if ps == [] then deps
    else
      var d := AddBuildDependency(deps, ps[0], stat);
      AddOneKeys(deps, ps[0], stat);
      var r := AddBuildDependencies(d, ps[1..], stat);
      KeysThroughStep(deps, d, r, ps);
      r
  }

  /** One `addBuildDependency` adds its path to the keys and keeps the
      record consistent with `stat`. */
  lemma AddOneKeys(deps: Deps, p: string, stat: map<string, nat>)
    ensures forall q :: HasKey(AddBuildDependency(deps, p, stat), q) <==> HasKey(deps, q) || q == p
    ensures Consistent(deps, stat) ==> Consistent(AddBuildDependency(deps, p, stat), stat)
  {
    var d := AddBuildDependency(deps, p, stat);
    forall q
      ensures HasKey(d, q) <==> HasKey(deps, q) || q == p
    {
      if q != p { assert Get(d, q) == Get(deps, q); }
    }
    if Consistent(deps, stat) {
      forall i | 0 <= i < |d|
        ensures d[i].1 == StatFreshness(d[i].0, stat)
      {
        if d[i] in deps {
          var j :| 0 <= j < |deps| && deps[j] == d[i];
        }
      }
    }
  }

  lemma KeysThroughStep(deps: Deps, d: Deps, r: Deps, ps: seq<string>)
    requires ps != []
    requires forall q :: HasKey(d, q) <==> HasKey(deps, q) || q == ps[0]
    requires forall q :: HasKey(r, q) <==> HasKey(d, q) || q in ps[1..]
    ensures forall q :: HasKey(r, q) <==> HasKey(deps, q) || q in ps
  {
    forall q
      ensures HasKey(r, q) <==> HasKey(deps, q) || q in ps
    {
      assert q in ps <==> q == ps[0] || q in ps[1..];
    }
  }

  /** Every recorded mtime is what `stat` reports now. */
  predicate Consistent(deps: Deps, stat: map<string, nat>) {
    forall i :: 0 <= i < |deps| ==> deps[i].1 == StatFreshness(deps[i].0, stat)
  }

  /** One entry asks for a rebuild: its mtime is unknown, its file can no
      longer be stat'ed, or it is newer now. */
  predicate EntryStale(p: string, f: Freshness, stat: map<string, nat>) {
    f.Unknown? || p !in stat || stat[p] > f.mtime
  }

  predicate Stale(deps: Deps, stat: map<string, nat>) {
    exists i :: 0 <= i < |deps| && EntryStale(deps[i].0, deps[i].1, stat)
  }

  /** `requiresBuild`: walks the dependencies in insertion order and stops at
      the first stale one. */
  method RequiresBuild(deps: Deps, stat: map<string, nat>) returns (stale: bool)
    ensures stale <==> Stale(deps, stat)
    ensures deps == [] ==> !stale
  {
    var i := 0;
    while i < |deps|
      invariant 0 <= i <= |deps|
      invariant forall j :: 0 <= j < i ==> !EntryStale(deps[j].0, deps[j].1, stat)
    {
      var (p, mtime) := deps[i];
      if mtime.Unknown? {
        return true;
      }
      if p !in stat {
        return true;
      }
      if stat[p] > mtime.mtime {
        return true;
      }
      i := i + 1;
    }
    return false;
  }

  /** Dependencies recorded against the current snapshot are stale exactly
      when one of their files cannot be stat'ed. */
  lemma ConsistentStale(deps: Deps, stat: map<string, nat>)
    requires Consistent(deps, stat)
    ensures Stale(deps, stat) <==> exists i :: 0 <= i < |deps| && deps[i].0 !in stat
  {
    if Stale(deps, stat) {
      var i :| 0 <= i < |deps| && EntryStale(deps[i].0, deps[i].1, stat);
      assert deps[i].0 !in stat;
    }
    if exists i :: 0 <= i < |deps| && deps[i].0 !in stat {
      var i :| 0 <= i < |deps| && deps[i].0 !in stat;
      assert EntryStale(deps[i].0, deps[i].1, stat);
    }
  }

  // ---------------------------------------------------------------------
  // Scanner sources and candidates
  // ---------------------------------------------------------------------

  /** The leading sources chosen by the compiler's root. */
  function RootSources(root: CompilerRoot, base: string, pattern: string): seq<SourceEntry> {
    var baseSource := SourceEntry(base, pattern, false);
    match root
    case NoneRoot => []
    case NullRoot => [baseSource]
    case Declared(b, p) => [SourceEntry(b, p, false), baseSource]
  }

  /** The scanner's source list: the root's sources, then the configured
      ones, then the compiler's `@source` entries rebased onto `base`. */
  function ScannerSources(root: CompilerRoot, base: string, pattern: string,
                          configured: seq<SourceEntry>, found: seq<SourceEntry>): (r: seq<SourceEntry>)
    ensures |r| == |RootSources(root, base, pattern)| + |configured| + |found|
    ensures root.NoneRoot? ==> |RootSources(root, base, pattern)| == 0
    ensures root.NullRoot? ==> |RootSources(root, base, pattern)| == 1 && r[0] == SourceEntry(base, pattern, false)
    ensures root.Declared? ==> |RootSources(root, base, pattern)| == 2
    ensures root.Declared? ==> r[0] == SourceEntry(root.base, root.pattern, false) && r[1] == SourceEntry(base, pattern, false)
    ensures forall i :: 0 <= i < |configured| ==> r[|RootSources(root, base, pattern)| + i] == configured[i]
    ensures forall i :: 0 <= i < |found| ==>
      r[|RootSources(root, base, pattern)| + |configured| + i] == found[i].(base := base)
  {
    var a := RootSources(root, base, pattern);
    var c := Rebase(found, base);
    RootSourcesShape(root, base, pattern);
    ThreePartIndex(a, configured, c);
    a + configured + c
  }

  lemma RootSourcesShape(root: CompilerRoot, base: string, pattern: string)
    ensures var a := RootSources(root, base, pattern);
      && (root.NoneRoot? ==> |a| == 0)
      && (root.NullRoot? ==> |a| == 1 && a[0] == SourceEntry(base, pattern, false))
      && (root.Declared? ==> |a| == 2 && a[0] == SourceEntry(root.base, root.pattern, false)
                                      && a[1] == SourceEntry(base, pattern, false))
  {
  }

  /** Where the middle and last parts of a three-part concatenation sit. */
  lemma ThreePartIndex<T>(a: seq<T>, b: seq<T>, c: seq<T>)
    ensures |a + b + c| == |a| + |b| + |c|
    ensures forall i :: 0 <= i < |a| ==> (a + b + c)[i] == a[i]
    ensures forall i :: 0 <= i < |b| ==> (a + b + c)[|a| + i] == b[i]
    ensures forall i :: 0 <= i < |c| ==> (a + b + c)[|a| + |b| + i] == c[i]
  {
  }

  function Rebase(found: seq<SourceEntry>, base: string): (r: seq<SourceEntry>)
    ensures |r| == |found|
    ensures forall i :: 0 <= i < |found| ==> r[i] == found[i].(base := base)
  {
    if found == [] then [] else [found[0].(base := base)] + Rebase(found[1..], base)
  }

  predicate NoDuplicates(s: seq<string>) {
    forall i, j :: 0 <= i < j < |s| ==> s[i] != s[j]
  }

  /** `candidates.add(c)` for each scanned candidate: a JavaScript `Set`
      keeps first-insertion order and ignores repeats. */
  function AddCandidates(cands: seq<string>, found: seq<string>): (r: seq<string>)
    ensures |cands| <= |r| && r[..|cands|] == cands
    ensures forall x :: x in r <==> x in cands || x in found
    ensures NoDuplicates(cands) ==> NoDuplicates(r)
    decreases |found|
  {
    if found == [] then cands
    else if found[0] in cands then AddCandidates(cands, found[1..])
    else
      var r := AddCandidates(cands + [found[0]], found[1..]);
      assert (cands + [found[0]])[..|cands|] == cands;
      r
  }

  // ---------------------------------------------------------------------
  // generate
  // ---------------------------------------------------------------------

  /** The reuse test: a handle is missing or a dependency is stale. */
  predicate Rebuilds(r: Root, stat: map<string, nat>) {
    r.compiler.None? || r.scanner.None? || Stale(r.deps, stat)
  }

  /** The part of `generate` after the handles are settled: pass through
      when no content feature is used, otherwise scan (only with the
      Utilities feature) and build from all candidates seen so far. A scan
      that throws adds no candidate; a build that throws comes after the
      scanned candidates were added. */
  function Emit(r: Root, env: Env): (out: GenerateOutcome)
    requires r.compiler.Some? && r.scanner.Some?
    ensures out.root == r.(candidates := out.root.candidates)
    ensures out.result.Passthrough? <==> r.compiler.value.features * ContentFeatures == {}
    ensures Utilities in r.compiler.value.features && env.scan(r.scanner.value).Err? ==>
      out.result.Passthrough? || (out.result == Failed(env.scan(r.scanner.value).error) && out.root == r)
    ensures Utilities in r.compiler.value.features && env.scan(r.scanner.value).Ok? && !out.result.Passthrough?
            ==> out.root.candidates == AddCandidates(r.candidates, env.scan(r.scanner.value).value)
    ensures Utilities !in r.compiler.value.features ==> out.root.candidates == r.candidates
    ensures out.result.Css? ==> env.build(r.compiler.value, out.root.candidates) == Ok(out.result.code)
    ensures out.result.Failed? ==>
      (Utilities in r.compiler.value.features && env.scan(r.scanner.value).Err?)
      || env.build(r.compiler.value, out.root.candidates) == Err(out.result.error)
  {
    var c := r.compiler.value;
    var sc := r.scanner.value;
    if c.features * ContentFeatures == {} then GenerateOutcome(r, Passthrough)
    else if Utilities in c.features && env.scan(sc).Err? then GenerateOutcome(r, Failed(env.scan(sc).error))
    else
      var cands := if Utilities in c.features then AddCandidates(r.candidates, env.scan(sc).value)
                   else r.candidates;
      match env.build(c, cands)
      case Ok(code) => GenerateOutcome(r.(candidates := cands), Css(code))
      case Err(e) => GenerateOutcome(r.(candidates := cands), Failed(e))
  }

  /** The dependency map a rebuild starts from: only the input file. */
  function FreshDeps(inputPath: string, compiled: Compiled, stat: map<string, nat>): (d: Deps)
    ensures UniqueKeys(d) && Consistent(d, stat)
    ensures |d| >= 1 && d[0].0 == inputPath
    ensures forall q :: HasKey(d, q) <==> q == inputPath || q in compiled.dependencies
  {
    var d0 := AddBuildDependency([], inputPath, stat);
    assert HasKey(d0, inputPath) by { assert Get(d0, inputPath).Some?; }
    assert forall q :: HasKey(d0, q) ==> q == inputPath;
    AddBuildDependencies(d0, compiled.dependencies, stat)
  }

  /** A throw inside `generate`: the root as the throw leaves it, with its
      handles dropped when `dropOnFailure` holds. */
  function Thrown(r: Root, e: string, dropOnFailure: bool): (out: GenerateOutcome)
    ensures out.result == Failed(e)
    ensures out.root == if dropOnFailure then r.(compiler := None, scanner := None) else r
  {
    GenerateOutcome(if dropOnFailure then r.(compiler := None, scanner := None) else r, Failed(e))
  }

  /** `Emit` over settled handles, dropping them after a throw when
      `dropOnFailure` holds. */
  function Settled(r: Root, env: Env, dropOnFailure: bool): (out: GenerateOutcome)
    requires r.compiler.Some? && r.scanner.Some?
    ensures out.root.id == r.id && out.root.sources == r.sources
    ensures out.root.base == r.base && out.root.pattern == r.pattern && out.root.deps == r.deps
    ensures |r.candidates| <= |out.root.candidates| && out.root.candidates[..|r.candidates|] == r.candidates
    ensures out.result == Emit(r, env).result
    ensures !dropOnFailure || !out.result.Failed? ==> out == Emit(r, env)
    ensures dropOnFailure && out.result.Failed? ==> out.root.compiler.None? && out.root.scanner.None?
    ensures out.result.Css? ==> out.root.compiler == r.compiler
    ensures out.result.Css? ==> env.build(r.compiler.value, out.root.candidates) == Ok(out.result.code)
    ensures out.result.Css? && Utilities !in r.compiler.value.features ==> out.root.candidates == r.candidates
    ensures NoDuplicates(r.candidates) ==> NoDuplicates(out.root.candidates)
  {
    var out := Emit(r, env);
    EmitKeeps(r, env);
    if out.result.Failed? && dropOnFailure then Thrown(out.root, out.result.error, true) else out
  }

  /** `generate` rebuilds and the compile throws. */
  predicate CompileFails(r: Root, content: string, env: Env, cwd: JPath)
    requires cwd.absolute
  {
    Rebuilds(r, env.stat) && env.compile(content, NodePaths.DirName(IdToPath(r.id, cwd))).result.Err?
  }

  /** `Root.generate`. A throw of `compile`, of `new Scanner`, of `scan` or
      of `build` ends the call with the root as far as it got: `compile`'s
      result is assigned before the scanner is made, and the candidates
      before `build` runs. The handles are then dropped when
      `dropOnFailure` holds; the plugin as written keeps them (see
      `GenerateAsWritten`). */
  function GenerateWith(r: Root, content: string, env: Env, cwd: JPath, dropOnFailure: bool): (out: GenerateOutcome)
    requires cwd.absolute
    ensures out.root.id == r.id && out.root.sources == r.sources
    ensures out.root.base == r.base && out.root.pattern == r.pattern
    ensures |r.candidates| <= |out.root.candidates| && out.root.candidates[..|r.candidates|] == r.candidates
  {
    var inputPath := IdToPath(r.id, cwd);
    if Rebuilds(r, env.stat) then
      var compiled := env.compile(content, NodePaths.DirName(inputPath));
      var deps := FreshDeps(inputPath, compiled, env.stat);
      match compiled.result
      case Err(e) => Thrown(r.(deps := deps), e, dropOnFailure)
      case Ok(c) =>
        var sources := ScannerSources(c.root, r.base, r.pattern, r.sources, c.sources);
        match env.scannerError(sources)
        case Some(e) => Thrown(r.(compiler := Some(c), deps := deps), e, dropOnFailure)
        case None => Settled(r.(compiler := Some(c), scanner := Some(Scanner(sources)), deps := deps), env, dropOnFailure)
    else
      Settled(r, env, dropOnFailure)
  }

  /** `Emit` keeps the root's identity and settings and only adds
      candidates. */
  lemma EmitKeeps(r: Root, env: Env)
    requires r.compiler.Some? && r.scanner.Some?
    ensures var out := Emit(r, env);
      && out.root.id == r.id && out.root.sources == r.sources
      && out.root.base == r.base && out.root.pattern == r.pattern
      && |r.candidates| <= |out.root.candidates| && out.root.candidates[..|r.candidates|] == r.candidates
  {
  }

  /** `Root.generate` corrected: any throw forgets the handles, so the next
      call compiles again. */
  function Generate(r: Root, content: string, env: Env, cwd: JPath): (out: GenerateOutcome)
    requires cwd.absolute
    ensures out.result.Failed? ==> out.root.compiler.None? && Rebuilds(out.root, env.stat)
    ensures out.result.Css? || out.result.Passthrough? ==> out.root.compiler.Some? && out.root.scanner.Some?
  {
    GenerateWith(r, content, env, cwd, true)
  }

  /** `Root.generate` exactly as the plugin writes it: a failed compile
      leaves the previous handles in place, and any later throw leaves a
      compiler behind. */
  function GenerateAsWritten(r: Root, content: string, env: Env, cwd: JPath): (out: GenerateOutcome)
    requires cwd.absolute
    ensures CompileFails(r, content, env, cwd) ==>
      out.result.Failed? && out.root.compiler == r.compiler && out.root.scanner == r.scanner
    ensures out.result.Failed? && !CompileFails(r, content, env, cwd) ==> out.root.compiler.Some?
    ensures out.result.Css? || out.result.Passthrough? ==> out.root.compiler.Some? && out.root.scanner.Some?
  {
    AsWrittenHandles(r, content, env, cwd);
    GenerateWith(r, content, env, cwd, false)
  }

  /** The handles the written `generate` leaves, case by case. */
  lemma AsWrittenHandles(r: Root, content: string, env: Env, cwd: JPath)
    requires cwd.absolute
    ensures var out := GenerateWith(r, content, env, cwd, false);
      && (CompileFails(r, content, env, cwd) ==>
            out.result.Failed? && out.root.compiler == r.compiler && out.root.scanner == r.scanner)
      && (out.result.Failed? && !CompileFails(r, content, env, cwd) ==> out.root.compiler.Some?)
      && (out.result.Css? || out.result.Passthrough? ==> out.root.compiler.Some? && out.root.scanner.Some?)
  {
    var inputPath := IdToPath(r.id, cwd);
    if Rebuilds(r, env.stat) {
      var compiled := env.compile(content, NodePaths.DirName(inputPath));
      var deps := FreshDeps(inputPath, compiled, env.stat);
      match compiled.result
      case Err(e) =>
        assert GenerateWith(r, content, env, cwd, false) == Thrown(r.(deps := deps), e, false);
      case Ok(c) =>
        var sources := ScannerSources(c.root, r.base, r.pattern, r.sources, c.sources);
        match env.scannerError(sources)
        case Some(e) =>
          assert GenerateWith(r, content, env, cwd, false) == Thrown(r.(compiler := Some(c), deps := deps), e, false);
        case None =>
          var r' := r.(compiler := Some(c), scanner := Some(Scanner(sources)), deps := deps);
          assert GenerateWith(r, content, env, cwd, false) == Settled(r', env, false);
    } else {
      assert GenerateWith(r, content, env, cwd, false) == Settled(r, env, false);
    }
  }

  /** Without a rebuild the handles and the dependency map are reused as
      they are: nothing is compiled, so a failure can only come from
      `scan` or `build`, and only the corrected `generate` then drops the
      handles. */
  lemma GenerateReuses(r: Root, content: string, env: Env, cwd: JPath)
    requires cwd.absolute
    requires !Rebuilds(r, env.stat)
    ensures var out := Generate(r, content, env, cwd);
      && out.root.deps == r.deps
      && (!out.result.Failed? ==> out.root.compiler == r.compiler && out.root.scanner == r.scanner)
      && (out.result.Failed? ==>
            (Utilities in r.compiler.value.features && env.scan(r.scanner.value).Err?)
            || env.build(r.compiler.value, out.root.candidates) == Err(out.result.error))
    ensures var out := GenerateAsWritten(r, content, env, cwd);
      out.root.compiler == r.compiler && out.root.scanner == r.scanner && out.root.deps == r.deps
  {
    var out := Emit(r, env);
    assert Generate(r, content, env, cwd) == Settled(r, env, true);
    assert GenerateAsWritten(r, content, env, cwd) == out;
  }

  /** A rebuild installs the fresh dependency map in either variant,
      whatever is thrown afterwards. */
  lemma RebuildDeps(r: Root, content: string, env: Env, cwd: JPath, dropOnFailure: bool)
    requires cwd.absolute
    requires Rebuilds(r, env.stat)
    ensures var inputPath := IdToPath(r.id, cwd);
      var compiled := env.compile(content, NodePaths.DirName(inputPath));
      GenerateWith(r, content, env, cwd, dropOnFailure).root.deps == FreshDeps(inputPath, compiled, env.stat)
  {
    var inputPath := IdToPath(r.id, cwd);
    var compiled := env.compile(content, NodePaths.DirName(inputPath));
    var deps := FreshDeps(inputPath, compiled, env.stat);
    match compiled.result
    case Err(e) =>
      assert GenerateWith(r, content, env, cwd, dropOnFailure) == Thrown(r.(deps := deps), e, dropOnFailure);
    case Ok(c) =>
      var sources := ScannerSources(c.root, r.base, r.pattern, r.sources, c.sources);
      match env.scannerError(sources)
      case Some(e) =>
        assert GenerateWith(r, content, env, cwd, dropOnFailure)
          == Thrown(r.(compiler := Some(c), deps := deps), e, dropOnFailure);
      case None =>
        var r' := r.(compiler := Some(c), scanner := Some(Scanner(sources)), deps := deps);
        assert GenerateWith(r, content, env, cwd, dropOnFailure) == Settled(r', env, dropOnFailure);
  }

  /** A rebuild replaces the dependency map: afterwards it holds exactly
      the input file, first, and the files the compiler reported, each with
      its current mtime. A compile that throws, or a scanner that cannot be
      made, fails the call; otherwise the handles are the new compiler and
      a scanner over `ScannerSources`, unless `scan` or `build` throws. */
  lemma GenerateRebuilds(r: Root, content: string, env: Env, cwd: JPath)
    requires cwd.absolute
    requires Rebuilds(r, env.stat)
    ensures var inputPath := IdToPath(r.id, cwd);
      var compiled := env.compile(content, NodePaths.DirName(inputPath));
      var out := Generate(r, content, env, cwd);
      && UniqueKeys(out.root.deps) && Consistent(out.root.deps, env.stat)
      && |out.root.deps| >= 1 && out.root.deps[0].0 == inputPath
      && (forall q :: HasKey(out.root.deps, q) <==> q == inputPath || q in compiled.dependencies)
    ensures var compiled := env.compile(content, NodePaths.DirName(IdToPath(r.id, cwd)));
      var out := Generate(r, content, env, cwd);
      compiled.result.Err? ==> out.result == Failed(compiled.result.error)
    ensures var compiled := env.compile(content, NodePaths.DirName(IdToPath(r.id, cwd)));
      var out := Generate(r, content, env, cwd);
      compiled.result.Ok? ==>
        var c := compiled.result.value;
        var sources := ScannerSources(c.root, r.base, r.pattern, r.sources, c.sources);
        && (env.scannerError(sources).Some? ==> out.result == Failed(env.scannerError(sources).value))
        && (env.scannerError(sources).None? && !out.result.Failed? ==>
              out.root.compiler == Some(c) && out.root.scanner == Some(Scanner(sources)))
  {
    var inputPath := IdToPath(r.id, cwd);
    var compiled := env.compile(content, NodePaths.DirName(inputPath));
    var deps := FreshDeps(inputPath, compiled, env.stat);
    RebuildDeps(r, content, env, cwd, true);
    match compiled.result
    case Err(e) =>
      assert Generate(r, content, env, cwd) == Thrown(r.(deps := deps), e, true);
    case Ok(c) =>
      var sources := ScannerSources(c.root, r.base, r.pattern, r.sources, c.sources);
      match env.scannerError(sources)
      case Some(e) =>
        assert Generate(r, content, env, cwd) == Thrown(r.(compiler := Some(c), deps := deps), e, true);
      case None =>
        var r' := r.(compiler := Some(c), scanner := Some(Scanner(sources)), deps := deps);
        assert Generate(r, content, env, cwd) == Settled(r', env, true);
  }

  /** The candidate facts of `GenerateCandidates`, for either variant. */
  lemma GenerateWithCandidates(r: Root, content: string, env: Env, cwd: JPath, dropOnFailure: bool)
    requires cwd.absolute
    ensures var out := GenerateWith(r, content, env, cwd, dropOnFailure);
      && (out.result.Css? ==>
            (out.root.compiler.Some? && env.build(out.root.compiler.value, out.root.candidates) == Ok(out.result.code)))
      && (out.result.Css? && Utilities !in out.root.compiler.value.features ==> out.root.candidates == r.candidates)
      && (NoDuplicates(r.candidates) ==> NoDuplicates(out.root.candidates))
  {
    var inputPath := IdToPath(r.id, cwd);
    if Rebuilds(r, env.stat) {
      var compiled := env.compile(content, NodePaths.DirName(inputPath));
      var deps := FreshDeps(inputPath, compiled, env.stat);
      match compiled.result
      case Err(e) =>
      case Ok(c) =>
        var sources := ScannerSources(c.root, r.base, r.pattern, r.sources, c.sources);
        match env.scannerError(sources)
        case Some(e) =>
        case None =>
          var r' := r.(compiler := Some(c), scanner := Some(Scanner(sources)), deps := deps);
          assert GenerateWith(r, content, env, cwd, dropOnFailure) == Settled(r', env, dropOnFailure);
    }
  }

  /** Right after a rebuild, the same file-system snapshot asks for another
      rebuild exactly when one of the recorded files cannot be stat'ed. */
  lemma RebuildThenFresh(r: Root, content: string, env: Env, cwd: JPath)
    requires cwd.absolute
    requires Rebuilds(r, env.stat)
    ensures var out := Generate(r, content, env, cwd);
      out.result.Css? ==>
        (Rebuilds(out.root, env.stat) <==> exists i :: 0 <= i < |out.root.deps| && out.root.deps[i].0 !in env.stat)
  {
    var out := Generate(r, content, env, cwd);
    var compiled := env.compile(content, NodePaths.DirName(IdToPath(r.id, cwd)));
    RebuildDeps(r, content, env, cwd, true);
    assert Consistent(out.root.deps, env.stat);
    ConsistentStale(out.root.deps, env.stat);
  }

  /** `generate` answers "passthrough" exactly when the compiler in use has
      none of the content features. */
  lemma GeneratePassthrough(r: Root, content: string, env: Env, cwd: JPath)
    requires cwd.absolute
    ensures var out := Generate(r, content, env, cwd);
      !out.result.Failed? ==>
        (out.result.Passthrough? <==> out.root.compiler.value.features * ContentFeatures == {})
  {
  }

  /** Candidates only grow; they grow only when the compiler uses the
      Utilities feature; and the CSS is built from all of them. */
  lemma GenerateCandidates(r: Root, content: string, env: Env, cwd: JPath)
    requires cwd.absolute
    ensures var out := Generate(r, content, env, cwd);
      && out.root.candidates[..|r.candidates|] == r.candidates
      && (forall x :: x in r.candidates ==> x in out.root.candidates)
      && (out.result.Css? ==> env.build(out.root.compiler.value, out.root.candidates) == Ok(out.result.code))
      && (out.result.Css? && Utilities !in out.root.compiler.value.features ==> out.root.candidates == r.candidates)
      && (NoDuplicates(r.candidates) ==> NoDuplicates(out.root.candidates))
  {
    var out := Generate(r, content, env, cwd);
    GenerateWithCandidates(r, content, env, cwd, true);
    assert forall x :: x in r.candidates ==> x in out.root.candidates by {
      forall x | x in r.candidates ensures x in out.root.candidates {
        var i :| 0 <= i < |r.candidates| && r.candidates[i] == x;
        assert out.root.candidates[i] == x;
      }
    }
  }

  // ---------------------------------------------------------------------
  // The registry and the plugin
  // ---------------------------------------------------------------------

  /** `DefaultMap.get`: the stored root, or a new one from `make`, stored. */
  function RootsGet(roots: OMap<string, Root>, key: string, make: string -> Root): (res: (Root, OMap<string, Root>))
    ensures HasKey(roots, key) ==> res.1 == roots && Get(roots, key) == Some(res.0)
    ensures !HasKey(roots, key) ==> res.0 == make(key) && res.1 == roots + [(key, res.0)]
    ensures HasKey(res.1, key) && Get(res.1, key) == Some(res.0)
  {
    match Get(roots, key)
    case Some(v) => (v, roots)
    case None =>
      var m := Put(roots, key, make(key));
      GetPut(roots, key, make(key), key);
      (make(key), m)
  }

  /** A second `get` of the same key neither calls the factory nor changes
      the map, and returns the same root. */
  lemma RootsGetOnce(roots: OMap<string, Root>, key: string, make: string -> Root, make': string -> Root)
    ensures var (v, m) := RootsGet(roots, key, make);
      RootsGet(m, key, make') == (v, m)
  {
  }

  /** A JavaScript value, as far as the plugin's options can hold one. */
  datatype JsValue = Undefined | Null | Bool(b: bool) | Num(n: int) | Str(s: string) | Object(fields: map<string, JsValue>)

  datatype BaseOptions = BaseOptions(base: Option<string>, pattern: Option<string>)

  datatype PluginOptions = PluginOptions(optimize: JsValue, sources: Option<seq<SourceEntry>>, base: Option<BaseOptions>)

  datatype Plugin = Plugin(
    shouldOptimize: bool,
    minify: bool,
    sources: seq<SourceEntry>,
    base: BaseOptions,
    roots: OMap<string, Root>)

  /** `esbuildPluginTailwind(opts)`: optimize unless `optimize` is `false`;
      minify unless `optimize` is an object whose `minify` is `false`;
      `optimize: null` is an object to `typeof`, so reading its `minify`
      throws a TypeError. */
  function CreatePlugin(opts: PluginOptions): (r: Result<Plugin>)
    ensures r.Err? <==> opts.optimize == Null
    ensures r.Ok? ==> (r.value.shouldOptimize <==> opts.optimize != Bool(false))
    ensures r.Ok? ==> (!r.value.minify <==>
              opts.optimize.Object? && "minify" in opts.optimize.fields && opts.optimize.fields["minify"] == Bool(false))
    ensures r.Ok? ==> r.value.roots == []
    ensures r.Ok? ==> r.value.sources == opts.sources.GetOr([])
  {
    var shouldOptimize := opts.optimize != Bool(false);
    var minify :- match opts.optimize
      case Null => Err("TypeError: Cannot read properties of null (reading 'minify')")
      case Object(f) => Ok(!("minify" in f && f["minify"] == Bool(false)))
      case _ => Ok(true);
    Ok(Plugin(shouldOptimize, minify, opts.sources.GetOr([]), opts.base.GetOr(BaseOptions(None, None)), []))
  }

  /** What the `onLoad` callback answers. */
  datatype LoadResult =
    | Unhandled
    | Loaded(contents: string, loader: string, resolveDir: Option<string>)
    | LoadError(error: string)

  /** The factory the plugin gives its `DefaultMap`. */
  function RootFactory(pl: Plugin, cwd: JPath): string -> Root {
    id => NewRoot(id, pl.base.base, pl.base.pattern, pl.sources, cwd)
  }

  /** The `onLoad` callback for `path`, whose text (or read error) is
      `source`; `optimize` stands for the CSS optimizer, which may throw.
      The root fetched from the registry is changed in place, so whatever
      `generate` leaves in it stays registered, even when the optimizer
      throws afterwards; `dropOnFailure` selects the `generate` variant. */
  function OnLoadWith(pl: Plugin, path: string, source: Result<string>, env: Env,
                      optimize: (string, bool) -> Result<string>, cwd: JPath, dropOnFailure: bool): (res: (Plugin, LoadResult))
    requires cwd.absolute
    ensures !IsCssFile(path) ==> res == (pl, Unhandled)
    ensures res.1.Loaded? ==> res.1.loader == "css"
    ensures source.Err? ==> res.0 == pl
    // a load error for a CSS file comes from a throw in `generate` or in
    // the optimizer, and the root as `generate` left it is stored back
    // under the path
    ensures IsCssFile(path) && source.Ok? && res.1.LoadError? ==>
      var (root, roots) := RootsGet(pl.roots, path, RootFactory(pl, cwd));
      var out := GenerateWith(root, source.value, env, cwd, dropOnFailure);
      && res.0.roots == Put(roots, path, out.root)
      && (out.result.Failed? || (out.result.Css? && pl.shouldOptimize && optimize(out.result.code, pl.minify).Err?))
    // a passthrough hands the text back and evicts the root
    ensures IsCssFile(path) && source.Ok? ==>
      var (root, roots) := RootsGet(pl.roots, path, RootFactory(pl, cwd));
      GenerateWith(root, source.value, env, cwd, dropOnFailure).result.Passthrough? ==>
        res == (pl.(roots := Remove(roots, path)), Loaded(source.value, "css", None))
  {
    if !IsCssFile(path) then (pl, Unhandled)
    else match source
      case Err(e) => (pl, LoadError(e))
      case Ok(text) =>
        var (root, roots) := RootsGet(pl.roots, path, RootFactory(pl, cwd));
        var out := GenerateWith(root, text, env, cwd, dropOnFailure);
        var stored := pl.(roots := Put(roots, path, out.root));
        match out.result
        case Failed(e) => (stored, LoadError(e))
        case Passthrough => (pl.(roots := Remove(roots, path)), Loaded(text, "css", None))
        case Css(code) =>
          if !pl.shouldOptimize then (stored, Loaded(code, "css", Some(NodePaths.DirName(path))))
          else match optimize(code, pl.minify)
            case Err(e) => (stored, LoadError(e))
            case Ok(optimized) => (stored, Loaded(optimized, "css", Some(NodePaths.DirName(path))))
  }

  /** The `onLoad` callback as the plugin writes it: after any load error
      the registered root is the one `generate` left, so after a failed
      compile it still holds the compiler and scanner it had before the
      call. */
  function OnLoad(pl: Plugin, path: string, source: Result<string>, env: Env,
                  optimize: (string, bool) -> Result<string>, cwd: JPath): (res: (Plugin, LoadResult))
    requires cwd.absolute
    ensures !IsCssFile(path) ==> res == (pl, Unhandled)
    ensures res.1.Loaded? ==> res.1.loader == "css"
    ensures source.Err? ==> res.0 == pl
    ensures IsCssFile(path) && source.Ok? && res.1.LoadError? ==>
      var root := RootsGet(pl.roots, path, RootFactory(pl, cwd)).0;
      Get(res.0.roots, path) == Some(GenerateAsWritten(root, source.value, env, cwd).root)
    ensures IsCssFile(path) && source.Ok? && res.1.LoadError? ==>
      var root := RootsGet(pl.roots, path, RootFactory(pl, cwd)).0;
      CompileFails(root, source.value, env, cwd) ==>
        && Get(res.0.roots, path).Some?
        && Get(res.0.roots, path).value.compiler == root.compiler
        && Get(res.0.roots, path).value.scanner == root.scanner
  {
    if IsCssFile(path) && source.Ok? then
      var (root, roots) := RootsGet(pl.roots, path, RootFactory(pl, cwd));
      var out := GenerateWith(root, source.value, env, cwd, false);
      assert out == GenerateAsWritten(root, source.value, env, cwd);
      GetPut(roots, path, out.root, path);
      OnLoadWith(pl, path, source, env, optimize, cwd, false)
    else
      OnLoadWith(pl, path, source, env, optimize, cwd, false)
  }

  /** The `onLoad` callback over the corrected `generate`: after a throw in
      `generate` the registered root holds no compiler, so the next load
      compiles again. */
  function FixedOnLoad(pl: Plugin, path: string, source: Result<string>, env: Env,
                       optimize: (string, bool) -> Result<string>, cwd: JPath): (res: (Plugin, LoadResult))
    requires cwd.absolute
    ensures !IsCssFile(path) ==> res == (pl, Unhandled)
    ensures res.1.Loaded? ==> res.1.loader == "css"
    ensures source.Err? ==> res.0 == pl
    ensures IsCssFile(path) && source.Ok? && res.1.LoadError? ==>
      var root := RootsGet(pl.roots, path, RootFactory(pl, cwd)).0;
      Generate(root, source.value, env, cwd).result.Failed? ==>
        && Get(res.0.roots, path).Some?
        && Get(res.0.roots, path).value.compiler.None?
  {
    if IsCssFile(path) && source.Ok? then
      var (root, roots) := RootsGet(pl.roots, path, RootFactory(pl, cwd));
      var out := GenerateWith(root, source.value, env, cwd, true);
      assert out == Generate(root, source.value, env, cwd);
      GetPut(roots, path, out.root, path);
      OnLoadWith(pl, path, source, env, optimize, cwd, true)
    else
      OnLoadWith(pl, path, source, env, optimize, cwd, true)
  }

  /** A passthrough answer hands back the file untouched and evicts its
      root, so the next load starts from a fresh one. */
  lemma OnLoadPassthroughEvicts(pl: Plugin, path: string, text: string, env: Env,
                                optimize: (string, bool) -> Result<string>, cwd: JPath)
    requires cwd.absolute
    requires UniqueKeys(pl.roots)
    requires IsCssFile(path)
    ensures var (root, _) := RootsGet(pl.roots, path, RootFactory(pl, cwd));
      var res := OnLoad(pl, path, Ok(text), env, optimize, cwd);
      GenerateAsWritten(root, text, env, cwd).result.Passthrough? ==>
        && res.1 == Loaded(text, "css", None)
        && !HasKey(res.0.roots, path)
        && (forall q :: q != path ==> Get(res.0.roots, q) == Get(pl.roots, q))
  {
    var (root, roots) := RootsGet(pl.roots, path, RootFactory(pl, cwd));
    if !HasKey(pl.roots, path) {
      PutKeepsUnique(pl.roots, path, root);
    }
    assert UniqueKeys(roots);
    forall q ensures Get(Remove(roots, path), q) == if q == path then None else Get(pl.roots, q) {
      GetRemove(roots, path, q);
      if !HasKey(pl.roots, path) { GetPut(pl.roots, path, root, q); }
    }
    assert Get(Remove(roots, path), path).None?;
    OnLoadAsWritten(pl, path, Ok(text), env, optimize, cwd);
    assert GenerateWith(root, text, env, cwd, false) == GenerateAsWritten(root, text, env, cwd);
  }

  /** A successful build is stored back under the path, and its CSS goes
      through the optimizer exactly when optimization is on; an optimizer
      that throws turns the load into an error but leaves the root stored. */
  lemma OnLoadCss(pl: Plugin, path: string, text: string, env: Env,
                  optimize: (string, bool) -> Result<string>, cwd: JPath)
    requires cwd.absolute
    requires IsCssFile(path)
    ensures var (root, _) := RootsGet(pl.roots, path, RootFactory(pl, cwd));
      var out := GenerateAsWritten(root, text, env, cwd);
      var res := OnLoad(pl, path, Ok(text), env, optimize, cwd);
      out.result.Css? ==>
        && Get(res.0.roots, path) == Some(out.root)
        && (!pl.shouldOptimize ==> res.1 == Loaded(out.result.code, "css", Some(NodePaths.DirName(path))))
        && (pl.shouldOptimize && optimize(out.result.code, pl.minify).Ok? ==>
              res.1 == Loaded(optimize(out.result.code, pl.minify).value, "css", Some(NodePaths.DirName(path))))
        && (pl.shouldOptimize && optimize(out.result.code, pl.minify).Err? ==>
              res.1 == LoadError(optimize(out.result.code, pl.minify).error))
  {
    var (root, roots) := RootsGet(pl.roots, path, RootFactory(pl, cwd));
    var out := GenerateWith(root, text, env, cwd, false);
    assert out == GenerateAsWritten(root, text, env, cwd);
    OnLoadAsWritten(pl, path, Ok(text), env, optimize, cwd);
    if out.result.Css? {
      GetPut(roots, path, out.root, path);
    }
  }

  /** The plugin's callback is the one over the written `generate`. */
  lemma OnLoadAsWritten(pl: Plugin, path: string, source: Result<string>, env: Env,
                        optimize: (string, bool) -> Result<string>, cwd: JPath)
    requires cwd.absolute
    ensures OnLoad(pl, path, source, env, optimize, cwd) == OnLoadWith(pl, path, source, env, optimize, cwd, false)
  {
  }

  // ---------------------------------------------------------------------
  // The failed-compile finding
  // ---------------------------------------------------------------------

  /** With the plugin as written, a compile error leaves the old compiler in
      place while the dependency map already records the input's new mtime;
      the next load of the same, still broken, file then reuses the old
      compiler and answers with CSS built from the previous content. */
  lemma AsWrittenServesStaleCss(id: string, cwd: JPath)
    requires cwd.absolute
    ensures var p := IdToPath(id, cwd);
      var prev := Compiler(0, {Utilities}, NullRoot, []);
      var r := Root(id, [], "/w", DefaultPattern, Some(prev), Some(Scanner([])), [], [(p, Known(1))]);
      var env := Env(map[p := 2], (c, b) => Compiled([], Err("CssSyntaxError")), ss => None,
                     s => Ok([]), (c: Compiler, xs) => Ok(if c.handle == 0 then "old css" else ""));
      var first := GenerateAsWritten(r, "broken", env, cwd);
      var second := GenerateAsWritten(first.root, "broken", env, cwd);
      && first.result == Failed("CssSyntaxError")
      && second.result == Css("old css")
  {
    var p := IdToPath(id, cwd);
    var prev := Compiler(0, {Utilities}, NullRoot, []);
    var r := Root(id, [], "/w", DefaultPattern, Some(prev), Some(Scanner([])), [], [(p, Known(1))]);
    var env := Env(map[p := 2], (c, b) => Compiled([], Err("CssSyntaxError")), ss => None,
                   s => Ok([]), (c: Compiler, xs) => Ok(if c.handle == 0 then "old css" else ""));
    assert EntryStale(r.deps[0].0, r.deps[0].1, env.stat);
    var compiled := env.compile("broken", NodePaths.DirName(p));
    assert compiled == Compiled([], Err("CssSyntaxError"));
    AsWrittenFailureKeeps(r, "broken", env, cwd);
    var first := GenerateAsWritten(r, "broken", env, cwd);
    FreshDepsOfInput(p, compiled, env.stat);
    assert first.root.deps == [(p, Known(2))];
    assert !Stale(first.root.deps, env.stat);
    ReuseEmits(first.root, "broken", env, cwd);
    assert {Utilities} * ContentFeatures != {} by { assert Utilities in {Utilities} * ContentFeatures; }
    assert env.scan(Scanner([])) == Ok([]);
    assert AddCandidates([], []) == [];
  }

  /** As written, a failed rebuild reports the error, keeps the handles
      and stores the fresh dependency map. */
  lemma AsWrittenFailureKeeps(r: Root, content: string, env: Env, cwd: JPath)
    requires cwd.absolute && Rebuilds(r, env.stat)
    requires env.compile(content, NodePaths.DirName(IdToPath(r.id, cwd))).result.Err?
    ensures var compiled := env.compile(content, NodePaths.DirName(IdToPath(r.id, cwd)));
      var out := GenerateAsWritten(r, content, env, cwd);
      && out.result == Failed(compiled.result.error)
      && out.root == r.(deps := FreshDeps(IdToPath(r.id, cwd), compiled, env.stat))
  {
  }

  /** As written, a scanner that cannot be made after a successful
      compile leaves the new compiler beside the previous scanner, with the
      fresh dependency map; when that map is not stale, the next call reuses
      this mixed pair instead of rebuilding. */
  lemma ScannerFailureMixesHandles(r: Root, content: string, content': string, env: Env, cwd: JPath)
    requires cwd.absolute && Rebuilds(r, env.stat)
    requires env.compile(content, NodePaths.DirName(IdToPath(r.id, cwd))).result.Ok?
    requires var c := env.compile(content, NodePaths.DirName(IdToPath(r.id, cwd))).result.value;
      env.scannerError(ScannerSources(c.root, r.base, r.pattern, r.sources, c.sources)).Some?
    ensures var compiled := env.compile(content, NodePaths.DirName(IdToPath(r.id, cwd)));
      var c := compiled.result.value;
      var out := GenerateAsWritten(r, content, env, cwd);
      && out.result == Failed(env.scannerError(ScannerSources(c.root, r.base, r.pattern, r.sources, c.sources)).value)
      && out.root == r.(compiler := Some(c), deps := FreshDeps(IdToPath(r.id, cwd), compiled, env.stat))
    ensures var out := GenerateAsWritten(r, content, env, cwd);
      r.scanner.Some? && !Stale(out.root.deps, env.stat) ==>
        GenerateAsWritten(out.root, content', env, cwd) == Emit(out.root, env)
  {
    var inputPath := IdToPath(r.id, cwd);
    var compiled := env.compile(content, NodePaths.DirName(inputPath));
    var c := compiled.result.value;
    var e := env.scannerError(ScannerSources(c.root, r.base, r.pattern, r.sources, c.sources)).value;
    var deps := FreshDeps(inputPath, compiled, env.stat);
    var out := GenerateAsWritten(r, content, env, cwd);
    assert out == Thrown(r.(compiler := Some(c), deps := deps), e, false);
    if r.scanner.Some? && !Stale(out.root.deps, env.stat) {
      ReuseEmits(out.root, content', env, cwd);
    }
  }

  /** Without a rebuild `generate` goes straight to emitting. */
  lemma ReuseEmits(r: Root, content: string, env: Env, cwd: JPath)
    requires cwd.absolute && !Rebuilds(r, env.stat)
    ensures GenerateAsWritten(r, content, env, cwd) == Emit(r, env)
  {
  }

  /** A compile that reports no dependencies leaves only the input file,
      with its current mtime. */
  lemma FreshDepsOfInput(p: string, compiled: Compiled, stat: map<string, nat>)
    requires compiled.dependencies == []
    ensures FreshDeps(p, compiled, stat) == [(p, StatFreshness(p, stat))]
  {
    assert Put([], p, StatFreshness(p, stat)) == [(p, StatFreshness(p, stat))];
  }

  /** With the corrected `Generate`, a compile error is reported again for
      as long as the content keeps failing: the next call always compiles. */
  lemma FailureIsNotCached(r: Root, content: string, env: Env, env': Env, cwd: JPath)
    requires cwd.absolute
    requires Generate(r, content, env, cwd).result.Failed?
    requires env'.compile(content, NodePaths.DirName(IdToPath(r.id, cwd))).result.Err?
    ensures Generate(Generate(r, content, env, cwd).root, content, env', cwd).result.Failed?
  {
  }

  /** Apart from the failure path the corrected and the written `generate`
      agree. */
  lemma GenerateAgreesOnSuccess(r: Root, content: string, env: Env, cwd: JPath)
    requires cwd.absolute
    ensures !Generate(r, content, env, cwd).result.Failed? ==>
              Generate(r, content, env, cwd) == GenerateAsWritten(r, content, env, cwd)
  {
  }
}
