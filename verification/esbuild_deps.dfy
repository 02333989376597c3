/** The web dependencies found on the class path: every jar whose path has
    the shape of an `org/mvnpm` Maven repository entry, and the names of the
    esbuild plugins among them. */
module EsBuildDeps {
  import opened Wrappers
  import opened Strings
  import JPaths
  import opened WebDependencies

  datatype Gav = Gav(groupId: string, artifactId: string, version: string)

  /** `GAV.toString`. */
  function GavText(g: Gav): string {
    g.groupId + ":" + g.artifactId + ":" + g.version
  }

  /** The three coordinates come back from the text when none holds a
      colon. */
  lemma GavTextSplits(g: Gav)
    requires ':' !in g.groupId && ':' !in g.artifactId && ':' !in g.version
    ensures Split(GavText(g), ':') == [g.groupId, g.artifactId, g.version]
  {
    var parts := [g.groupId, g.artifactId, g.version];
    assert Join(parts, [':']) == GavText(g) by {
      assert Join(parts[2..], [':']) == g.version;
      assert parts[1..][1..] == parts[2..];
    }
    SplitJoin(parts, ':');
  }

  // ---------------------------------------------------------------------
  // The class-path pattern `.*/(org/mvnpm(?:/[^/]+)*)/([^/]+)/([^/]+)/\2-\3\.jar$`

  /** The characters a regular-expression `.` does not match. */
  predicate IsLineTerminator(c: char) {
    c == '\n' || c == '\r' || c == '\U{85}' || c == '\U{2028}' || c == '\U{2029}'
  }

  /** `.*` matches the whole of `s`. */
  predicate DotsMatch(s: string) {
    forall i :: 0 <= i < |s| ==> !IsLineTerminator(s[i])
  }

  /** Over the components `p` of the path before the artifact directory,
      the group can start at component `k`: "org" then "mvnpm", no empty
      component after them, at least one component before them, and no
      line terminator before them (the slashes between those components
      are matched by `.` too). */
  predicate GroupAt(p: seq<string>, k: int) {
    1 <= k && k + 2 <= |p| && p[k] == "org" && p[k + 1] == "mvnpm"
    && (forall j :: k + 2 <= j < |p| ==> p[j] != "")
    && (forall j :: 0 <= j < k ==> DotsMatch(p[j]))
  }

  /** The greedy `.*` makes the match start the group at the last place it
      can: the largest `k <= top` with `GroupAt(p, k)`. */
  function LastGroup(p: seq<string>, top: int): (r: Option<nat>)
    ensures r.Some? ==> r.value <= top && GroupAt(p, r.value)
    ensures r.Some? ==> forall j :: r.value < j <= top ==> !GroupAt(p, j)
    ensures r.None? ==> forall j :: j <= top ==> !GroupAt(p, j)
    decreases top
  {
    if top < 1 then None
    else if GroupAt(p, top) then Some(top)
    else LastGroup(p, top - 1)
  }

  /** The match over the components of the path: the last three are the
      artifact, the version and the file `<artifact>-<version>.jar`. */
  function MatchComponents(cs: seq<string>): (r: Option<Gav>)
    ensures r.Some? ==> |cs| >= 6
    ensures r.Some? ==> cs[|cs| - 3] == r.value.artifactId && r.value.artifactId != ""
    ensures r.Some? ==> cs[|cs| - 2] == r.value.version && r.value.version != ""
    ensures r.Some? ==> cs[|cs| - 1] == r.value.artifactId + "-" + r.value.version + ".jar"
  {
    if |cs| < 6 then None
    else
      var n := |cs|;
      var a := cs[n - 3];
      var v := cs[n - 2];
      if a == "" || v == "" || cs[n - 1] != a + "-" + v + ".jar" then None
      else
        match GroupStart(cs)
        case None => None
        case Some(k) => Some(Gav(ReplaceChar(Join(cs[k..n - 3], "/"), '/', '.'), a, v))
  }

  /** Where the group starts among the components of a path. */
  function GroupStart(cs: seq<string>): Option<nat>
    requires |cs| >= 6
  {
    LastGroup(cs[..|cs| - 3], |cs| - 5)
  }

  /** The components the pattern sees. */
  function Components(path: string): seq<string> {
    Split(ReplaceChar(path, '\\', '/'), '/')
  }

  /** `extractGav` on the text of a path, after backslashes become slashes. */
  function ExtractGav(path: string): Option<Gav> {
    MatchComponents(Components(path))
  }

  /** The text of a jar path in the `org/mvnpm` repository layout. */
  function JarText(prefix: seq<string>, segs: seq<string>, a: string, v: string): string {
    Join(prefix + ["org", "mvnpm"] + segs + [a, v, a + "-" + v + ".jar"], "/")
  }

  /** The group id that a layout's directories name. */
  function GroupId(segs: seq<string>): string {
    Join(["org", "mvnpm"] + segs, ".")
  }

  predicate Plain(x: string) {
    '/' !in x && '\\' !in x
  }

  /** The components of a layout path are the ones it was joined from. */
  lemma JarTextComponents(prefix: seq<string>, segs: seq<string>, a: string, v: string)
    requires forall i :: 0 <= i < |prefix| ==> Plain(prefix[i])
    requires forall i :: 0 <= i < |segs| ==> Plain(segs[i])
    requires Plain(a) && Plain(v)
    ensures Split(ReplaceChar(JarText(prefix, segs, a, v), '\\', '/'), '/')
      == prefix + ["org", "mvnpm"] + segs + [a, v, a + "-" + v + ".jar"]
  {
    var cs := prefix + ["org", "mvnpm"] + segs + [a, v, a + "-" + v + ".jar"];
    forall i | 0 <= i < |cs| ensures Plain(cs[i]) {
      if i < |prefix| {
        assert cs[i] == prefix[i];
      } else if i >= |prefix| + 2 && i < |prefix| + 2 + |segs| {
        assert cs[i] == segs[i - |prefix| - 2];
      }
    }
    JoinAvoids(cs, "/", '\\');
    assert ReplaceChar(Join(cs, "/"), '\\', '/') == Join(cs, "/");
    SplitJoin(cs, '/');
  }

  /** The greedy choice is the one group start with none after it. */
  lemma LastGroupIs(p: seq<string>, k: nat, top: int)
    requires k <= top && GroupAt(p, k)
    requires forall j :: k < j <= top ==> !GroupAt(p, j)
    ensures LastGroup(p, top) == Some(k)
  {
  }

  /** With "org/mvnpm" not recurring among the group's further directories,
      the group can start only at the first "org". */
  lemma OnlyGroupStart(prefix: seq<string>, segs: seq<string>)
    requires |prefix| >= 1 && forall i :: 0 <= i < |prefix| ==> DotsMatch(prefix[i])
    requires forall i :: 0 <= i < |segs| ==> segs[i] != ""
    requires forall i :: 0 <= i < |segs| - 1 ==> !(segs[i] == "org" && segs[i + 1] == "mvnpm")
    ensures GroupAt(prefix + ["org", "mvnpm"] + segs, |prefix|)
    ensures forall j :: |prefix| < j ==> !GroupAt(prefix + ["org", "mvnpm"] + segs, j)
  {
    var p := prefix + ["org", "mvnpm"] + segs;
    var k := |prefix|;
    assert p[..k] == prefix;
    forall j | k + 2 <= j < |p| ensures p[j] != "" {
      assert p[j] == segs[j - k - 2];
    }
    forall j | k < j ensures !GroupAt(p, j) {
      if j > k + 1 && j + 2 <= |p| {
        assert p[j] == segs[j - k - 2] && p[j + 1] == segs[j - k - 1];
      }
    }
  }

  /** Every jar in the layout yields its coordinates, provided "org/mvnpm"
      does not recur among the group's further directories (the greedy
      match would start the group there) and the directories before it
      hold no line terminator. */
  lemma ExtractGavJarText(prefix: seq<string>, segs: seq<string>, a: string, v: string)
    requires |prefix| >= 1 && forall i :: 0 <= i < |prefix| ==> DotsMatch(prefix[i])
    requires forall i :: 0 <= i < |prefix| ==> Plain(prefix[i])
    requires forall i :: 0 <= i < |segs| ==> Plain(segs[i]) && segs[i] != ""
    requires forall i :: 0 <= i < |segs| - 1 ==> !(segs[i] == "org" && segs[i + 1] == "mvnpm")
    requires Plain(a) && Plain(v) && a != "" && v != ""
    ensures ExtractGav(JarText(prefix, segs, a, v)) == Some(Gav(GroupId(segs), a, v))
  {
    JarTextComponents(prefix, segs, a, v);
    MatchLayout(prefix, segs, a, v);
  }

  /** The match over the components of a layout path. */
  lemma MatchLayout(prefix: seq<string>, segs: seq<string>, a: string, v: string)
    requires |prefix| >= 1 && forall i :: 0 <= i < |prefix| ==> DotsMatch(prefix[i])
    requires forall i :: 0 <= i < |segs| ==> Plain(segs[i]) && segs[i] != ""
    requires forall i :: 0 <= i < |segs| - 1 ==> !(segs[i] == "org" && segs[i + 1] == "mvnpm")
    requires a != "" && v != ""
    ensures MatchComponents(prefix + ["org", "mvnpm"] + segs + [a, v, a + "-" + v + ".jar"])
      == Some(Gav(GroupId(segs), a, v))
  {
    var p := prefix + ["org", "mvnpm"] + segs;
    var cs := p + [a, v, a + "-" + v + ".jar"];
    var n := |cs|;
    LayoutPieces(prefix, segs, a, v);
    OnlyGroupStart(prefix, segs);
    LastGroupIs(p, |prefix|, n - 5);
    GroupIdText(cs[|prefix|..|cs| - 3], segs);
    MatchAt(cs, |prefix|);
  }

  /** Where the pieces of a layout path sit among its components. */
  lemma LayoutPieces(prefix: seq<string>, segs: seq<string>, a: string, v: string)
    ensures var p := prefix + ["org", "mvnpm"] + segs;
      var cs := p + [a, v, a + "-" + v + ".jar"];
      && |cs| == |p| + 3 && cs[..|cs| - 3] == p
      && cs[|prefix|..|cs| - 3] == ["org", "mvnpm"] + segs
      && cs[|cs| - 3] == a && cs[|cs| - 2] == v && cs[|cs| - 1] == a + "-" + v + ".jar"
  {
    var p := prefix + ["org", "mvnpm"] + segs;
    var cs := p + [a, v, a + "-" + v + ".jar"];
    assert cs[..|cs| - 3] == p;
    assert p[|prefix|..] == ["org", "mvnpm"] + segs;
  }

  /** The group id is the group's components joined by '/' with every '/'
      turned into '.'. */
  lemma GroupIdText(g: seq<string>, segs: seq<string>)
    requires g == ["org", "mvnpm"] + segs
    requires forall i :: 0 <= i < |segs| ==> Plain(segs[i])
    ensures ReplaceChar(Join(g, "/"), '/', '.') == GroupId(segs)
  {
    forall i | 0 <= i < |g| ensures '/' !in g[i] {
      if i >= 2 {
        assert g[i] == segs[i - 2];
      }
    }
    SlashesToDots(g);
  }

  lemma SlashesToDots(g: seq<string>)
    requires forall i :: 0 <= i < |g| ==> '/' !in g[i]
    ensures ReplaceChar(Join(g, "/"), '/', '.') == Join(g, ".")
  {
    ReplaceCharJoin(g, '/', '.');
    assert "/" == ['/'] && "." == ['.'];
  }

  /** The match once the group's start is known. */
  lemma MatchAt(cs: seq<string>, k: nat)
    requires |cs| >= 6 && GroupStart(cs) == Some(k)
    requires cs[|cs| - 3] != "" && cs[|cs| - 2] != ""
    requires cs[|cs| - 1] == cs[|cs| - 3] + "-" + cs[|cs| - 2] + ".jar"
    ensures MatchComponents(cs)
      == Some(Gav(ReplaceChar(Join(cs[k..|cs| - 3], "/"), '/', '.'), cs[|cs| - 3], cs[|cs| - 2]))
  {
  }

  /** Whatever the pattern accepts is a jar in the layout, and its group
      id is the one the layout's directories name. */
  lemma ExtractGavSound(path: string, g: Gav)
    requires ExtractGav(path) == Some(g)
    ensures |Components(path)| >= 6 && GroupStart(Components(path)).Some?
    ensures var cs := Components(path);
            var k := GroupStart(cs).value;
            1 <= k && g.groupId == GroupId(cs[k + 2..|cs| - 3])
            && ReplaceChar(path, '\\', '/') == JarText(cs[..k], cs[k + 2..|cs| - 3], g.artifactId, g.version)
  {
    var cs := Components(path);
    var k := GroupStart(cs).value;
    SoundPieces(cs, k, g);
    SoundText(ReplaceChar(path, '\\', '/'), cs, k, g);
    SoundGroup(cs, k, g);
  }

  lemma SoundText(t: string, cs: seq<string>, k: nat, g: Gav)
    requires cs == Split(t, '/') && 1 <= k <= |cs| - 5
    requires cs == cs[..k] + ["org", "mvnpm"] + cs[k + 2..|cs| - 3] + [g.artifactId, g.version, g.artifactId + "-" + g.version + ".jar"]
    ensures t == JarText(cs[..k], cs[k + 2..|cs| - 3], g.artifactId, g.version)
  {
    JoinSplit(t, '/');
  }

  lemma SoundGroup(cs: seq<string>, k: nat, g: Gav)
    requires |cs| >= 6 && GroupStart(cs) == Some(k) && MatchComponents(cs) == Some(g)
    requires forall i :: 0 <= i < |cs| ==> '/' !in cs[i]
    requires 1 <= k <= |cs| - 5
    requires cs == cs[..k] + ["org", "mvnpm"] + cs[k + 2..|cs| - 3] + [g.artifactId, g.version, g.artifactId + "-" + g.version + ".jar"]
    ensures g.groupId == GroupId(cs[k + 2..|cs| - 3])
  {
    var n := |cs|;
    var gs := ["org", "mvnpm"] + cs[k + 2..n - 3];
    assert cs[k..n - 3] == gs;
    forall i | 0 <= i < |gs| ensures '/' !in gs[i] {
      assert gs[i] == cs[k + i];
    }
    ReplaceCharJoin(gs, '/', '.');
  }

  lemma SoundPieces(cs: seq<string>, k: nat, g: Gav)
    requires |cs| >= 6 && k <= |cs| - 5 && GroupAt(cs[..|cs| - 3], k)
    requires cs[|cs| - 3] == g.artifactId && cs[|cs| - 2] == g.version
    requires cs[|cs| - 1] == g.artifactId + "-" + g.version + ".jar"
    ensures 1 <= k && cs == cs[..k] + ["org", "mvnpm"] + cs[k + 2..|cs| - 3] + [g.artifactId, g.version, g.artifactId + "-" + g.version + ".jar"]
  {
    var n := |cs|;
    assert cs[..n - 3][k] == cs[k] && cs[..n - 3][k + 1] == cs[k + 1];
  }

  // ---------------------------------------------------------------------
  // Plugins

  /** `^esbuild-[a-z]+-plugin$`. */
  predicate IsPluginName(a: string) {
    |a| >= 16 && a[..8] == "esbuild-" && a[|a| - 7..] == "-plugin"
    && forall i :: 8 <= i < |a| - 7 ==> 'a' <= a[i] <= 'z'
  }

  /** A plugin name is "esbuild-", one or more lower-case ASCII letters and
      "-plugin", and nothing else. */
  lemma PluginNameOf(w: string)
    ensures IsPluginName("esbuild-" + w + "-plugin") <==> |w| >= 1 && forall i :: 0 <= i < |w| ==> 'a' <= w[i] <= 'z'
  {
    var a := "esbuild-" + w + "-plugin";
    assert a[..8] == "esbuild-" && a[|a| - 7..] == "-plugin";
    assert forall i :: 8 <= i < |a| - 7 ==> a[i] == w[i - 8];
    assert forall i :: 0 <= i < |w| ==> w[i] == a[i + 8];
    if |w| >= 1 && !IsPluginName(a) {
      var i :| 8 <= i < |a| - 7 && !('a' <= a[i] <= 'z');
      assert !('a' <= w[i - 8] <= 'z');
    }
  }

  // ---------------------------------------------------------------------
  // The class path

  datatype Deps = Deps(deps: seq<WebDependency>, plugins: seq<string>)

  /** A dependency read off the class path: its id is the coordinates its
      path yields, and those coordinates resolve to its type. */
  predicate Resolved(d: WebDependency, resolveType: string -> Option<Kind>) {
    var g := ExtractGav(JPaths.Show(d.path));
    g.Some? && d.id == GavText(g.value) && resolveType(d.id) == Some(d.kind)
  }

  /** One class-path entry: a dependency when its path yields coordinates
      and the coordinates a type. `resolveType` stands for
      `WebDependencyType.resolveType`. */
  function EntryDependency(entry: string, resolveType: string -> Option<Kind>): (r: Option<WebDependency>)
    ensures r.Some? ==> Resolved(r.value, resolveType)
  {
    var path := JPaths.Parse(entry);
    match ExtractGav(JPaths.Show(path))
    case None => None
    case Some(gav) =>
      match resolveType(GavText(gav))
      case None => None
      case Some(kind) => Some(WebDependency(GavText(gav), path, kind))
  }

  /** The plugin name an entry contributes, if any. */
  function EntryPlugin(entry: string, resolveType: string -> Option<Kind>): (r: Option<string>)
    ensures r.Some? ==> IsPluginName(r.value) && EntryDependency(entry, resolveType).Some?
  {
    var path := JPaths.Parse(entry);
    match ExtractGav(JPaths.Show(path))
    case None => None
    case Some(gav) =>
      if resolveType(GavText(gav)).Some? && IsPluginName(gav.artifactId) then Some(gav.artifactId) else None
  }

  /** `fromClasspath` over the entries of the class path, in order. */
  function Collect(entries: seq<string>, resolveType: string -> Option<Kind>): (r: Deps)
    ensures |r.deps| <= |entries| && |r.plugins| <= |r.deps|
    ensures forall i :: 0 <= i < |r.plugins| ==> IsPluginName(r.plugins[i])
    ensures forall i :: 0 <= i < |r.deps| ==> Resolved(r.deps[i], resolveType)
    decreases |entries|
  {
    if entries == [] then Deps([], [])
    else
      var n := |entries|;
      var before := Collect(entries[..n - 1], resolveType);
      var e := entries[n - 1];
      var d := EntryDependency(e, resolveType);
      var p := EntryPlugin(e, resolveType);
      Deps(before.deps + (if d.Some? then [d.value] else []),
           before.plugins + (if p.Some? then [p.value] else []))
  }

  /** The class path is taken in order: the entries of a longer class path
      add their dependencies after those of a shorter one. */
  lemma {:induction false} CollectAppendDeps(a: seq<string>, b: seq<string>, resolveType: string -> Option<Kind>)
    ensures Collect(a + b, resolveType).deps == Collect(a, resolveType).deps + Collect(b, resolveType).deps
    decreases |b|
  {
    if b == [] {
      assert a + b == a;
    } else {
      var n := |b|;
      assert (a + b)[..|a + b| - 1] == a + b[..n - 1];
      assert (a + b)[|a + b| - 1] == b[n - 1];
      CollectAppendDeps(a, b[..n - 1], resolveType);
    }
  }

  /** Plugin names too are added in class-path order. */
  lemma {:induction false} CollectAppendPlugins(a: seq<string>, b: seq<string>, resolveType: string -> Option<Kind>)
    ensures Collect(a + b, resolveType).plugins == Collect(a, resolveType).plugins + Collect(b, resolveType).plugins
    decreases |b|
  {
    if b == [] {
      assert a + b == a;
    } else {
      var n := |b|;
      assert (a + b)[..|a + b| - 1] == a + b[..n - 1];
      assert (a + b)[|a + b| - 1] == b[n - 1];
      CollectAppendPlugins(a, b[..n - 1], resolveType);
    }
  }

  /** An entry without coordinates or without a type leaves no trace. */
  lemma DroppedEntry(entry: string, resolveType: string -> Option<Kind>)
    requires ExtractGav(JPaths.Show(JPaths.Parse(entry))).None?
      || resolveType(GavText(ExtractGav(JPaths.Show(JPaths.Parse(entry))).value)).None?
    ensures Collect([entry], resolveType) == Deps([], [])
  {
    assert [entry][..0] == [];
  }

  /** `fromClasspath`: the class path split at the path separator. */
  function FromClasspath(classpath: string, resolveType: string -> Option<Kind>): Deps {
    Collect(Split(classpath, ':'), resolveType)
  }

  /** `get`: the cached value when there is one; otherwise the freshly
      computed one, which becomes the cache. */
  function Get(cache: Option<Deps>, computed: Deps): (r: (Deps, Option<Deps>))
    ensures r.1 == Some(r.0)
    ensures cache.Some? ==> r.0 == cache.value
    ensures cache.None? ==> r.0 == computed
  {
    match cache
    case Some(c) => (c, cache)
    case None => (computed, Some(computed))
  }

  /** After the first call every call answers the same, whatever a new
      class-path scan would have found. */
  lemma GetIsStable(cache: Option<Deps>, first: Deps, later: Deps)
    ensures Get(Get(cache, first).1, later) == Get(cache, first)
  {
  }
}
