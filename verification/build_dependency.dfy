/** The build-time web dependencies the bundler installs besides the
    user's: one per `<artifact>.version` entry of the bundled version
    properties, plus the esbuild binary package for the running platform,
    all resolved in the local Maven repository. */
module BuildDependencies {
  import opened Wrappers
  import opened Strings
  import opened OrderedMaps
  import opened Platforms
  import JPaths
  import opened WebDependencies

  datatype BuildDependency = BuildDependency(name: string, fileName: string)

  /** A replacement text that `replaceAll` copies as it is: no group
      reference and no escape. */
  predicate LiteralReplacement(v: string) {
    '$' !in v && '\\' !in v
  }

  /** One property entry: every ".version" of the key becomes "/<value>";
      the file name is that name with slashes made dashes, plus ".jar". */
  function Of(key: string, value: string): (d: BuildDependency)
    requires LiteralReplacement(value)
    ensures '/' !in d.fileName && EndsWith(d.fileName, ".jar")
    ensures |d.fileName| == |d.name| + 4
    ensures forall i :: 0 <= i < |d.name| ==> d.fileName[i] == (if d.name[i] == '/' then '-' else d.name[i])
  {
    var name := Replace(key, ".version", "/" + value);
    BuildDependency(name, ReplaceChar(name, '/', '-') + ".jar")
  }

  /** For a key `<x>.version` the name is `<x>/<value>` and the file
      `<x>-<value>.jar`, slashes made dashes. */
  lemma OfVersionKey(x: string, v: string)
    requires LiteralReplacement(v)
    requires !Contains(x, ".version") && NoOverhang(x, ".version")
    ensures Of(x + ".version", v).name == x + "/" + v
    ensures Of(x + ".version", v).fileName == ReplaceChar(x, '/', '-') + "-" + ReplaceChar(v, '/', '-') + ".jar"
  {
    var name := x + "/" + v;
    ReplaceSuffix(x, ".version", "/" + v);
    assert Of(x + ".version", v).name == name;
    DashedName(x, v);
  }

  lemma DashedName(x: string, v: string)
    ensures ReplaceChar(x + "/" + v, '/', '-') == ReplaceChar(x, '/', '-') + "-" + ReplaceChar(v, '/', '-')
  {
    ReplaceCharConcat(x + "/", v, '/', '-');
    ReplaceCharConcat(x, "/", '/', '-');
  }

  /** The esbuild binary package: `at/esbuild/<classifier>/<version>`; a
      missing version property is formatted as "null". */
  function PlatformDependency(c: LegacyClassifier, version: Option<string>): BuildDependency {
    var v := version.GetOr("null");
    BuildDependency("at/esbuild/" + LegacyText(c) + "/" + v, LegacyText(c) + "-" + v + ".jar")
  }

  function Each(props: OMap<string, string>): (r: seq<BuildDependency>)
    requires forall i :: 0 <= i < |props| ==> LiteralReplacement(props[i].1)
    ensures |r| == |props|
    ensures forall i :: 0 <= i < |props| ==> r[i] == Of(props[i].0, props[i].1)
  {
    if props == [] then [] else [Of(props[0].0, props[0].1)] + Each(props[1..])
  }

  /** `resolveBuildDependencies`: the entries in the properties' iteration
      order, then the platform package, chosen by the total eight-way
      classifier. */
  function Resolve(props: OMap<string, string>, osName: string, osArch: string): (r: seq<BuildDependency>)
    requires forall i :: 0 <= i < |props| ==> LiteralReplacement(props[i].1)
    ensures |r| == |props| + 1
    ensures forall i :: 0 <= i < |props| ==> r[i] == Of(props[i].0, props[i].1)
    ensures r[|props|].name == "at/esbuild/" + LegacyText(LegacyClassify(osName, osArch)) + "/"
                              + Get(props, "esbuild.version").GetOr("null")
  {
    Each(props) + [PlatformDependency(LegacyClassify(osName, osArch), Get(props, "esbuild.version"))]
  }

  /** The jar of a build dependency in the local Maven repository under
      `home`, as an mvnpm dependency whose id is "org.mvnpm:" and the file
      name without ".jar". */
  function WebDependencyOf(home: string, d: BuildDependency): WebDependency {
    var path := JPaths.Of(home, [".m2/repository/org/mvnpm/", d.name, d.fileName]);
    var file := JPaths.FileName(path).GetOr("");
    WebDependency("org.mvnpm:" + Replace(file, ".jar", ""), path, Mvnpm)
  }

  /** The id is taken from the file name the dependency declares. */
  lemma WebDependencyId(home: string, d: BuildDependency)
    requires d.fileName != "" && '/' !in d.fileName
    ensures WebDependencyOf(home, d).id == "org.mvnpm:" + Replace(d.fileName, ".jar", "")
    ensures JPaths.FileName(WebDependencyOf(home, d).path) == Some(d.fileName)
  {
    assert [".m2/repository/org/mvnpm/", d.name, d.fileName] == [".m2/repository/org/mvnpm/", d.name] + [d.fileName];
    JPaths.OfLast(home, [".m2/repository/org/mvnpm/", d.name], d.fileName);
  }

  /** `getDependencies`. */
  function Dependencies(props: OMap<string, string>, osName: string, osArch: string, home: string): (r: seq<WebDependency>)
    requires forall i :: 0 <= i < |props| ==> LiteralReplacement(props[i].1)
    ensures |r| == |props| + 1
    ensures forall i :: 0 <= i < |r| ==> r[i].kind == Mvnpm
  {
    var ds := Resolve(props, osName, osArch);
    seq(|ds|, i requires 0 <= i < |ds| => WebDependencyOf(home, ds[i]))
  }

  lemma NoJInClassifier(c: LegacyClassifier)
    ensures 'j' !in LegacyText(c)
  {
  }

  /** Dropping ".jar" from `<stem>.jar` gives the stem back when the stem
      has no 'j' and does not end in a dot. */
  lemma StripJar(stem: string)
    requires 'j' !in stem && (stem == [] || stem[|stem| - 1] != '.')
    ensures Replace(stem + ".jar", ".jar", "") == stem
  {
    NoOverhangByPair(stem, ".jar");
    AbsentByPair(stem, ".jar");
    ReplaceSuffix(stem, ".jar", "");
  }

  /** The id of a jar `<stem>.jar` is `org.mvnpm:<stem>` when the stem has
      no slash and no 'j' and does not end in a dot. */
  lemma JarId(home: string, name: string, stem: string)
    requires stem != "" && '/' !in stem && 'j' !in stem && stem[|stem| - 1] != '.'
    ensures WebDependencyOf(home, BuildDependency(name, stem + ".jar")).id == "org.mvnpm:" + stem
  {
    WebDependencyId(home, BuildDependency(name, stem + ".jar"));
    StripJar(stem);
  }

  /** The id of the platform package is `org.mvnpm:<classifier>-<version>`
      for a version without a slash or a 'j' that does not end in a dot. */
  lemma PlatformId(home: string, c: LegacyClassifier, v: string)
    requires v != "" && '/' !in v && 'j' !in v && v[|v| - 1] != '.'
    ensures WebDependencyOf(home, PlatformDependency(c, Some(v))).id == "org.mvnpm:" + LegacyText(c) + "-" + v
  {
    var stem := LegacyText(c) + "-" + v;
    NoJInClassifier(c);
    assert '/' !in LegacyText(c);
    JarId(home, PlatformDependency(c, Some(v)).name, stem);
  }

  /** The platform package is installed last. */
  lemma {:induction false} PlatformIdLast(props: OMap<string, string>, osName: string, osArch: string, home: string, v: string)
    requires forall i :: 0 <= i < |props| ==> LiteralReplacement(props[i].1)
    requires Get(props, "esbuild.version") == Some(v)
    requires v != "" && '/' !in v && 'j' !in v && v[|v| - 1] != '.'
    ensures Dependencies(props, osName, osArch, home)[|props|].id
      == "org.mvnpm:" + LegacyText(LegacyClassify(osName, osArch)) + "-" + v
  {
    PlatformId(home, LegacyClassify(osName, osArch), v);
  }
}
