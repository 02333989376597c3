/** The mutable builder of the esbuild configuration, as a value: every
    setter returns the updated builder. `alias` and `define` start as empty
    maps that setters add to; `external` starts as an empty list that a
    setter may replace with null. */
module EsBuildConfigBuilders {
  import opened Wrappers
  import opened Strings
  import opened OrderedMaps
  import opened EsBuildConfigs

  datatype Builder = Builder(
    esBuildVersion: Option<string>,
    bundle: bool,
    entryPoint: Option<seq<string>>,
    minify: bool,
    version: bool,
    loader: Option<OMap<string, Loader>>,
    preserveSymlinks: bool,
    target: Option<Target>,
    watch: bool,
    outdir: Option<string>,
    packages: Option<string>,
    platform: Option<Platform>,
    serve: bool,
    sourceMap: bool,
    splitting: bool,
    alias: OMap<string, string>,
    define: OMap<string, string>,
    excludes: Option<seq<string>>,
    format: Option<Format>,
    chunkNames: Option<string>,
    entryNames: Option<string>,
    assetNames: Option<string>,
    publicPath: Option<string>,
    external: Option<seq<string>>)

  /** `new EsBuildConfigBuilder()`. */
  const Fresh := Builder(None, false, None, false, false, None, false, None, false, None, None, None,
                         false, false, false, [], [], None, None, None, None, None, None, Some([]))

  const HashedEntryNames := "[name]-[hash]"
  const HashedAssetNames := "assets/[name]-[hash]"

  /** The loader for each file extension that `withDefault` installs. */
  function DefaultLoaders(): (m: OMap<string, Loader>)
    ensures UniqueKeys(m) && |m| == 14
  {
    [ (".css", Css), (".json", Json), (".jsx", Jsx), (".tsx", Tsx), (".ts", Ts), (".js", Js),
      (".svg", File), (".gif", File), (".png", File), (".jpg", File), (".woff", File),
      (".woff2", File), (".ttf", File), (".eot", File) ]
  }

  function HashedNames(b: Builder): (r: Builder)
    ensures r.entryNames == Some(HashedEntryNames) && r.assetNames == Some(HashedAssetNames)
    ensures r.(entryNames := b.entryNames, assetNames := b.assetNames) == b
  {
    b.(entryNames := Some(HashedEntryNames), assetNames := Some(HashedAssetNames))
  }

  function FixedEntryNames(b: Builder): (r: Builder)
    ensures r.entryNames == Some("[name]")
    ensures r.(entryNames := b.entryNames) == b
  {
    b.(entryNames := Some("[name]"))
  }

  /** `withDefault`: bundle, minify, source maps, code splitting, hashed
      names, ES modules and the default loaders; nothing else changes. */
  function WithDefault(b: Builder): (r: Builder)
    ensures r.bundle && r.minify && r.sourceMap && r.splitting
    ensures r.entryNames == Some(HashedEntryNames) && r.assetNames == Some(HashedAssetNames)
    ensures r.format == Some(Esm) && r.loader == Some(DefaultLoaders())
    ensures r.(bundle := b.bundle, minify := b.minify, sourceMap := b.sourceMap, splitting := b.splitting,
               entryNames := b.entryNames, assetNames := b.assetNames, format := b.format,
               loader := b.loader) == b
  {
    HashedNames(b.(bundle := true, minify := true, sourceMap := true, splitting := true))
      .(format := Some(Esm), loader := Some(DefaultLoaders()))
  }

  /** `alias(Map)` and `define(Map)`: the entries are added to the map
      already held. */
  function AliasAll(b: Builder, m: OMap<string, string>): (r: Builder)
    ensures forall k :: Get(r.alias, k) == if HasKey(m, k) then LastGet(m, k) else Get(b.alias, k)
    ensures r.(alias := b.alias) == b
  {
    forall k ensures Get(PutAll(b.alias, m), k) == if HasKey(m, k) then LastGet(m, k) else Get(b.alias, k) {
      GetPutAll(b.alias, m, k);
    }
    b.(alias := PutAll(b.alias, m))
  }

  function DefineAll(b: Builder, m: OMap<string, string>): (r: Builder)
    ensures forall k :: Get(r.define, k) == if HasKey(m, k) then LastGet(m, k) else Get(b.define, k)
    ensures r.(define := b.define) == b
  {
    forall k ensures Get(PutAll(b.define, m), k) == if HasKey(m, k) then LastGet(m, k) else Get(b.define, k) {
      GetPutAll(b.define, m, k);
    }
    b.(define := PutAll(b.define, m))
  }

  /** `define(key, value)`. */
  function DefineEntry(b: Builder, key: string, value: string): (r: Builder)
    ensures forall k :: Get(r.define, k) == if k == key then Some(value) else Get(b.define, k)
    ensures r.(define := b.define) == b
  {
    forall k ensures Get(Put(b.define, key, value), k) == if k == key then Some(value) else Get(b.define, k) {
      GetPut(b.define, key, value, k);
    }
    b.(define := Put(b.define, key, value))
  }

  /** `alias(key, value)` as written: the entry lands in the define map and
      the alias map is left alone. */
  function AliasEntryAsWritten(b: Builder, key: string, value: string): (r: Builder)
    ensures r.alias == b.alias
    ensures r == DefineEntry(b, key, value)
  {
    b.(define := Put(b.define, key, value))
  }

  /** `alias(key, value)` as intended: the entry lands in the alias map. */
  function AliasEntry(b: Builder, key: string, value: string): (r: Builder)
    ensures forall k :: Get(r.alias, k) == if k == key then Some(value) else Get(b.alias, k)
    ensures r.(alias := b.alias) == b
  {
    forall k ensures Get(Put(b.alias, key, value), k) == if k == key then Some(value) else Get(b.alias, k) {
      GetPut(b.alias, key, value, k);
    }
    b.(alias := Put(b.alias, key, value))
  }

  /** `addExternal`: appends to the list; a list set to null by `external`
      makes it throw. */
  function AddExternal(b: Builder, name: string): (r: Result<Builder>)
    ensures r.Err? <==> b.external.None?
    ensures r.Ok? ==> r.value.external == Some(b.external.value + [name])
                      && r.value.(external := b.external) == b
  {
    if b.external.None? then Err("null dereference")
    else Ok(b.(external := Some(b.external.value + [name])))
  }

  /** `build`: the record of the builder's fields; `version` and `watch`
      have no component and are dropped. */
  function Build(b: Builder): (c: Config)
    ensures c.bundle == b.bundle && c.sourcemap == b.sourceMap && c.entryPoints == b.entryPoint
    ensures c.alias == Some(b.alias) && c.define == Some(b.define) && c.external == b.external
  {
    Config(b.esBuildVersion, b.bundle, b.entryPoint, b.minify, b.loader, b.preserveSymlinks,
           b.target, b.outdir, b.packages, b.platform, b.serve, b.sourceMap, b.splitting,
           Some(b.alias), Some(b.define), b.excludes, b.format, b.chunkNames, b.entryNames,
           b.assetNames, b.publicPath, b.external)
  }

  /** `EsBuildConfig.edit`: a fresh builder with every component copied
      back; a null alias or define map makes `putAll` throw. */
  function Edit(c: Config): (r: Result<Builder>)
    ensures r.Err? <==> c.alias.None? || c.define.None?
  {
    if c.alias.None? || c.define.None? then Err("null dereference")
    else
      var b := Fresh.(esBuildVersion := c.esBuildVersion, bundle := c.bundle, entryPoint := c.entryPoints,
                      minify := c.minify, loader := c.loader, preserveSymlinks := c.preserveSymlinks,
                      target := c.target, outdir := c.outdir, packages := c.packages,
                      platform := c.platform, serve := c.serve, sourceMap := c.sourcemap,
                      splitting := c.splitting);
      var b := AliasAll(b, c.alias.value);
      var b := DefineAll(b, c.define.value);
      Ok(b.(excludes := c.excludes, format := c.format, chunkNames := c.chunkNames,
            entryNames := c.entryNames, assetNames := c.assetNames, publicPath := c.publicPath,
            external := c.external))
  }

  /** Editing a record and building it again gives the same record, when
      its maps are present and have distinct keys. */
  lemma BuildEdit(c: Config)
    requires c.alias.Some? && UniqueKeys(c.alias.value)
    requires c.define.Some? && UniqueKeys(c.define.value)
    ensures Edit(c).Ok? && Build(Edit(c).value) == c
  {
    assert [] + c.alias.value == c.alias.value;
    assert [] + c.define.value == c.define.value;
    PutAllFresh([], c.alias.value);
    PutAllFresh([], c.define.value);
  }

  /** Building and editing gives back the builder, but for `version` and
      `watch`, which the record does not carry. */
  lemma EditBuild(b: Builder)
    requires UniqueKeys(b.alias) && UniqueKeys(b.define)
    ensures Edit(Build(b)) == Ok(b.(version := false, watch := false))
  {
    assert [] + b.alias == b.alias;
    assert [] + b.define == b.define;
    PutAllFresh([], b.alias);
    PutAllFresh([], b.define);
  }

  // The flag lists the builder's own tests expect.

  // The flags the builder's own tests expect. Each test lemma takes the
  // builder as a parameter equal to the one the test builds; the literal
  // flag texts are worked out apart, about the one component concerned.

  lemma BundleEsmText(c: Config)
    requires c.bundle && c.format == Some(Esm)
    ensures Expected(c, Bundle) + Expected(c, FormatOpt) == multiset{"--bundle", "--format=esm"}
  {
    assert Flag(Bundle) == "bundle" && Flag(FormatOpt) == "format";
    assert "--" + "bundle" == "--bundle";
    assert ToLower("esm") == "esm";
    assert "--" + "format" + "=" + "esm" == "--format=esm";
  }

  /** A bundled ES-module build: `--bundle` and `--format=esm`. */
  lemma BundleEsmFlags(b: Builder)
    requires b == Fresh.(bundle := true, format := Some(Esm))
    ensures multiset(ToParams(Build(b))) == multiset{"--bundle", "--format=esm"}
  {
    PairComponents(Build(b), Bundle, FormatOpt);
    BundleEsmText(Build(b));
  }

  lemma NoUnderscore(s: string)
    requires '_' !in s
    ensures ReplaceChar(s, '_', '-') == s
  {
  }

  lemma LocalCssText()
    ensures ReplaceChar("local_css", '_', '-') == "local-css"
  {
    assert "local" + "_" + "css" == "local_css";
    assert "local" + "-" + "css" == "local-css";
    ReplaceOneUnderscore("local", "css");
  }

  /** Turning the one "_" between two words into "-". */
  lemma ReplaceOneUnderscore(x: string, y: string)
    requires '_' !in x && '_' !in y
    ensures ReplaceChar(x + "_" + y, '_', '-') == x + "-" + y
  {
    var s, t := x + "_" + y, x + "-" + y;
    var r := ReplaceChar(s, '_', '-');
    forall i | 0 <= i < |s|
      ensures r[i] == t[i]
    {
      if i < |x| {
        assert s[i] == x[i] && t[i] == x[i];
      } else if i > |x| {
        assert s[i] == y[i - |x| - 1] && t[i] == y[i - |x| - 1];
      }
    }
  }

  lemma LoaderFlagTexts()
    ensures "--loader:" + ".js" + "=" + "jsx" == "--loader:.js=jsx"
    ensures "--loader:" + ".css" + "=" + "local-css" == "--loader:.css=local-css"
  {
  }

  lemma LoaderAssignments(e: seq<(string, string)>)
    requires e == [(".js", "jsx"), (".css", "local_css")]
    ensures Assignments("--loader:", e) == ["--loader:.js=jsx", "--loader:.css=local-css"]
  {
    AssignmentsOfTwo("--loader:", ".js", "jsx", ".css", "local_css");
    NoUnderscore("jsx");
    LocalCssText();
    LoaderFlagTexts();
  }

  lemma AssignmentsOfTwo(prefix: string, k1: string, v1: string, k2: string, v2: string)
    ensures Assignments(prefix, [(k1, v1), (k2, v2)])
      == [prefix + k1 + "=" + ReplaceChar(v1, '_', '-'), prefix + k2 + "=" + ReplaceChar(v2, '_', '-')]
  {
    var r := Assignments(prefix, [(k1, v1), (k2, v2)]);
    assert r == [r[0], r[1]];
  }

  lemma LoaderMapText(c: Config)
    requires c.loader == Some([(".js", Jsx), (".css", LocalCss)])
    ensures Expected(c, LoaderMap) == multiset{"--loader:.js=jsx", "--loader:.css=local-css"}
  {
    var e := [(".js", "jsx"), (".css", "local_css")];
    LoaderEntriesText(c.loader.value);
    assert ValueOf(c, LoaderMap) == Map(e);
    LoaderFlagPrefix();
    LoaderAssignments(e);
  }

  lemma LoaderEntriesText(m: OMap<string, Loader>)
    requires m == [(".js", Jsx), (".css", LocalCss)]
    ensures LoaderEntries(m) == [(".js", "jsx"), (".css", "local_css")]
  {
    var e := LoaderEntries(m);
    assert e == [e[0], e[1]];
  }

  lemma LoaderFlagPrefix()
    ensures "--" + Flag(LoaderMap) + ":" == "--loader:"
  {
    assert Flag(LoaderMap) == "loader";
  }

  /** Loader names keep their letters; "_" becomes "-". */
  lemma LoaderFlags(b: Builder)
    requires b == Fresh.(loader := Some([(".js", Jsx), (".css", LocalCss)]))
    ensures multiset(ToParams(Build(b))) == multiset{"--loader:.js=jsx", "--loader:.css=local-css"}
  {
    SoleComponent(Build(b), LoaderMap);
    LoaderMapText(Build(b));
  }

  lemma ExternalText(c: Config)
    requires c.external == Some(["*.png", "/images/*"])
    ensures Expected(c, External) == multiset{"--external:*.png", "--external:/images/*"}
  {
    assert Flag(External) == "external";
    assert "--" + "external" + ":" == "--external:";
    PrefixedTwo("--external:", "*.png", "/images/*");
    ExternalFlagTexts();
  }

  /** Each `addExternal` adds one `--external:` flag. */
  lemma ExternalFlags(b: Builder)
    requires AddExternal(Fresh, "*.png").Ok?
    requires b == AddExternal(AddExternal(Fresh, "*.png").value, "/images/*").value
    ensures multiset(ToParams(Build(b))) == multiset{"--external:*.png", "--external:/images/*"}
  {
    assert AddExternal(Fresh, "*.png").value.external == Some([] + ["*.png"]);
    assert [] + ["*.png"] + ["/images/*"] == ["*.png", "/images/*"];
    SoleComponent(Build(b), External);
    ExternalText(Build(b));
  }

  lemma DefineFlagTexts()
    ensures "--define:" + "FOO" + "=" + "BAR" == "--define:FOO=BAR"
    ensures "--define:" + "foo" + "=" + "bar" == "--define:foo=bar"
  {
  }

  lemma DefineText(c: Config)
    requires c.define == Some([("FOO", "BAR"), ("foo", "bar")])
    ensures Expected(c, Define) == multiset{"--define:FOO=BAR", "--define:foo=bar"}
  {
    assert Flag(Define) == "define";
    assert "--" + "define" + ":" == "--define:";
    var r := Assignments("--define:", c.define.value);
    NoUnderscore("BAR");
    NoUnderscore("bar");
    DefineFlagTexts();
    assert r == [r[0], r[1]];
  }

  /** Map keys and values keep their case. */
  lemma DefineFlags(b: Builder)
    requires b == DefineEntry(DefineEntry(Fresh, "FOO", "BAR"), "foo", "bar")
    ensures multiset(ToParams(Build(b))) == multiset{"--define:FOO=BAR", "--define:foo=bar"}
  {
    assert b.define == [("FOO", "BAR"), ("foo", "bar")];
    SoleComponent(Build(b), Define);
    DefineText(Build(b));
  }

  lemma ChunkNamesText(c: Config, s: string)
    requires c.chunkNames == Some(s) && !HasUpper(s)
    ensures Expected(c, ChunkNames) == multiset{"--chunk-names=" + s}
  {
    assert Flag(ChunkNames) == "chunk-names";
    ToLowerIdentity(s);
    assert "--" + "chunk-names" + "=" == "--chunk-names=";
  }

  lemma ChunkPattern(s: string)
    requires s == "chunks/[name]-[hash]"
    ensures !HasUpper(s) && "--chunk-names=" + s == "--chunk-names=chunks/[name]-[hash]"
  {
    forall i | 0 <= i < |s| ensures !IsUpper(s[i]) { }
  }

  /** A chunk name pattern without upper-case letters passes unchanged. */
  lemma ChunkNamesFlag(b: Builder)
    requires b == Fresh.(chunkNames := Some("chunks/[name]-[hash]"))
    ensures multiset(ToParams(Build(b))) == multiset{"--chunk-names=chunks/[name]-[hash]"}
  {
    var s := "chunks/[name]-[hash]";
    ChunkPattern(s);
    SoleComponent(Build(b), ChunkNames);
    ChunkNamesText(Build(b), s);
  }

  // `alias(key, value)` on a fresh builder: as written it yields a define
  // flag and no alias flag; as intended, an alias flag.

  lemma OneEntryText(c: Config, k: Component, key: string, value: string)
    requires ValueOf(c, k) == Map([(key, value)]) && '_' !in value
    ensures Expected(c, k) == multiset{"--" + Flag(k) + ":" + key + "=" + value}
  {
    NoUnderscore(value);
    var r := Assignments("--" + Flag(k) + ":", [(key, value)]);
    assert r == [r[0]];
  }

  lemma ReactTexts()
    ensures "--" + "define" + ":" + "react" + "=" + "preact" == "--define:react=preact"
    ensures "--" + "alias" + ":" + "react" + "=" + "preact" == "--alias:react=preact"
  {
  }

  lemma ReactDefineText(c: Config)
    requires c.define == Some([("react", "preact")])
    ensures Expected(c, Define) == multiset{"--define:react=preact"}
  {
    assert Flag(Define) == "define";
    OneEntryText(c, Define, "react", "preact");
    ReactTexts();
  }

  lemma ReactAliasText(c: Config)
    requires c.alias == Some([("react", "preact")])
    ensures Expected(c, Alias) == multiset{"--alias:react=preact"}
  {
    assert Flag(Alias) == "alias";
    OneEntryText(c, Alias, "react", "preact");
    ReactTexts();
  }

  lemma AliasAsWrittenFlags(b: Builder)
    requires b == AliasEntryAsWritten(Fresh, "react", "preact")
    ensures multiset(ToParams(Build(b))) == multiset{"--define:react=preact"}
  {
    assert b.define == [("react", "preact")];
    SoleComponent(Build(b), Define);
    ReactDefineText(Build(b));
  }

  lemma AliasFlags(b: Builder)
    requires b == AliasEntry(Fresh, "react", "preact")
    ensures multiset(ToParams(Build(b))) == multiset{"--alias:react=preact"}
  {
    assert b.alias == [("react", "preact")];
    SoleComponent(Build(b), Alias);
    ReactAliasText(Build(b));
  }
}
