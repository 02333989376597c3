/** The earlier mutable esbuild configuration bean (package
    `io.mvnpm.esbuild.model` of the original layout). Its `toParams` walks
    the bean's fields by reflection like the record's does, with three
    differences: a set switch is the field name merely lower-cased
    (`sourceMap` gives `--sourcemap`), map values are lower-cased before
    "_" becomes "-", and `watch` is a string that `setWatch` fills with
    "forever". The enums' `toString` is the upper-case constant name; every
    use lower-cases it, so the model keeps the lower-case texts of the
    record's enums. */
module LegacyEsBuildConfigs {
  import opened Wrappers
  import opened Strings
  import opened OrderedMaps
  import opened FlagLists
  import C = EsBuildConfigs
  import B = EsBuildConfigBuilders

  datatype LegacyConfig = LegacyConfig(
    bundle: bool,
    entryPoint: Option<seq<string>>,
    minify: bool,
    version: bool,
    substitutes: Option<OMap<string, string>>,
    excludes: Option<seq<string>>,
    format: Option<C.Format>,
    loader: Option<OMap<string, C.Loader>>,
    outdir: Option<string>,
    packages: Option<string>,
    platform: Option<C.Platform>,
    serve: bool,
    sourceMap: bool,
    splitting: bool,
    target: Option<C.Target>,
    watch: Option<string>,
    chunkNames: Option<string>,
    entryNames: Option<string>,
    assetNames: Option<string>,
    external: seq<string>)

  /** `new EsBuildConfig()`: every field null or false; `external` is a
      final list that starts empty. */
  const Blank := LegacyConfig(false, None, false, false, None, None, None, None, None, None, None,
                              false, false, false, None, None, None, None, None, [])

  /** `setWatch`: "forever" switches watching on, null switches it off. */
  function SetWatch(c: LegacyConfig, on: bool): (r: LegacyConfig)
    ensures r.(watch := c.watch) == c
  {
    c.(watch := if on then Some("forever") else None)
  }

  predicate IsWatch(c: LegacyConfig) {
    c.watch.Some?
  }

  /** Reading the switch back gives what was set. */
  lemma WatchRoundTrip(c: LegacyConfig, on: bool)
    ensures IsWatch(SetWatch(c, on)) == on
    ensures on ==> SetWatch(c, on).watch == Some("forever")
  {
  }

  /** `addExternal`: the name goes to the end of the list. */
  function AddExternal(c: LegacyConfig, name: string): (r: LegacyConfig)
    ensures r.external == c.external + [name]
    ensures r.(external := c.external) == c
  {
    c.(external := c.external + [name])
  }

  // ---------------------------------------------------------------------
  // toParams
  // ---------------------------------------------------------------------

  datatype Field =
    | Bundle | EntryPoint | Minify | Version | Substitutes | Excludes | Format | Loader
    | Outdir | Packages | Platform | Serve | SourceMap | Splitting | Target | Watch
    | ChunkNames | EntryNames | AssetNames | External

  function Words(f: Field): (ws: seq<C.Word>)
    ensures |ws| > 0
  {
    match f
    case Bundle => ["bundle"]
    case EntryPoint => ["entry", "point"]
    case Minify => ["minify"]
    case Version => ["version"]
    case Substitutes => ["substitutes"]
    case Excludes => ["excludes"]
    case Format => ["format"]
    case Loader => ["loader"]
    case Outdir => ["outdir"]
    case Packages => ["packages"]
    case Platform => ["platform"]
    case Serve => ["serve"]
    case SourceMap => ["source", "map"]
    case Splitting => ["splitting"]
    case Target => ["target"]
    case Watch => ["watch"]
    case ChunkNames => ["chunk", "names"]
    case EntryNames => ["entry", "names"]
    case AssetNames => ["asset", "names"]
    case External => ["external"]
  }

  /** The field's Java name, e.g. "sourceMap". */
  function Name(f: Field): string {
    C.Camel(Words(f))
  }

  /** The kebab form `convertField` gives, e.g. "chunk-names". */
  function Flag(f: Field): string {
    Join(Words(f), "-")
  }

  /** The field name lower-cased, e.g. "sourcemap". */
  function Switch(f: Field): string {
    Concat(Words(f))
  }

  function ValueOf(c: LegacyConfig, f: Field): C.FieldValue {
    match f
    case Bundle => C.Bool(c.bundle)
    case EntryPoint => if c.entryPoint.Some? then C.Strings(c.entryPoint.value) else C.Null
    case Minify => C.Bool(c.minify)
    case Version => C.Bool(c.version)
    case Substitutes => C.MapOf(c.substitutes)
    case Excludes => C.ListOf(c.excludes)
    case Format => if c.format.Some? then C.Obj(C.FormatText(c.format.value)) else C.Null
    case Loader => if c.loader.Some? then C.Map(C.LoaderEntries(c.loader.value)) else C.Null
    case Outdir => C.TextOf(c.outdir)
    case Packages => C.TextOf(c.packages)
    case Platform => if c.platform.Some? then C.Obj(C.PlatformText(c.platform.value)) else C.Null
    case Serve => C.Bool(c.serve)
    case SourceMap => C.Bool(c.sourceMap)
    case Splitting => C.Bool(c.splitting)
    case Target => if c.target.Some? then C.Obj(C.TargetText(c.target.value)) else C.Null
    case Watch => C.TextOf(c.watch)
    case ChunkNames => C.TextOf(c.chunkNames)
    case EntryNames => C.TextOf(c.entryNames)
    case AssetNames => C.TextOf(c.assetNames)
    case External => C.List(c.external)
  }

  /** The fields in declaration order. */
  const Order: seq<Field> :=
    [ Bundle, EntryPoint, Minify, Version, Substitutes, Excludes, Format, Loader, Outdir, Packages,
      Platform, Serve, SourceMap, Splitting, Target, Watch, ChunkNames, EntryNames, AssetNames, External ]

  lemma OrderComplete(f: Field)
    ensures f in Order
  {
  }

  /** Where a field sits in `Order`. */
  function Position(f: Field): int {
    match f
    case Bundle => 0 case EntryPoint => 1 case Minify => 2 case Version => 3 case Substitutes => 4
    case Excludes => 5 case Format => 6 case Loader => 7 case Outdir => 8 case Packages => 9
    case Platform => 10 case Serve => 11 case SourceMap => 12 case Splitting => 13 case Target => 14
    case Watch => 15 case ChunkNames => 16 case EntryNames => 17 case AssetNames => 18 case External => 19
  }

  lemma OrderDistinct()
    ensures Distinct(Order)
  {
    assert forall i :: 0 <= i < |Order| ==> Position(Order[i]) == i;
    DistinctByPosition(Order, Position);
  }

  /** `mapToString`: one `--<field>:<key>=<value>` per entry, the value
      lower-cased and every "_" of it turned into "-". */
  function MapToString(field: string, entries: seq<(string, string)>): (r: seq<string>)
    ensures |r| == |entries|
  {
    if entries == [] then []
    else ["--" + field + ":" + entries[0].0 + "=" + ReplaceChar(ToLower(entries[0].1), '_', '-')]
         + MapToString(field, entries[1..])
  }

  /** The body of the `toParams` loop. */
  function FieldParams(name: string, v: C.FieldValue): seq<string> {
    match v
    case Null => []
    case Bool(b) => if b then ["--" + ToLower(name)] else []
    case List(items) => C.ListFlags(C.ConvertField(name), items)
    case Map(entries) => MapToString(name, entries)
    case Strings(items) => items
    case Obj(text) =>
      var fn := C.ConvertField(name);
      ["--" + fn + "=" + (if fn == "outdir" then text else ToLower(text))]
  }

  function Render(c: LegacyConfig): Field -> seq<string> {
    f => FieldParams(Name(f), ValueOf(c, f))
  }

  function ToParams(c: LegacyConfig): seq<string> {
    Flatten(Render(c), Order)
  }

  // The reference, field by field.

  /** The entries with their values lower-cased. */
  function LowerValues(entries: seq<(string, string)>): (r: seq<(string, string)>)
    ensures |r| == |entries|
    ensures forall i :: 0 <= i < |entries| ==> r[i] == (entries[i].0, ToLower(entries[i].1))
  {
    if entries == [] then [] else [(entries[0].0, ToLower(entries[0].1))] + LowerValues(entries[1..])
  }

  /** `--<switch>` for a set switch, `--<flag>=<value>` for a scalar
      (lower-cased unless `raw`), one `--<flag>:<element>` per list element,
      one `--<flag>:<key>=<value>` per map entry with the value lower-cased,
      and the entry points as they are. */
  function ExpectedFor(switch: string, flag: string, raw: bool, v: C.FieldValue): multiset<string> {
    match v
    case Null => multiset{}
    case Bool(b) => if b then multiset{"--" + switch} else multiset{}
    case Obj(text) => multiset{"--" + flag + "=" + (if raw then text else ToLower(text))}
    case List(items) => multiset(C.Prefixed("--" + flag + ":", items))
    case Map(entries) => multiset(C.Assignments("--" + flag + ":", LowerValues(entries)))
    case Strings(items) => multiset(items)
  }

  function Expected(c: LegacyConfig, f: Field): multiset<string> {
    ExpectedFor(Switch(f), Flag(f), f == Outdir, ValueOf(c, f))
  }

  function Reference(c: LegacyConfig): Field -> multiset<string> {
    f => Expected(c, f)
  }

  function ParamSpec(c: LegacyConfig): multiset<string> {
    Total(Reference(c), Order)
  }

  // From the loop body to the reference.

  lemma OutdirFlag(f: Field)
    ensures Flag(f) == "outdir" <==> f == Outdir
  {
    if Flag(f) == "outdir" {
      C.JoinSingle(Words(f), "outdir");
    }
  }

  /** Only single-word fields hold maps, so their Java name is their flag. */
  lemma MapFields(c: LegacyConfig, f: Field)
    ensures ValueOf(c, f).Map? ==> Name(f) == Flag(f)
  {
  }

  lemma {:induction false} MapToStringIsAssignments(field: string, entries: seq<(string, string)>)
    ensures MapToString(field, entries) == C.Assignments("--" + field + ":", LowerValues(entries))
  {
    if entries != [] {
      MapToStringIsAssignments(field, entries[1..]);
      var e := entries[0];
      assert "--" + field + ":" + e.0 == ("--" + field + ":") + e.0;
      assert LowerValues(entries)[1..] == LowerValues(entries[1..]);
    }
  }

  lemma FieldParamsExpected(name: string, switch: string, flag: string, raw: bool, v: C.FieldValue)
    requires ToLower(name) == switch
    requires C.ConvertField(name) == flag
    requires raw <==> flag == "outdir"
    requires v.Map? ==> name == flag
    ensures multiset(FieldParams(name, v)) == ExpectedFor(switch, flag, raw, v)
  {
    match v {
      case List(items) => C.ListFlagsIsPrefixed(flag, items);
      case Map(entries) => MapToStringIsAssignments(name, entries);
      case _ =>
    }
  }

  /** How the Java name relates to the switch and the flag. */
  lemma NameForms(f: Field)
    ensures ToLower(Name(f)) == Switch(f)
    ensures C.ConvertField(Name(f)) == Flag(f)
    ensures Flag(f) == "outdir" <==> f == Outdir
  {
    C.ConvertCamel(Words(f));
    C.LowerCamel(Words(f));
    OutdirFlag(f);
  }

  lemma FieldRendersExpected(c: LegacyConfig, f: Field)
    ensures multiset(FieldParams(Name(f), ValueOf(c, f))) == Expected(c, f)
  {
    NameForms(f);
    MapFields(c, f);
    FieldParamsExpected(Name(f), Switch(f), Flag(f), f == Outdir, ValueOf(c, f));
  }

  /** Whatever order reflection takes, `toParams` yields exactly the
      reference flags of every field. */
  lemma ToParamsMatchesSpec(c: LegacyConfig)
    ensures multiset(ToParams(c)) == ParamSpec(c)
  {
    forall f ensures multiset(Render(c)(f)) == Reference(c)(f) {
      FieldRendersExpected(c, f);
    }
    FlattenTotal(Render(c), Reference(c), Order);
  }

  lemma SilentExpected(switch: string, flag: string, raw: bool, v: C.FieldValue)
    requires C.Silent(v)
    ensures ExpectedFor(switch, flag, raw, v) == multiset{}
  {
  }

  lemma SilentReference(c: LegacyConfig)
    ensures forall f :: C.Silent(ValueOf(c, f)) ==> Reference(c)(f) == multiset{}
  {
    forall f | C.Silent(ValueOf(c, f)) ensures Reference(c)(f) == multiset{} {
      SilentExpected(Switch(f), Flag(f), f == Outdir, ValueOf(c, f));
    }
  }

  lemma PairSilent(c: LegacyConfig, f1: Field, f2: Field)
    requires forall g :: g != f1 && g != f2 ==> C.Silent(ValueOf(c, g))
    ensures forall g :: g != f1 && g != f2 ==> Reference(c)(g) == multiset{}
  {
    SilentReference(c);
  }

  lemma SoleSpec(c: LegacyConfig, f: Field)
    requires forall g :: g != f ==> C.Silent(ValueOf(c, g))
    ensures ParamSpec(c) == Expected(c, f)
  {
    OrderDistinct();
    OrderComplete(f);
    SilentReference(c);
    TotalOnly(Reference(c), Order, f);
  }

  /** A bean in which only field `f` holds something renders to exactly
      that field's flags. */
  lemma SoleField(c: LegacyConfig, f: Field)
    requires forall g :: g != f ==> C.Silent(ValueOf(c, g))
    ensures multiset(ToParams(c)) == Expected(c, f)
  {
    ToParamsMatchesSpec(c);
    SoleSpec(c, f);
  }

  lemma PairSpec(c: LegacyConfig, f1: Field, f2: Field)
    requires f1 != f2
    requires forall g :: g != f1 && g != f2 ==> C.Silent(ValueOf(c, g))
    ensures ParamSpec(c) == Expected(c, f1) + Expected(c, f2)
  {
    OrderDistinct();
    OrderComplete(f1);
    OrderComplete(f2);
    PairSilent(c, f1, f2);
    TotalOnlyPair(Reference(c), Order, f1, f2);
  }

  lemma PairFields(c: LegacyConfig, f1: Field, f2: Field)
    requires f1 != f2
    requires forall g :: g != f1 && g != f2 ==> C.Silent(ValueOf(c, g))
    ensures multiset(ToParams(c)) == Expected(c, f1) + Expected(c, f2)
  {
    ToParamsMatchesSpec(c);
    PairSpec(c, f1, f2);
  }

  // ---------------------------------------------------------------------
  // Beans with one or two fields set
  // ---------------------------------------------------------------------

  lemma BundleEsmText(c: LegacyConfig)
    requires c.bundle && c.format == Some(C.Esm)
    ensures Expected(c, Bundle) + Expected(c, Format) == multiset{"--bundle", "--format=esm"}
  {
    assert Switch(Bundle) == "bundle" && Flag(Format) == "format";
    assert "--" + "bundle" == "--bundle";
    assert ToLower("esm") == "esm";
    assert "--" + "format" + "=" + "esm" == "--format=esm";
  }

  /** `setBundle(true)` and `setFormat(ESM)`: `--bundle` and `--format=esm`. */
  lemma BundleEsmFlags(c: LegacyConfig)
    requires c == Blank.(bundle := true, format := Some(C.Esm))
    ensures multiset(ToParams(c)) == multiset{"--bundle", "--format=esm"}
  {
    PairFields(c, Bundle, Format);
    BundleEsmText(c);
  }

  lemma JsxLower()
    ensures ToLower("jsx") == "jsx"
  {
    var t := "jsx";
    forall i | 0 <= i < |t| ensures !IsUpper(t[i]) { }
    ToLowerIdentity(t);
  }

  lemma LocalCssLower()
    ensures ToLower("local_css") == "local_css"
  {
    var t := "local_css";
    forall i | 0 <= i < |t| ensures !IsUpper(t[i]) { }
    ToLowerIdentity(t);
  }

  lemma LoaderValuesLower(e: seq<(string, string)>)
    requires e == [(".js", "jsx"), (".css", "local_css")]
    ensures LowerValues(e) == e
  {
    JsxLower();
    LocalCssLower();
    var r := LowerValues(e);
    assert r[0] == e[0] && r[1] == e[1];
  }

  lemma LoaderMapText(e: seq<(string, string)>, v: C.FieldValue)
    requires e == [(".js", "jsx"), (".css", "local_css")] && v == C.Map(e)
    ensures ExpectedFor(Switch(Loader), "loader", false, v) == multiset{"--loader:.js=jsx", "--loader:.css=local-css"}
  {
    assert "--" + "loader" + ":" == "--loader:";
    LoaderValuesLower(e);
    B.LoaderAssignments(e);
  }

  lemma LoaderText(c: LegacyConfig)
    requires c.loader == Some([(".js", C.Jsx), (".css", C.LocalCss)])
    ensures Expected(c, Loader) == multiset{"--loader:.js=jsx", "--loader:.css=local-css"}
  {
    var e := C.LoaderEntries(c.loader.value);
    assert e == [(".js", "jsx"), (".css", "local_css")];
    assert Flag(Loader) == "loader";
    LoaderMapText(e, ValueOf(c, Loader));
  }

  /** Loader names are lower-cased and "_" becomes "-". */
  lemma LoaderFlags(c: LegacyConfig)
    requires c == Blank.(loader := Some([(".js", C.Jsx), (".css", C.LocalCss)]))
    ensures multiset(ToParams(c)) == multiset{"--loader:.js=jsx", "--loader:.css=local-css"}
  {
    SoleField(c, Loader);
    LoaderText(c);
  }

  lemma ExternalText(c: LegacyConfig)
    requires c.external == ["*.png", "/images/*"]
    ensures Expected(c, External) == multiset{"--external:*.png", "--external:/images/*"}
  {
    assert Flag(External) == "external";
    assert "--" + "external" + ":" == "--external:";
    C.PrefixedTwo("--external:", "*.png", "/images/*");
    C.ExternalFlagTexts();
  }

  /** Each `addExternal` adds one `--external:` flag. */
  lemma ExternalFlags(c: LegacyConfig)
    requires c == AddExternal(AddExternal(Blank, "*.png"), "/images/*")
    ensures multiset(ToParams(c)) == multiset{"--external:*.png", "--external:/images/*"}
  {
    assert c.external == ["*.png", "/images/*"];
    SoleField(c, External);
    ExternalText(c);
  }

  lemma ChunkNamesText(c: LegacyConfig, s: string)
    requires c.chunkNames == Some(s) && !HasUpper(s)
    ensures Expected(c, ChunkNames) == multiset{"--chunk-names=" + s}
  {
    assert Flag(ChunkNames) == "chunk-names";
    ToLowerIdentity(s);
    assert "--" + "chunk-names" + "=" == "--chunk-names=";
  }

  /** `setChunkNames` passes a lower-case pattern through unchanged. */
  lemma ChunkNamesFlag(c: LegacyConfig)
    requires c == Blank.(chunkNames := Some("chunks/[name]-[hash]"))
    ensures multiset(ToParams(c)) == multiset{"--chunk-names=chunks/[name]-[hash]"}
  {
    var s := "chunks/[name]-[hash]";
    B.ChunkPattern(s);
    SoleField(c, ChunkNames);
    ChunkNamesText(c, s);
  }

  lemma SourceMapText(c: LegacyConfig)
    requires c.sourceMap
    ensures Expected(c, SourceMap) == multiset{"--sourcemap"}
  {
    assert Switch(SourceMap) == "sourcemap";
    assert "--" + "sourcemap" == "--sourcemap";
  }

  /** A set switch is the field name lower-cased, without a dash. */
  lemma SourceMapFlag(c: LegacyConfig)
    requires c == Blank.(sourceMap := true)
    ensures multiset(ToParams(c)) == multiset{"--sourcemap"}
  {
    SoleField(c, SourceMap);
    SourceMapText(c);
  }

  lemma ForeverLower()
    ensures ToLower("forever") == "forever"
  {
    var t := "forever";
    forall i | 0 <= i < |t| ensures !IsUpper(t[i]) { }
    ToLowerIdentity(t);
  }

  lemma WatchFlagText()
    ensures "--" + "watch" + "=" + "forever" == "--watch=forever"
  {
  }

  /** A scalar other than `outdir` is lower-cased. */
  lemma ScalarExpected(c: LegacyConfig, f: Field, text: string)
    requires ValueOf(c, f) == C.Obj(text) && f != Outdir
    ensures Expected(c, f) == multiset{"--" + Flag(f) + "=" + ToLower(text)}
  {
  }

  lemma WatchText(c: LegacyConfig)
    requires c.watch == Some("forever")
    ensures Expected(c, Watch) == multiset{"--watch=forever"}
  {
    ScalarExpected(c, Watch, "forever");
    assert Flag(Watch) == "watch";
    ForeverLower();
    WatchFlagText();
  }

  /** `setWatch(true)` asks esbuild to watch forever. */
  lemma WatchFlag(c: LegacyConfig)
    requires c == SetWatch(Blank, true)
    ensures multiset(ToParams(c)) == multiset{"--watch=forever"}
  {
    SoleField(c, Watch);
    WatchText(c);
  }
}
