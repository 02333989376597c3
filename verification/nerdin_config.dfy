/** The oldest esbuild configuration bean (package `ch.nerdin.esbuild`).
    Its `toParams` walks the bean's fields by reflection and differs from
    its successors in three ways: every scalar that is not a boolean,
    lists and `outDir` included, is `--<name lower-cased>=<toString
    lower-cased>`; a map is ONE argument, `--<field>:` followed by every
    `key=value` with no separator; and the entry point is a single string.
    `FixedParams` is the evidently intended rendering: one flag per map
    entry, the output directory kept as written. */
module NerdinConfigs {
  import opened Wrappers
  import opened Strings
  import opened OrderedMaps
  import opened FlagLists
  import C = EsBuildConfigs

  /** This bean's loader enum has no CSS-module loaders. */
  type NerdinLoader = l: C.Loader | l != C.LocalCss && l != C.GlobalCss witness C.Js

  datatype NerdinConfig = NerdinConfig(
    bundle: bool,
    entryPoint: Option<string>,
    minify: bool,
    version: bool,
    substitutes: Option<OMap<string, string>>,
    excludes: Option<seq<string>>,
    format: Option<C.Format>,
    loader: Option<OMap<string, NerdinLoader>>,
    outDir: Option<string>,
    packages: Option<string>,
    platform: Option<C.Platform>,
    serve: bool,
    sourceMap: bool,
    splitting: bool,
    target: Option<C.Target>,
    watch: bool)

  /** `new Config()`: every field null or false. */
  const Blank := NerdinConfig(false, None, false, false, None, None, None, None, None, None, None,
                              false, false, false, None, false)

  datatype Field =
    | Bundle | EntryPoint | Minify | Version | Substitutes | Excludes | Format | Loader
    | OutDir | Packages | Platform | Serve | SourceMap | Splitting | Target | Watch

  function Words(f: Field): (ws: seq<C.Word>)
    ensures |ws| > 0
  {
    match f
    case Bundle => ["bundle"]
    case EntryPoint => ["entry", "point"]
    case Minify => ["minify"]
    case Version => ["version"]
    case Substitutes => ["substitutes"]
    case Excludes => ["excludes"]
    case Format => ["format"]
    case Loader => ["loader"]
    case OutDir => ["out", "dir"]
    case Packages => ["packages"]
    case Platform => ["platform"]
    case Serve => ["serve"]
    case SourceMap => ["source", "map"]
    case Splitting => ["splitting"]
    case Target => ["target"]
    case Watch => ["watch"]
  }

  /** The field's Java name, e.g. "outDir". */
  function Name(f: Field): string {
    C.Camel(Words(f))
  }

  /** The field name lower-cased, e.g. "outdir". */
  function Switch(f: Field): string {
    Concat(Words(f))
  }

  /** What reflection reads from a field: null, a boolean, a map, or an
      object whose `toString` the loop uses. */
  datatype Value = Null | Bool(b: bool) | Map(entries: seq<(string, string)>) | Text(text: string)

  /** `AbstractCollection.toString`: the elements between brackets,
      separated by ", ". */
  function ListText(items: seq<string>): string {
    "[" + Join(items, ", ") + "]"
  }

  function ValueOf(c: NerdinConfig, f: Field): Value {
    match f
    case Bundle => Bool(c.bundle)
    case EntryPoint => if c.entryPoint.Some? then Text(c.entryPoint.value) else Null
    case Minify => Bool(c.minify)
    case Version => Bool(c.version)
    case Substitutes => if c.substitutes.Some? then Map(c.substitutes.value) else Null
    case Excludes => if c.excludes.Some? then Text(ListText(c.excludes.value)) else Null
    case Format => if c.format.Some? then Text(C.FormatText(c.format.value)) else Null
    case Loader => if c.loader.Some? then Map(C.LoaderEntries(c.loader.value)) else Null
    case OutDir => if c.outDir.Some? then Text(c.outDir.value) else Null
    case Packages => if c.packages.Some? then Text(c.packages.value) else Null
    case Platform => if c.platform.Some? then Text(C.PlatformText(c.platform.value)) else Null
    case Serve => Bool(c.serve)
    case SourceMap => Bool(c.sourceMap)
    case Splitting => Bool(c.splitting)
    case Target => if c.target.Some? then Text(C.TargetText(c.target.value)) else Null
    case Watch => Bool(c.watch)
  }

  /** The fields in declaration order. */
  const Order: seq<Field> :=
    [ Bundle, EntryPoint, Minify, Version, Substitutes, Excludes, Format, Loader, OutDir, Packages,
      Platform, Serve, SourceMap, Splitting, Target, Watch ]

  lemma OrderComplete(f: Field)
    ensures f in Order
  {
  }

  lemma OrderDistinct()
    ensures Distinct(Order)
  {
  }

  // ---------------------------------------------------------------------
  // mapToString and toParams as written
  // ---------------------------------------------------------------------

  /** One entry as `mapToString` appends it: `key=value`, the value
      lower-cased. */
  function Piece(e: (string, string)): string {
    e.0 + "=" + ToLower(e.1)
  }

  function Pieces(entries: seq<(string, string)>): (r: seq<string>)
    ensures |r| == |entries|
    ensures forall i :: 0 <= i < |entries| ==> r[i] == Piece(entries[i])
  {
    if entries == [] then [] else [Piece(entries[0])] + Pieces(entries[1..])
  }

  /** `mapToString`: a builder that starts as ":" and has each entry
      appended in iteration order. */
  function MapToString(entries: seq<(string, string)>): string
    decreases |entries|
  {
    if entries == [] then ":"
    else MapToString(entries[..|entries| - 1]) + Piece(entries[|entries| - 1])
  }

  /** The body of the `toParams` loop. */
  function FieldParams(name: string, v: Value): seq<string> {
    match v
    case Null => []
    case Bool(b) => if b then ["--" + ToLower(name)] else []
    case Map(entries) => ["--" + name + MapToString(entries)]
    case Text(t) => if name == "entryPoint" then [t] else ["--" + ToLower(name) + "=" + ToLower(t)]
  }

  function Render(c: NerdinConfig): Field -> seq<string> {
    f => FieldParams(Name(f), ValueOf(c, f))
  }

  function ToParams(c: NerdinConfig): seq<string> {
    Flatten(Render(c), Order)
  }

  // ---------------------------------------------------------------------
  // The corrected rendering
  // ---------------------------------------------------------------------

  /** One `<prefix>key=value` flag per entry. */
  function EntryFlags(prefix: string, entries: seq<(string, string)>): (r: seq<string>)
    ensures |r| == |entries|
    ensures forall i :: 0 <= i < |entries| ==> r[i] == prefix + Piece(entries[i])
  {
    if entries == [] then [] else [prefix + Piece(entries[0])] + EntryFlags(prefix, entries[1..])
  }

  /** The loop body with both defects repaired. */
  function FixedFieldParams(name: string, v: Value): seq<string> {
    match v
    case Null => []
    case Bool(b) => if b then ["--" + ToLower(name)] else []
    case Map(entries) => EntryFlags("--" + name + ":", entries)
    case Text(t) =>
      var fn := ToLower(name);
      if name == "entryPoint" then [t] else ["--" + fn + "=" + (if fn == "outdir" then t else ToLower(t))]
  }

  function FixedRender(c: NerdinConfig): Field -> seq<string> {
    f => FixedFieldParams(Name(f), ValueOf(c, f))
  }

  function FixedParams(c: NerdinConfig): seq<string> {
    Flatten(FixedRender(c), Order)
  }

  // ---------------------------------------------------------------------
  // The reference, field by field
  // ---------------------------------------------------------------------

  /** As written: `--<switch>` for a set switch; for a map, one argument
      holding every entry's `key=value` run together; the entry point as it
      is; any other value lower-cased after `--<switch>=`. */
  function ExpectedFor(switch: string, entry: bool, v: Value): multiset<string> {
    match v
    case Null => multiset{}
    case Bool(b) => if b then multiset{"--" + switch} else multiset{}
    case Map(entries) => multiset{"--" + switch + ":" + Concat(Pieces(entries))}
    case Text(t) => if entry then multiset{t} else multiset{"--" + switch + "=" + ToLower(t)}
  }

  /** As intended: one flag per map entry, and the output directory
      (`raw`) kept as written. */
  function FixedExpectedFor(switch: string, entry: bool, raw: bool, v: Value): multiset<string> {
    match v
    case Null => multiset{}
    case Bool(b) => if b then multiset{"--" + switch} else multiset{}
    case Map(entries) => multiset(C.Prefixed("--" + switch + ":", Pieces(entries)))
    case Text(t) =>
      if entry then multiset{t} else multiset{"--" + switch + "=" + (if raw then t else ToLower(t))}
  }

  function Expected(c: NerdinConfig, f: Field): multiset<string> {
    ExpectedFor(Switch(f), f == EntryPoint, ValueOf(c, f))
  }

  function FixedExpected(c: NerdinConfig, f: Field): multiset<string> {
    FixedExpectedFor(Switch(f), f == EntryPoint, f == OutDir, ValueOf(c, f))
  }

  function Reference(c: NerdinConfig): Field -> multiset<string> {
    f => Expected(c, f)
  }

  function FixedReference(c: NerdinConfig): Field -> multiset<string> {
    f => FixedExpected(c, f)
  }

  // ---------------------------------------------------------------------
  // From the loop bodies to the references
  // ---------------------------------------------------------------------

  lemma {:induction false} PiecesSnoc(entries: seq<(string, string)>)
    requires entries != []
    ensures Pieces(entries) == Pieces(entries[..|entries| - 1]) + [Piece(entries[|entries| - 1])]
  {
    var n := |entries|;
    var a, b := Pieces(entries), Pieces(entries[..n - 1]) + [Piece(entries[n - 1])];
    assert |a| == |b|;
    forall i | 0 <= i < |a| ensures a[i] == b[i] {
      if i < n - 1 {
        assert entries[..n - 1][i] == entries[i];
      }
    }
  }

  /** The builder loop leaves ":" followed by every entry's text in order. */
  lemma {:induction false} MapToStringIsConcat(entries: seq<(string, string)>)
    ensures MapToString(entries) == ":" + Concat(Pieces(entries))
    decreases |entries|
  {
    if entries != [] {
      var n := |entries|;
      var init := entries[..n - 1];
      var last := Piece(entries[n - 1]);
      MapToStringIsConcat(init);
      PiecesSnoc(entries);
      ConcatAppend(Pieces(init), [last]);
      ConcatSingle(last);
      calc {
        MapToString(entries);
        MapToString(init) + last;
        (":" + Concat(Pieces(init))) + last;
        ":" + (Concat(Pieces(init)) + Concat([last]));
        ":" + Concat(Pieces(init) + [last]);
        ":" + Concat(Pieces(entries));
      }
    }
  }

  lemma ConcatSingle(x: string)
    ensures Concat([x]) == x
  {
    assert Concat([x]) == x + Concat([]);
  }

  lemma {:induction false} EntryFlagsArePrefixed(prefix: string, entries: seq<(string, string)>)
    ensures EntryFlags(prefix, entries) == C.Prefixed(prefix, Pieces(entries))
  {
  }

  /** Lengths and first letters tell the entry point and the output
      directory apart from every other field. */
  lemma SwitchShape(f: Field)
    ensures |Switch(f)| == 10 <==> f == EntryPoint
    ensures |Switch(f)| == 6 && Switch(f)[0] == 'o' <==> f == OutDir
  {
    var ws := Words(f);
    if |ws| == 2 {
      assert Switch(f) == ws[0] + ws[1] + Concat([]);
    } else {
      assert Switch(f) == ws[0] + Concat([]);
    }
  }

  lemma EntryPointName(f: Field)
    ensures Name(f) == "entryPoint" <==> f == EntryPoint
  {
    if f == EntryPoint {
      assert C.CamelTail(["point"]) == C.Capitalize("point") + C.CamelTail([]);
      assert C.Capitalize("point") == "Point";
    } else {
      C.LowerCamel(Words(f));
      SwitchShape(f);
    }
  }

  lemma OutDirSwitch(f: Field)
    ensures Switch(f) == "outdir" <==> f == OutDir
  {
    SwitchShape(f);
    if f == OutDir {
      assert Switch(f) == "out" + ("dir" + Concat([]));
    }
  }

  /** How the Java name relates to the switch, the entry point and the
      output directory. */
  lemma NameForms(f: Field)
    ensures ToLower(Name(f)) == Switch(f)
    ensures Name(f) == "entryPoint" <==> f == EntryPoint
    ensures Switch(f) == "outdir" <==> f == OutDir
  {
    C.LowerCamel(Words(f));
    EntryPointName(f);
    OutDirSwitch(f);
  }

  /** Only single-word fields hold maps, so their Java name is their switch. */
  lemma MapFields(c: NerdinConfig, f: Field)
    ensures ValueOf(c, f).Map? ==> Name(f) == Switch(f)
  {
  }

  lemma FieldParamsExpected(name: string, switch: string, entry: bool, v: Value)
    requires ToLower(name) == switch
    requires entry <==> name == "entryPoint"
    requires v.Map? ==> name == switch
    ensures multiset(FieldParams(name, v)) == ExpectedFor(switch, entry, v)
  {
    if v.Map? {
      MapToStringIsConcat(v.entries);
      assert "--" + name + MapToString(v.entries) == "--" + switch + ":" + Concat(Pieces(v.entries));
    }
  }

  lemma FixedFieldParamsExpected(name: string, switch: string, entry: bool, raw: bool, v: Value)
    requires ToLower(name) == switch
    requires entry <==> name == "entryPoint"
    requires raw <==> switch == "outdir"
    requires v.Map? ==> name == switch
    ensures multiset(FixedFieldParams(name, v)) == FixedExpectedFor(switch, entry, raw, v)
  {
    if v.Map? {
      EntryFlagsArePrefixed("--" + name + ":", v.entries);
    }
  }

  lemma FieldRendersExpected(c: NerdinConfig, f: Field)
    ensures multiset(FieldParams(Name(f), ValueOf(c, f))) == Expected(c, f)
    ensures multiset(FixedFieldParams(Name(f), ValueOf(c, f))) == FixedExpected(c, f)
  {
    NameForms(f);
    MapFields(c, f);
    FieldParamsExpected(Name(f), Switch(f), f == EntryPoint, ValueOf(c, f));
    FixedFieldParamsExpected(Name(f), Switch(f), f == EntryPoint, f == OutDir, ValueOf(c, f));
  }

  /** Whatever order reflection takes, `toParams` yields exactly the
      reference arguments of every field. */
  lemma ToParamsMatchesSpec(c: NerdinConfig)
    ensures multiset(ToParams(c)) == Total(Reference(c), Order)
  {
    forall f ensures multiset(Render(c)(f)) == Reference(c)(f) {
      FieldRendersExpected(c, f);
    }
    FlattenTotal(Render(c), Reference(c), Order);
  }

  /** The corrected rendering yields exactly the intended arguments. */
  lemma FixedParamsMatchesSpec(c: NerdinConfig)
    ensures multiset(FixedParams(c)) == Total(FixedReference(c), Order)
  {
    forall f ensures multiset(FixedRender(c)(f)) == FixedReference(c)(f) {
      FieldRendersExpected(c, f);
    }
    FlattenTotal(FixedRender(c), FixedReference(c), Order);
  }

  /** Only an unset value or a false switch contributes nothing; an empty
      map still gives its `--<field>:` argument. */
  predicate Silent(v: Value) {
    v == Null || v == Bool(false)
  }

  lemma SilentReference(c: NerdinConfig)
    ensures forall f :: Silent(ValueOf(c, f)) ==> Reference(c)(f) == multiset{}
    ensures forall f :: Silent(ValueOf(c, f)) ==> FixedReference(c)(f) == multiset{}
  {
  }

  lemma SoleSilent(c: NerdinConfig, f: Field)
    requires forall g :: g != f ==> Silent(ValueOf(c, g))
    ensures forall g :: g != f ==> Reference(c)(g) == multiset{}
    ensures forall g :: g != f ==> FixedReference(c)(g) == multiset{}
  {
    SilentReference(c);
  }

  lemma SoleSpec(c: NerdinConfig, f: Field)
    requires forall g :: g != f ==> Silent(ValueOf(c, g))
    ensures Total(Reference(c), Order) == Expected(c, f)
  {
    OrderDistinct();
    OrderComplete(f);
    SoleSilent(c, f);
    TotalOnly(Reference(c), Order, f);
  }

  lemma FixedSoleSpec(c: NerdinConfig, f: Field)
    requires forall g :: g != f ==> Silent(ValueOf(c, g))
    ensures Total(FixedReference(c), Order) == FixedExpected(c, f)
  {
    OrderDistinct();
    OrderComplete(f);
    SoleSilent(c, f);
    TotalOnly(FixedReference(c), Order, f);
  }

  /** A bean in which only field `f` holds something renders to exactly
      that field's arguments. */
  lemma SoleField(c: NerdinConfig, f: Field)
    requires forall g :: g != f ==> Silent(ValueOf(c, g))
    ensures multiset(ToParams(c)) == Expected(c, f)
  {
    ToParamsMatchesSpec(c);
    SoleSpec(c, f);
  }

  /** The same for the corrected rendering. */
  lemma FixedSoleField(c: NerdinConfig, f: Field)
    requires forall g :: g != f ==> Silent(ValueOf(c, g))
    ensures multiset(FixedParams(c)) == FixedExpected(c, f)
  {
    FixedParamsMatchesSpec(c);
    FixedSoleSpec(c, f);
  }

  lemma PairSilent(c: NerdinConfig, f1: Field, f2: Field)
    requires forall g :: g != f1 && g != f2 ==> Silent(ValueOf(c, g))
    ensures forall g :: g != f1 && g != f2 ==> Reference(c)(g) == multiset{}
  {
    SilentReference(c);
  }

  lemma PairFields(c: NerdinConfig, f1: Field, f2: Field)
    requires f1 != f2
    requires forall g :: g != f1 && g != f2 ==> Silent(ValueOf(c, g))
    ensures multiset(ToParams(c)) == Expected(c, f1) + Expected(c, f2)
  {
    ToParamsMatchesSpec(c);
    PairSpec(c, f1, f2);
  }

  lemma PairSpec(c: NerdinConfig, f1: Field, f2: Field)
    requires f1 != f2
    requires forall g :: g != f1 && g != f2 ==> Silent(ValueOf(c, g))
    ensures Total(Reference(c), Order) == Expected(c, f1) + Expected(c, f2)
  {
    OrderDistinct();
    OrderComplete(f1);
    OrderComplete(f2);
    PairSilent(c, f1, f2);
    TotalOnlyPair(Reference(c), Order, f1, f2);
  }

  // ---------------------------------------------------------------------
  // Beans with one or two fields set
  // ---------------------------------------------------------------------

  lemma BundleEsmText(c: NerdinConfig)
    requires c.bundle && c.format == Some(C.Esm)
    ensures Expected(c, Bundle) + Expected(c, Format) == multiset{"--bundle", "--format=esm"}
  {
    assert Switch(Bundle) == "bundle" && Switch(Format) == "format";
    assert "--" + "bundle" == "--bundle";
    assert ToLower("esm") == "esm";
    assert "--" + "format" + "=" + "esm" == "--format=esm";
  }

  /** `setBundle(true)` and format ESM: `--bundle` and `--format=esm`. */
  lemma BundleEsmFlags(c: NerdinConfig)
    requires c == Blank.(bundle := true, format := Some(C.Esm))
    ensures multiset(ToParams(c)) == multiset{"--bundle", "--format=esm"}
  {
    PairFields(c, Bundle, Format);
    BundleEsmText(c);
  }

  lemma SourceMapText(c: NerdinConfig)
    requires c.sourceMap
    ensures Expected(c, SourceMap) == multiset{"--sourcemap"}
  {
    assert Switch(SourceMap) == "sourcemap";
    assert "--" + "sourcemap" == "--sourcemap";
  }

  /** A set switch is the field name lower-cased. */
  lemma SourceMapFlag(c: NerdinConfig)
    requires c == Blank.(sourceMap := true)
    ensures multiset(ToParams(c)) == multiset{"--sourcemap"}
  {
    SoleField(c, SourceMap);
    SourceMapText(c);
  }

  lemma EmptyMapText(c: NerdinConfig)
    requires c.substitutes == Some([])
    ensures Expected(c, Substitutes) == multiset{"--substitutes:"}
  {
    assert Switch(Substitutes) == "substitutes";
    assert "--" + "substitutes" + ":" + "" == "--substitutes:";
  }

  /** An empty map still yields its `--<field>:` argument. */
  lemma EmptyMapFlag(c: NerdinConfig)
    requires c == Blank.(substitutes := Some([]))
    ensures multiset(ToParams(c)) == multiset{"--substitutes:"}
  {
    SoleField(c, Substitutes);
    EmptyMapText(c);
  }

  lemma JsxCssLower()
    ensures ToLower("jsx") == "jsx" && ToLower("css") == "css"
  {
    forall i | 0 <= i < 3 ensures !IsUpper("jsx"[i]) && !IsUpper("css"[i]) { }
    ToLowerIdentity("jsx");
    ToLowerIdentity("css");
  }

  lemma PieceTexts()
    ensures ".js" + "=" + "jsx" == ".js=jsx" && ".css" + "=" + "css" == ".css=css"
  {
  }

  lemma LoaderPieces(e: seq<(string, string)>)
    requires e == [(".js", "jsx"), (".css", "css")]
    ensures Pieces(e) == [".js=jsx", ".css=css"]
  {
    JsxCssLower();
    PieceTexts();
    var p := Pieces(e);
    assert p[0] == Piece(e[0]) && p[1] == Piece(e[1]);
  }

  lemma LoaderTexts()
    ensures "--" + "loader" + ":" + (".js=jsx" + (".css=css" + "")) == "--loader:.js=jsx.css=css"
    ensures "--" + "loader" + ":" == "--loader:"
    ensures "--loader:" + ".js=jsx" == "--loader:.js=jsx"
    ensures "--loader:" + ".css=css" == "--loader:.css=css"
  {
  }

  lemma LoaderMapText(e: seq<(string, string)>, v: Value, switch: string)
    requires e == [(".js", "jsx"), (".css", "css")] && v == Map(e) && switch == "loader"
    ensures ExpectedFor(switch, false, v) == multiset{"--loader:.js=jsx.css=css"}
    ensures FixedExpectedFor(switch, false, false, v) == multiset{"--loader:.js=jsx", "--loader:.css=css"}
  {
    LoaderPieces(e);
    var p := Pieces(e);
    assert Concat(p) == ".js=jsx" + (".css=css" + Concat([]));
    LoaderTexts();
    var q := C.Prefixed("--loader:", p);
    assert q == [q[0], q[1]];
  }

  lemma LoaderText(c: NerdinConfig)
    requires c.loader == Some([(".js", C.Jsx), (".css", C.Css)])
    ensures Expected(c, Loader) == multiset{"--loader:.js=jsx.css=css"}
  {
    var e := C.LoaderEntries(c.loader.value);
    assert e == [(".js", "jsx"), (".css", "css")];
    assert Switch(Loader) == "loader";
    LoaderMapText(e, ValueOf(c, Loader), Switch(Loader));
  }

  lemma FixedLoaderText(c: NerdinConfig)
    requires c.loader == Some([(".js", C.Jsx), (".css", C.Css)])
    ensures FixedExpected(c, Loader) == multiset{"--loader:.js=jsx", "--loader:.css=css"}
  {
    var e := C.LoaderEntries(c.loader.value);
    assert e == [(".js", "jsx"), (".css", "css")];
    assert Switch(Loader) == "loader";
    LoaderMapText(e, ValueOf(c, Loader), Switch(Loader));
  }

  /** As written, two loader entries are glued into one argument that
      esbuild reads as the loader "jsx.css=css" for ".js". */
  lemma LoaderEntriesGlued(c: NerdinConfig)
    requires c == Blank.(loader := Some([(".js", C.Jsx), (".css", C.Css)]))
    ensures multiset(ToParams(c)) == multiset{"--loader:.js=jsx.css=css"}
  {
    SoleField(c, Loader);
    LoaderText(c);
  }

  /** As intended, each loader entry is a flag of its own. */
  lemma FixedLoaderFlags(c: NerdinConfig)
    requires c == Blank.(loader := Some([(".js", C.Jsx), (".css", C.Css)]))
    ensures multiset(FixedParams(c)) == multiset{"--loader:.js=jsx", "--loader:.css=css"}
  {
    FixedSoleField(c, Loader);
    FixedLoaderText(c);
  }

  lemma LowerWeb()
    ensures ToLower("/tmp/Web") == "/tmp/web"
  {
    var s := "/tmp/Web";
    var t := ToLower(s);
    assert s[5] == 'W' && LowerChar('W') == 'w';
    assert forall i | 0 <= i < 8 && i != 5 :: LowerChar(s[i]) == s[i];
    assert forall i | 0 <= i < 8 :: t[i] == "/tmp/web"[i];
  }

  lemma LowerOutDirFlag()
    ensures "--" + "outdir" + "=" + "/tmp/web" == "--outdir=/tmp/web"
  {
    var t := "--" + "outdir" + "=" + "/tmp/web";
    assert forall i | 0 <= i < |t| :: t[i] == "--outdir=/tmp/web"[i];
  }

  lemma KeptOutDirFlag()
    ensures "--" + "outdir" + "=" + "/tmp/Web" == "--outdir=/tmp/Web"
  {
    var t := "--" + "outdir" + "=" + "/tmp/Web";
    assert forall i | 0 <= i < |t| :: t[i] == "--outdir=/tmp/Web"[i];
  }

  lemma OutDirTexts()
    ensures ToLower("/tmp/Web") == "/tmp/web"
    ensures "--" + "outdir" + "=" + "/tmp/web" == "--outdir=/tmp/web"
    ensures "--" + "outdir" + "=" + "/tmp/Web" == "--outdir=/tmp/Web"
  {
    LowerWeb();
    LowerOutDirFlag();
    KeptOutDirFlag();
  }

  lemma OutDirText(c: NerdinConfig)
    requires c.outDir == Some("/tmp/Web")
    ensures Expected(c, OutDir) == multiset{"--outdir=/tmp/web"}
  {
    OutDirSwitch(OutDir);
    OutDirTexts();
  }

  lemma FixedOutDirText(c: NerdinConfig)
    requires c.outDir == Some("/tmp/Web")
    ensures FixedExpected(c, OutDir) == multiset{"--outdir=/tmp/Web"}
  {
    OutDirSwitch(OutDir);
    OutDirTexts();
  }

  /** As written, the output directory is lower-cased like any other value,
      so "/tmp/Web" becomes "/tmp/web". */
  lemma OutDirLowered(c: NerdinConfig)
    requires c == Blank.(outDir := Some("/tmp/Web"))
    ensures multiset(ToParams(c)) == multiset{"--outdir=/tmp/web"}
  {
    SoleField(c, OutDir);
    OutDirText(c);
  }

  /** As intended, the output directory keeps its case. */
  lemma FixedOutDirKept(c: NerdinConfig)
    requires c == Blank.(outDir := Some("/tmp/Web"))
    ensures multiset(FixedParams(c)) == multiset{"--outdir=/tmp/Web"}
  {
    FixedSoleField(c, OutDir);
    FixedOutDirText(c);
  }
}
