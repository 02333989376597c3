/** The esbuild configuration record and its two renderings: the command
    line flags handed to the esbuild executable (`toParams`) and the JSON
    object handed to the scripted bundler (`toJson`).

    Both renderings walk the record's components by reflection, in an order
    Java leaves unspecified. The model walks them in declaration order, and
    its properties about the flags are stated as multisets. */
module EsBuildConfigs {
  import opened Wrappers
  import opened Strings
  import opened OrderedMaps
  import opened FlagLists

  datatype Format = Iife | Cjs | Esm

  datatype Loader =
    | Base64 | Binary | Copy | Css | DataUrl | LocalCss | GlobalCss | Empty
    | File | Js | Json | Jsx | Text | Ts | Tsx

  datatype Platform = Browser | Node | Neutral

  datatype Target = Es2017 | Chrome58 | Firefox57 | Safari11 | Edge16 | Node10 | Ie9 | Opera45

  // Every enum's `toString` is its constant name in lower case.

  function FormatText(f: Format): string {
    match f
    case Iife => "iife"
    case Cjs => "cjs"
    case Esm => "esm"
  }

  function LoaderText(l: Loader): string {
    match l
    case Base64 => "base64"
    case Binary => "binary"
    case Copy => "copy"
    case Css => "css"
    case DataUrl => "dataurl"
    case LocalCss => "local_css"
    case GlobalCss => "global_css"
    case Empty => "empty"
    case File => "file"
    case Js => "js"
    case Json => "json"
    case Jsx => "jsx"
    case Text => "text"
    case Ts => "ts"
    case Tsx => "tsx"
  }

  function PlatformText(p: Platform): string {
    match p
    case Browser => "browser"
    case Node => "node"
    case Neutral => "neutral"
  }

  function TargetText(t: Target): string {
    match t
    case Es2017 => "es2017"
    case Chrome58 => "chrome58"
    case Firefox57 => "firefox57"
    case Safari11 => "safari11"
    case Edge16 => "edge16"
    case Node10 => "node10"
    case Ie9 => "ie9"
    case Opera45 => "opera45"
  }

  datatype Config = Config(
    esBuildVersion: Option<string>,
    bundle: bool,
    entryPoints: Option<seq<string>>,
    minify: bool,
    loader: Option<OMap<string, Loader>>,
    preserveSymlinks: bool,
    target: Option<Target>,
    outdir: Option<string>,
    packages: Option<string>,
    platform: Option<Platform>,
    serve: bool,
    sourcemap: bool,
    splitting: bool,
    alias: Option<OMap<string, string>>,
    define: Option<OMap<string, string>>,
    excludes: Option<seq<string>>,
    format: Option<Format>,
    chunkNames: Option<string>,
    entryNames: Option<string>,
    assetNames: Option<string>,
    publicPath: Option<string>,
    external: Option<seq<string>>)

  /** The record's components, as reflection names them. */
  datatype Component =
    | EsBuildVersion | Bundle | EntryPoints | Minify | LoaderMap | PreserveSymlinks
    | TargetOpt | Outdir | Packages | PlatformOpt | Serve | Sourcemap | Splitting
    | Alias | Define | Excludes | FormatOpt | ChunkNames | EntryNames | AssetNames
    | PublicPath | External

  // ---------------------------------------------------------------------
  // camelCase and kebab-case
  // ---------------------------------------------------------------------

  /** A word of a component name: lower-case letters only. */
  type Letter = c: char | 'a' <= c <= 'z' witness 'a'
  type Word = w: seq<Letter> | |w| > 0 witness "a"

  function Capitalize(w: Word): string {
    [UpperChar(w[0])] + w[1..]
  }

  function CamelTail(ws: seq<Word>): string {
    if ws == [] then [] else Capitalize(ws[0]) + CamelTail(ws[1..])
  }

  /** Words run together, every word after the first capitalised. */
  function Camel(ws: seq<Word>): string
    requires |ws| > 0
  {
    ws[0] + CamelTail(ws[1..])
  }

  function Words(k: Component): (ws: seq<Word>)
    ensures |ws| > 0
  {
    match k
    case EsBuildVersion => ["es", "build", "version"]
    case Bundle => ["bundle"]
    case EntryPoints => ["entry", "points"]
    case Minify => ["minify"]
    case LoaderMap => ["loader"]
    case PreserveSymlinks => ["preserve", "symlinks"]
    case TargetOpt => ["target"]
    case Outdir => ["outdir"]
    case Packages => ["packages"]
    case PlatformOpt => ["platform"]
    case Serve => ["serve"]
    case Sourcemap => ["sourcemap"]
    case Splitting => ["splitting"]
    case Alias => ["alias"]
    case Define => ["define"]
    case Excludes => ["excludes"]
    case FormatOpt => ["format"]
    case ChunkNames => ["chunk", "names"]
    case EntryNames => ["entry", "names"]
    case AssetNames => ["asset", "names"]
    case PublicPath => ["public", "path"]
    case External => ["external"]
  }

  /** The component's Java name, e.g. "esBuildVersion". */
  function Name(k: Component): string {
    Camel(Words(k))
  }

  /** `convertField`: split before every upper-case letter (never before
      the first character), lower-case the parts and join them with "-". */
  function ConvertField(field: string): string {
    if field == [] then [] else [LowerChar(field[0])] + KebabTail(field[1..])
  }

  function KebabTail(s: string): string {
    if s == [] then []
    else if IsUpper(s[0]) then ['-', LowerChar(s[0])] + KebabTail(s[1..])
    else [s[0]] + KebabTail(s[1..])
  }

  /** The esbuild flag of a component: its words joined by "-". */
  function Flag(k: Component): string {
    Join(Words(k), "-")
  }

  lemma {:induction false} KebabTailAppend(s: string, t: string)
    ensures KebabTail(s + t) == KebabTail(s) + KebabTail(t)
  {
    if s != [] {
      assert (s + t)[0] == s[0];
      assert (s + t)[1..] == s[1..] + t;
      KebabTailAppend(s[1..], t);
      var h := if IsUpper(s[0]) then ['-', LowerChar(s[0])] else [s[0]];
      assert KebabTail(s + t) == h + KebabTail(s[1..] + t);
      assert KebabTail(s) == h + KebabTail(s[1..]);
      assert h + (KebabTail(s[1..]) + KebabTail(t)) == (h + KebabTail(s[1..])) + KebabTail(t);
    } else {
      assert s + t == t;
    }
  }

  /** Lower-case text passes through unchanged. */
  lemma {:induction false} KebabTailLower(s: string)
    requires forall i :: 0 <= i < |s| ==> IsLower(s[i])
    ensures KebabTail(s) == s
  {
    if s != [] {
      KebabTailLower(s[1..]);
      assert KebabTail(s) == [s[0]] + s[1..];
    }
  }

  function Dashed(ws: seq<string>): seq<string> {
    if ws == [] then [] else ["-" + ws[0]] + Dashed(ws[1..])
  }

  lemma {:induction false} KebabCamelTail(ws: seq<Word>)
    ensures KebabTail(CamelTail(ws)) == Concat(Dashed(ws))
  {
    if ws != [] {
      var w := ws[0];
      KebabCamelTail(ws[1..]);
      KebabTailAppend(Capitalize(w), CamelTail(ws[1..]));
      KebabTailLower(w[1..]);
      assert Capitalize(w)[1..] == w[1..];
      assert KebabTail(Capitalize(w)) == ['-', w[0]] + w[1..];
      assert ['-', w[0]] + w[1..] == "-" + w;
    }
  }

  lemma {:induction false} JoinDashed(ws: seq<string>)
    requires |ws| > 0
    ensures Join(ws, "-") == ws[0] + Concat(Dashed(ws[1..]))
  {
    if |ws| > 1 {
      JoinDashed(ws[1..]);
      assert ws[1..][1..] == ws[2..];
    }
  }

  predicate LowerWord(w: string) {
    |w| > 0 && forall i :: 0 <= i < |w| ==> IsLower(w[i])
  }

  lemma ConvertFieldHead(w: string, rest: string)
    requires LowerWord(w)
    ensures ConvertField(w + rest) == [w[0]] + KebabTail(w[1..] + rest)
  {
    var c := w + rest;
    assert c[0] == w[0] && c[1..] == w[1..] + rest;
  }

  lemma KebabWordTail(w: string, rest: string)
    requires LowerWord(w)
    ensures KebabTail(w[1..] + rest) == w[1..] + KebabTail(rest)
  {
    KebabTailAppend(w[1..], rest);
    KebabTailLower(w[1..]);
  }

  lemma ConvertFieldWord(w: string, rest: string)
    requires LowerWord(w)
    ensures ConvertField(w + rest) == w + KebabTail(rest)
  {
    ConvertFieldHead(w, rest);
    KebabWordTail(w, rest);
    ConsAppend(w, KebabTail(rest));
  }

  /** Putting a word's first letter back in front of the rest of it. */
  lemma ConsAppend(w: string, k: string)
    requires |w| > 0
    ensures [w[0]] + (w[1..] + k) == w + k
  {
    assert [w[0]] + w[1..] == w;
  }

  /** `convertField` turns any camelCase name into its words joined by "-". */
  lemma ConvertCamel(ws: seq<Word>)
    requires |ws| > 0
    ensures ConvertField(Camel(ws)) == Join(ws, "-")
  {
    var w: string := ws[0];
    assert LowerWord(w);
    ConvertFieldWord(w, CamelTail(ws[1..]));
    KebabCamelTail(ws[1..]);
    JoinDashed(ws);
  }

  lemma ConvertFieldFlag(k: Component)
    ensures ConvertField(Name(k)) == Flag(k)
  {
    ConvertCamel(Words(k));
  }

  lemma JoinHasDash(ws: seq<Word>)
    requires |ws| > 1
    ensures '-' in Join(ws, "-")
  {
    var j := Join(ws, "-");
    assert j == ws[0] + "-" + Join(ws[1..], "-");
    assert j[|ws[0]|] == '-';
  }

  /** A dash-free flag comes from a single word. */
  lemma JoinSingle(ws: seq<Word>, w: Word)
    requires |ws| > 0
    requires Join(ws, "-") == w
    ensures ws == [w]
  {
    if |ws| > 1 {
      JoinHasDash(ws);
      assert false;
    }
  }

  /** `outdir` is the only component whose flag is "outdir". */
  lemma LowerCapitalize(w: Word)
    ensures ToLower(Capitalize(w)) == w
  {
    var s := Capitalize(w);
    forall i | 0 <= i < |w| ensures ToLower(s)[i] == w[i] {
      if i == 0 {
        assert s[0] == UpperChar(w[0]);
      } else {
        assert s[i] == w[i];
      }
    }
  }

  lemma LowerWordIdentity(w: Word)
    ensures ToLower(w) == w
  {
    forall i | 0 <= i < |w| ensures ToLower(w)[i] == w[i] {
    }
  }

  lemma {:induction false} LowerCamelTail(ws: seq<Word>)
    ensures ToLower(CamelTail(ws)) == Concat(ws)
  {
    if ws != [] {
      LowerCamelTail(ws[1..]);
      ToLowerConcat(Capitalize(ws[0]), CamelTail(ws[1..]));
      LowerCapitalize(ws[0]);
    }
  }

  /** Lower-casing a camelCase name runs its words together. */
  lemma LowerCamel(ws: seq<Word>)
    requires |ws| > 0
    ensures ToLower(Camel(ws)) == Concat(ws)
  {
    ToLowerConcat(ws[0], CamelTail(ws[1..]));
    LowerWordIdentity(ws[0]);
    LowerCamelTail(ws[1..]);
  }

  lemma OutdirFlag(k: Component)
    ensures Flag(k) == "outdir" <==> k == Outdir
  {
    if Flag(k) == "outdir" {
      JoinSingle(Words(k), "outdir");
    }
  }

  // ---------------------------------------------------------------------
  // toParams
  // ---------------------------------------------------------------------

  /** A component's value as reflection sees it. `Strings` is the record's
      only `String[]` component, `entryPoints`; `Obj` is any other non-null
      object, by its `toString`. */
  datatype FieldValue =
    | Null
    | Bool(b: bool)
    | List(items: seq<string>)
    | Map(entries: seq<(string, string)>)
    | Strings(items: seq<string>)
    | Obj(text: string)

  function TextOf(v: Option<string>): FieldValue {
    if v.Some? then Obj(v.value) else Null
  }

  function ListOf(v: Option<seq<string>>): FieldValue {
    if v.Some? then List(v.value) else Null
  }

  function MapOf(v: Option<OMap<string, string>>): FieldValue {
    if v.Some? then Map(v.value) else Null
  }

  function LoaderEntries(m: OMap<string, Loader>): (r: seq<(string, string)>)
    ensures |r| == |m|
    ensures forall i :: 0 <= i < |m| ==> r[i] == (m[i].0, LoaderText(m[i].1))
  {
    if m == [] then [] else [(m[0].0, LoaderText(m[0].1))] + LoaderEntries(m[1..])
  }

  /** The value reflection reads from one component. */
  function ValueOf(c: Config, k: Component): FieldValue {
    match k
    case EsBuildVersion => TextOf(c.esBuildVersion)
    case Bundle => Bool(c.bundle)
    case EntryPoints => if c.entryPoints.Some? then Strings(c.entryPoints.value) else Null
    case Minify => Bool(c.minify)
    case LoaderMap => if c.loader.Some? then Map(LoaderEntries(c.loader.value)) else Null
    case PreserveSymlinks => Bool(c.preserveSymlinks)
    case TargetOpt => if c.target.Some? then Obj(TargetText(c.target.value)) else Null
    case Outdir => TextOf(c.outdir)
    case Packages => TextOf(c.packages)
    case PlatformOpt => if c.platform.Some? then Obj(PlatformText(c.platform.value)) else Null
    case Serve => Bool(c.serve)
    case Sourcemap => Bool(c.sourcemap)
    case Splitting => Bool(c.splitting)
    case Alias => MapOf(c.alias)
    case Define => MapOf(c.define)
    case Excludes => ListOf(c.excludes)
    case FormatOpt => if c.format.Some? then Obj(FormatText(c.format.value)) else Null
    case ChunkNames => TextOf(c.chunkNames)
    case EntryNames => TextOf(c.entryNames)
    case AssetNames => TextOf(c.assetNames)
    case PublicPath => TextOf(c.publicPath)
    case External => ListOf(c.external)
  }

  /** The components in declaration order: reflection visits each of them
      exactly once. */
  const Order: seq<Component> :=
    [ EsBuildVersion, Bundle, EntryPoints, Minify, LoaderMap, PreserveSymlinks, TargetOpt,
      Outdir, Packages, PlatformOpt, Serve, Sourcemap, Splitting, Alias, Define, Excludes,
      FormatOpt, ChunkNames, EntryNames, AssetNames, PublicPath, External ]

  lemma OrderComplete(k: Component)
    ensures k in Order
  {
  }

  /** Where a component sits in `Order`. */
  function Position(k: Component): int {
    match k
    case EsBuildVersion => 0 case Bundle => 1 case EntryPoints => 2 case Minify => 3
    case LoaderMap => 4 case PreserveSymlinks => 5 case TargetOpt => 6 case Outdir => 7
    case Packages => 8 case PlatformOpt => 9 case Serve => 10 case Sourcemap => 11
    case Splitting => 12 case Alias => 13 case Define => 14 case Excludes => 15
    case FormatOpt => 16 case ChunkNames => 17 case EntryNames => 18 case AssetNames => 19
    case PublicPath => 20 case External => 21
  }

  lemma OrderDistinct()
    ensures Distinct(Order)
  {
    assert forall i :: 0 <= i < |Order| ==> Position(Order[i]) == i;
    DistinctByPosition(Order, Position);
  }

  /** `mapToString`: one `--<field>:<key>=<value>` per entry, with every "_"
      of the value turned into "-"; the field name is used as it is. */
  function MapToString(field: string, entries: seq<(string, string)>): (r: seq<string>)
    ensures |r| == |entries|
  {
    if entries == [] then []
    else ["--" + field + ":" + entries[0].0 + "=" + ReplaceChar(entries[0].1, '_', '-')]
         + MapToString(field, entries[1..])
  }

  /** One `--<flag>:<element>` per list element, in list order. */
  function ListFlags(flag: string, items: seq<string>): (r: seq<string>)
    ensures |r| == |items|
  {
    if items == [] then [] else ["--" + flag + ":" + items[0]] + ListFlags(flag, items[1..])
  }

  /** The flags one component contributes: the body of the `toParams` loop. */
  function FieldParams(name: string, v: FieldValue): seq<string> {
    match v
    case Null => []
    case Bool(b) => if b then ["--" + ConvertField(name)] else []
    case List(items) => ListFlags(ConvertField(name), items)
    case Map(entries) => MapToString(name, entries)
    case Strings(items) => items
    case Obj(text) =>
      var fn := ConvertField(name);
      ["--" + fn + "=" + (if fn == "outdir" then text else ToLower(text))]
  }

  /** The flags of one component of `c`. */
  function Render(c: Config): Component -> seq<string> {
    k => FieldParams(Name(k), ValueOf(c, k))
  }

  /** `toParams`: the flags of all components, one component after another. */
  function ToParams(c: Config): seq<string> {
    Flatten(Render(c), Order)
  }

  // The esbuild command line, component by component, written with the
  // literal flag names: the reference the reflective rendering is checked
  // against.

  function Prefixed(prefix: string, items: seq<string>): (r: seq<string>)
    ensures |r| == |items| && forall i :: 0 <= i < |items| ==> r[i] == prefix + items[i]
  {
    if items == [] then [] else [prefix + items[0]] + Prefixed(prefix, items[1..])
  }

  lemma PrefixedTwo(prefix: string, a: string, b: string)
    ensures Prefixed(prefix, [a, b]) == [prefix + a, prefix + b]
  {
    var r := Prefixed(prefix, [a, b]);
    assert r == [r[0], r[1]];
  }

  lemma ExternalFlagTexts()
    ensures "--external:" + "*.png" == "--external:*.png"
    ensures "--external:" + "/images/*" == "--external:/images/*"
  {
  }

  function Assignments(prefix: string, m: seq<(string, string)>): (r: seq<string>)
    ensures |r| == |m|
    ensures forall i :: 0 <= i < |m| ==> r[i] == prefix + m[i].0 + "=" + ReplaceChar(m[i].1, '_', '-')
  {
    if m == [] then [] else [prefix + m[0].0 + "=" + ReplaceChar(m[0].1, '_', '-')] + Assignments(prefix, m[1..])
  }

  /** The flags esbuild is meant to receive for one component, whose flag
      name is `flag`: `--<flag>` for a set switch, `--<flag>=<value>` for a
      scalar (lower-cased unless `raw`), one `--<flag>:<element>` per list
      element, one `--<flag>:<key>=<value>` per map entry, and the entry
      points as they are. */
  function ExpectedFor(flag: string, raw: bool, v: FieldValue): multiset<string> {
    match v
    case Null => multiset{}
    case Bool(b) => if b then multiset{"--" + flag} else multiset{}
    case Obj(text) => multiset{"--" + flag + "=" + (if raw then text else ToLower(text))}
    case List(items) => multiset(Prefixed("--" + flag + ":", items))
    case Map(entries) => multiset(Assignments("--" + flag + ":", entries))
    case Strings(items) => multiset(items)
  }

  /** A component's flag is its words joined by "-"; only the output
      directory keeps its value's case. */
  function Expected(c: Config, k: Component): multiset<string> {
    ExpectedFor(Flag(k), k == Outdir, ValueOf(c, k))
  }

  function Reference(c: Config): Component -> multiset<string> {
    k => Expected(c, k)
  }

  function ParamSpec(c: Config): multiset<string> {
    Total(Reference(c), Order)
  }

  lemma {:induction false} MapToStringIsAssignments(field: string, entries: seq<(string, string)>)
    ensures MapToString(field, entries) == Assignments("--" + field + ":", entries)
  {
    if entries != [] {
      MapToStringIsAssignments(field, entries[1..]);
      var e := entries[0];
      assert "--" + field + ":" + e.0 == ("--" + field + ":") + e.0;
    }
  }

  lemma {:induction false} ListFlagsIsPrefixed(flag: string, items: seq<string>)
    ensures ListFlags(flag, items) == Prefixed("--" + flag + ":", items)
  {
    if items != [] {
      ListFlagsIsPrefixed(flag, items[1..]);
      assert "--" + flag + ":" + items[0] == ("--" + flag + ":") + items[0];
    }
  }

  /** A one-word component's Java name is its flag. */
  lemma SingleWordName(k: Component)
    requires |Words(k)| == 1
    ensures Name(k) == Flag(k)
  {
  }

  /** Only single-word components hold maps. */
  lemma MapComponents(c: Config, k: Component)
    requires ValueOf(c, k).Map?
    ensures |Words(k)| == 1
  {
  }

  /** The body of the `toParams` loop renders one value as intended,
      given a name whose kebab form is the flag, the "outdir" exception by
      flag, and a map-valued name that is its own flag. */
  lemma FieldParamsExpected(name: string, flag: string, raw: bool, v: FieldValue)
    requires ConvertField(name) == flag
    requires raw <==> flag == "outdir"
    requires v.Map? ==> name == flag
    ensures multiset(FieldParams(name, v)) == ExpectedFor(flag, raw, v)
  {
    match v {
      case List(items) => ListFlagsIsPrefixed(flag, items);
      case Map(entries) => MapToStringIsAssignments(name, entries);
      case _ =>
    }
  }

  lemma ComponentParams(c: Config, k: Component)
    ensures multiset(FieldParams(Name(k), ValueOf(c, k))) == Expected(c, k)
  {
    ConvertFieldFlag(k);
    OutdirFlag(k);
    if ValueOf(c, k).Map? {
      MapComponents(c, k);
      SingleWordName(k);
    }
    FieldParamsExpected(Name(k), Flag(k), k == Outdir, ValueOf(c, k));
  }

  /** Whatever order reflection takes, `toParams` yields exactly the flags
      esbuild is meant to receive for every component. */
  lemma ToParamsMatchesSpec(c: Config)
    ensures multiset(ToParams(c)) == ParamSpec(c)
  {
    forall k ensures multiset(Render(c)(k)) == Reference(c)(k) {
      ComponentParams(c, k);
    }
    FlattenTotal(Render(c), Reference(c), Order);
  }

  /** A value that contributes no flag whatever its flag name. */
  predicate Silent(v: FieldValue) {
    v == Null || v == Bool(false) || v == List([]) || v == Map([]) || v == Strings([])
  }

  lemma SilentExpected(flag: string, raw: bool, v: FieldValue)
    requires Silent(v)
    ensures ExpectedFor(flag, raw, v) == multiset{}
  {
  }

  lemma SilentReference(c: Config)
    ensures forall k :: Silent(ValueOf(c, k)) ==> Reference(c)(k) == multiset{}
  {
    forall k | Silent(ValueOf(c, k)) ensures Reference(c)(k) == multiset{} {
      SilentExpected(Flag(k), k == Outdir, ValueOf(c, k));
    }
  }

  /** A record in which only component `k` holds something renders to
      exactly that component's flags. */
  lemma SoleComponent(c: Config, k: Component)
    requires forall k' :: k' != k ==> Silent(ValueOf(c, k'))
    ensures multiset(ToParams(c)) == Expected(c, k)
  {
    ToParamsMatchesSpec(c);
    OrderDistinct();
    OrderComplete(k);
    SilentReference(c);
    TotalOnly(Reference(c), Order, k);
  }

  /** A record in which only components `k1` and `k2` hold something
      renders to exactly the flags of those two. */
  lemma PairComponents(c: Config, k1: Component, k2: Component)
    requires k1 != k2
    requires forall k :: k != k1 && k != k2 ==> Silent(ValueOf(c, k))
    ensures multiset(ToParams(c)) == Expected(c, k1) + Expected(c, k2)
  {
    ToParamsMatchesSpec(c);
    PairSpec(c, k1, k2);
  }

  lemma PairSpec(c: Config, k1: Component, k2: Component)
    requires k1 != k2
    requires forall k :: k != k1 && k != k2 ==> Silent(ValueOf(c, k))
    ensures ParamSpec(c) == Expected(c, k1) + Expected(c, k2)
  {
    SilentReference(c);
    OrderPair(Reference(c), k1, k2);
  }

  /** Over the reflection order, a per-component expectation that is empty
      but for two components adds up to those two. */
  lemma OrderPair(expected: Component -> multiset<string>, k1: Component, k2: Component)
    requires k1 != k2
    requires forall k :: k != k1 && k != k2 ==> expected(k) == multiset{}
    ensures Total(expected, Order) == expected(k1) + expected(k2)
  {
    OrderDistinct();
    OrderComplete(k1);
    OrderComplete(k2);
    TotalOnlyPair(expected, Order, k1, k2);
  }

  // ---------------------------------------------------------------------
  // toJson
  // ---------------------------------------------------------------------

  datatype JsonValue =
    | JBool(b: bool)
    | JString(s: string)
    | JArray(items: seq<string>)
    | JObject(entries: seq<(string, string)>)

  function ReplaceValues(entries: seq<(string, string)>): (r: seq<(string, string)>)
    ensures |r| == |entries|
    ensures forall i :: 0 <= i < |entries| ==> r[i] == (entries[i].0, ReplaceChar(entries[i].1, '_', '-'))
  {
    if entries == [] then []
    else [(entries[0].0, ReplaceChar(entries[0].1, '_', '-'))] + ReplaceValues(entries[1..])
  }

  /** The member one component contributes to the JSON object, if any. */
  function FieldJson(k: Component, v: FieldValue): Option<JsonValue> {
    if k == Serve then None
    else match v
      case Bool(b) => Some(JBool(b))
      case Map(entries) => if entries == [] then None else Some(JObject(ReplaceValues(entries)))
      case List(items) => if items == [] then None else Some(JArray(items))
      case Strings(items) => if items == [] then None else Some(JArray(items))
      case Obj(text) => Some(JString(text))
      case Null => None
  }

  function Members(c: Config, ks: seq<Component>): (r: seq<(Component, JsonValue)>)
    ensures forall i :: 0 <= i < |r| ==> r[i].0 in ks
  {
    if ks == [] then []
    else
      var rest := Members(c, ks[1..]);
      match FieldJson(ks[0], ValueOf(c, ks[0]))
      case Some(j) => [(ks[0], j)] + rest
      case None => rest
  }

  /** `toJson`: the object's members in the order they are written; each
      member is printed under `Name` of its component. */
  function ToJson(c: Config): seq<(Component, JsonValue)> {
    Members(c, Order)
  }

  lemma {:induction false} MembersLookup(c: Config, ks: seq<Component>, k: Component, j: JsonValue)
    requires k in ks
    requires forall a, b :: 0 <= a < b < |ks| ==> ks[a] != ks[b]
    ensures (k, j) in Members(c, ks) <==> FieldJson(k, ValueOf(c, k)) == Some(j)
  {
    if ks[0] == k {
      assert k !in ks[1..];
    } else {
      MembersLookup(c, ks[1..], k, j);
    }
  }

  /** What `toJson` writes for one component: a member exactly when the
      component is not `serve`, not null, and not an empty map, list or
      array; booleans always; map values with "_" turned into "-". */
  lemma ToJsonMember(c: Config, k: Component, j: JsonValue)
    ensures (k, j) in ToJson(c) <==> FieldJson(k, ValueOf(c, k)) == Some(j)
  {
    OrderDistinct();
    OrderComplete(k);
    MembersLookup(c, Order, k, j);
  }

  /** `serve` is never written. */
  lemma ToJsonSkipsServe(c: Config, j: JsonValue)
    ensures (Serve, j) !in ToJson(c)
  {
    ToJsonMember(c, Serve, j);
  }

  /** Every boolean other than `serve` is always written, as it is,
      whether true or false. */
  lemma ToJsonBooleans(c: Config)
    ensures forall k, b :: k != Serve && ValueOf(c, k) == Bool(b) ==> (k, JBool(b)) in ToJson(c)
  {
    forall k, b | k != Serve && ValueOf(c, k) == Bool(b)
      ensures (k, JBool(b)) in ToJson(c)
    {
      ToJsonBoolean(c, k, b);
    }
  }

  lemma ToJsonBoolean(c: Config, k: Component, b: bool)
    requires k != Serve && ValueOf(c, k) == Bool(b)
    ensures (k, JBool(b)) in ToJson(c)
  {
    ToJsonMember(c, k, JBool(b));
  }

  /** An unset scalar is left out, a set one written as it is. */
  lemma ToJsonOutdir(c: Config, j: JsonValue)
    ensures (Outdir, j) in ToJson(c) <==> c.outdir.Some? && j == JString(c.outdir.value)
  {
    ToJsonMember(c, Outdir, j);
  }

  /** An empty list is left out like an unset one. */
  lemma ToJsonExternal(c: Config, j: JsonValue)
    ensures (External, j) in ToJson(c) <==> c.external.Some? && c.external.value != [] && j == JArray(c.external.value)
  {
    ToJsonMember(c, External, j);
  }

  /** Map values are written with "_" turned into "-". */
  lemma ToJsonDefine(c: Config)
    requires c.define.Some? && c.define.value != []
    ensures (Define, JObject(ReplaceValues(c.define.value))) in ToJson(c)
  {
    ToJsonMember(c, Define, JObject(ReplaceValues(c.define.value)));
  }
}
