/** The generated entry point of a bundle (`AutoEntryPoint`): the project
    sources turned into import and export lines, preceded by the imports of
    the installed web dependencies when auto-dependencies are on. */
module AutoEntryPoints {
  import opened Wrappers
  import opened Strings
  import JPaths

  /** The extensions that make a file a script. */
  const Scripts: set<string> := {"js", "ts", "jsx", "tsx", "mjs", "mts", "cjs", "cts"}

  /** `Path.of(path).getFileName()`; `None` is the null of a root path. */
  function FileNameOf(path: string): Option<string> {
    JPaths.FileName(JPaths.Parse(path))
  }

  /** `resolveExtension`: the text after the last '.' of the file name, or
      the whole file name when it has no dot; `None` where the program
      dereferences the null file name of a root path. */
  function ResolveExtension(path: string): (r: Option<string>)
    ensures r.None? <==> FileNameOf(path).None?
    ensures r.Some? ==> '.' !in r.value && EndsWith(FileNameOf(path).value, r.value)
    ensures r.Some? && '.' in FileNameOf(path).value ==> EndsWith(FileNameOf(path).value, "." + r.value)
    ensures r.Some? && '.' !in FileNameOf(path).value ==> r.value == FileNameOf(path).value
  {
    match FileNameOf(path)
    case None => None
    case Some(f) =>
      AfterLastDot(f);
      Some(f[LastIndexOf(f, '.') + 1..])
  }

  lemma AfterLastDot(f: string)
    ensures '.' !in f[LastIndexOf(f, '.') + 1..]
    ensures EndsWith(f, f[LastIndexOf(f, '.') + 1..])
    ensures '.' in f ==> EndsWith(f, "." + f[LastIndexOf(f, '.') + 1..])
    ensures '.' !in f ==> f[LastIndexOf(f, '.') + 1..] == f
  {
    var k := LastIndexOf(f, '.');
    DotFreeAfter(f, k);
    SuffixEndsWith(f, k + 1);
    LastIndexOfNone(f, '.');
    if k >= 0 {
      DotSuffixEndsWith(f, k);
    } else {
      assert f[0..] == f;
    }
  }

  /** No dot after the last one. */
  lemma DotFreeAfter(f: string, k: int)
    requires -1 <= k < |f|
    requires forall i :: k < i < |f| ==> f[i] != '.'
    ensures '.' !in f[k + 1..]
  {
    var e := f[k + 1..];
    forall j | 0 <= j < |e|
      ensures e[j] != '.'
    {
      assert e[j] == f[k + 1 + j];
    }
  }

  lemma SuffixEndsWith(f: string, k: nat)
    requires k <= |f|
    ensures EndsWith(f, f[k..])
  {
  }

  lemma DotSuffixEndsWith(f: string, k: nat)
    requires k < |f| && f[k] == '.'
    ensures EndsWith(f, "." + f[k + 1..])
  {
    assert f[k..] == [f[k]] + f[k + 1..];
  }

  lemma {:induction false} LastIndexOfSplit(a: string, c: char, b: string)
    requires c !in b
    ensures LastIndexOf(a + [c] + b, c) == |a|
    decreases |b|
  {
    var s := a + [c] + b;
    if b != [] {
      var b' := b[..|b| - 1];
      assert s[..|s| - 1] == a + [c] + b';
      assert s[|s| - 1] == b[|b| - 1];
      LastIndexOfSplit(a, c, b');
    }
  }

  /** A file name without '/' is the file name of itself and of any path
      that ends with it after a '/'. */
  lemma FileNameOfPath(dir: string, f: string)
    requires f != "" && '/' !in f
    ensures FileNameOf(f) == Some(f)
    ensures FileNameOf(dir + "/" + f) == Some(f)
  {
    assert Split(f, '/') == [f];
    assert JPaths.NonEmpty([f]) == [f];
    SplitAppendLast(dir, f, '/');
    JPaths.NonEmptyAppend(Split(dir, '/'), [f]);
    assert dir + "/" + f == dir + ['/'] + f;
  }

  lemma {:induction false} SplitChars(s: string, sep: char)
    ensures forall i, c :: 0 <= i < |Split(s, sep)| && c in Split(s, sep)[i] ==> c in s
    decreases |s|
  {
    if sep in s {
      var k := FirstIndex(s, sep);
      SplitChars(s[k + 1..], sep);
      assert forall c :: c in s[..k] ==> c in s;
      assert forall c :: c in s[k + 1..] ==> c in s;
      assert Split(s, sep) == [s[..k]] + Split(s[k + 1..], sep);
    }
  }

  /** The file name is made of characters of the path. */
  lemma FileNameChars(path: string)
    requires FileNameOf(path).Some?
    ensures forall c :: c in FileNameOf(path).value ==> c in path
  {
    SplitChars(path, '/');
  }

  lemma FileNameOfNamedFile(dir: string, stem: string, ext: string)
    requires '/' !in stem && '/' !in ext
    ensures FileNameOf(dir + "/" + stem + "." + ext) == Some(stem + "." + ext)
  {
    FileNameOfPath(dir, stem + "." + ext);
    assert dir + "/" + stem + "." + ext == dir + "/" + (stem + "." + ext);
  }

  /** The extension of "stem.ext", with or without a directory in front. */
  lemma ExtensionOfFile(dir: string, stem: string, ext: string)
    requires '/' !in stem && '/' !in ext && '.' !in ext
    ensures ResolveExtension(stem + "." + ext) == Some(ext)
    ensures ResolveExtension(dir + "/" + stem + "." + ext) == Some(ext)
    ensures FileNameOf(dir + "/" + stem + "." + ext) == Some(stem + "." + ext)
  {
    var f := stem + "." + ext;
    FileNameOfPath(dir, f);
    assert dir + "/" + stem + "." + ext == dir + "/" + f;
    LastIndexOfSplit(stem, '.', ext);
    assert f == stem + ['.'] + ext;
    assert f[|stem| + 1..] == ext;
  }

  /** `isScript`: false for a null or blank path, otherwise whether the
      extension is a script extension; an error where `resolveExtension`
      fails. */
  function IsScript(path: Option<string>): (r: Result<bool>)
    ensures path.None? ==> r == Ok(false)
    ensures path.Some? && IsBlank(path.value) ==> r == Ok(false)
    ensures r.Err? <==> path.Some? && !IsBlank(path.value) && FileNameOf(path.value).None?
  {
    match path
    case None => Ok(false)
    case Some(p) =>
      if IsBlank(p) then Ok(false)
      else match ResolveExtension(p)
        case None => Err("null dereference")
        case Some(ext) => Ok(ext in Scripts)
  }

  /** A named file is a script exactly when its extension is one of the
      script extensions. */
  lemma IsScriptFile(dir: string, stem: string, ext: string)
    requires '/' !in stem && '/' !in ext && '.' !in ext
    ensures IsScript(Some(stem + "." + ext)) == Ok(ext in Scripts)
    ensures IsScript(Some(dir + "/" + stem + "." + ext)) == Ok(ext in Scripts)
  {
    ExtensionOfFile(dir, stem, ext);
    DottedNotBlank(stem, ext);
    DottedNotBlank(dir + "/" + stem, ext);
    IsScriptOfExtension(stem + "." + ext, ext);
    IsScriptOfExtension(dir + "/" + stem + "." + ext, ext);
  }

  lemma IsScriptOfExtension(p: string, ext: string)
    requires !IsBlank(p) && ResolveExtension(p) == Some(ext)
    ensures IsScript(Some(p)) == Ok(ext in Scripts)
  {
  }

  lemma DottedNotBlank(a: string, b: string)
    ensures !IsBlank(a + "." + b)
  {
    NotBlankAt(a + "." + b, |a|);
  }

  lemma NotBlankAt(s: string, i: nat)
    requires i < |s| && s[i] == '.'
    ensures !IsBlank(s)
  {
  }

  // ---------------------------------------------------------------------
  // Sources

  /** `AutoEntryPoint.Source`: a path relative to the root directory and
      its extension. */
  datatype Source = Source(relativePath: string, ext: string)

  /** `Source.of`: the extension is `resolveExtension`'s, so a file name
      without a dot is its own extension; a path without a file name fails
      with the null dereference. */
  function SourceOf(path: string): (r: Result<Source>)
    ensures r.Ok? <==> FileNameOf(path).Some?
    ensures r.Ok? ==> r.value.relativePath == path && ResolveExtension(path) == Some(r.value.ext)
  {
    match ResolveExtension(path)
    case None => Err("null dereference")
    case Some(ext) => Ok(Source(path, ext))
  }

  /** `withAutoDeps`: every path becomes a source; one without a file name
      fails the construction. */
  function SourcesOf(paths: seq<string>): (r: Result<seq<Source>>)
    ensures r.Ok? <==> forall i :: 0 <= i < |paths| ==> SourceOf(paths[i]).Ok?
    ensures r.Ok? ==> |r.value| == |paths|
    ensures r.Ok? ==> forall i :: 0 <= i < |paths| ==> r.value[i] == SourceOf(paths[i]).value
  {
    if paths == [] then Ok([])
    else
      match SourceOf(paths[0])
      case Err(e) => Err(e)
      case Ok(s) =>
        var tail := SourcesOf(paths[1..]);
        ShiftedAllOk(paths, tail.Ok?, SourceOf);
        match tail
        case Err(e) => Err(e)
        case Ok(rest) =>
          ConsConverted(paths, s, rest, SourceOf);
          Ok([s] + rest)
  }

  /** `Source.isIgnored`: a file or directory whose name starts with '_'. */
  predicate IsIgnored(s: Source) {
    Contains(s.relativePath, "/_") || StartsWith(s.relativePath, "_")
  }

  predicate IsScriptSource(s: Source) {
    s.ext in Scripts
  }

  /** The path without its extension: everything before the last '.'. */
  function StripExtension(p: string): (r: string)
    ensures r <= p
  {
    var k := LastIndexOf(p, '.');
    if k < 0 then p else p[..k]
  }

  /** `Source.relativePathWithoutExt`: the path cut at its last dot, which
      may lie in a directory name; `substring` throws on a path without
      any dot. */
  function PathWithoutExt(p: string): (r: Result<string>)
    ensures r.Ok? <==> '.' in p
    ensures r.Ok? ==> r.value == StripExtension(p)
  {
    var k := LastIndexOf(p, '.');
    LastIndexOfNone(p, '.');
    if k < 0 then Err("StringIndexOutOfBoundsException") else Ok(p[..k])
  }

  function ExportLine(path: string): string {
    "export * from \"./" + path + "\";"
  }

  function ImportLine(path: string): string {
    "import \"./" + path + "\";"
  }

  /** The line for one source: scripts are re-exported without their
      extension, other files imported as they are; the export fails when
      the path has no dot at all. */
  function SourceLine(s: Source): (r: Result<string>)
    ensures r.Err? <==> IsScriptSource(s) && '.' !in s.relativePath
    ensures !IsScriptSource(s) ==> r == Ok(ImportLine(s.relativePath))
    ensures IsScriptSource(s) && r.Ok? ==> r.value == ExportLine(StripExtension(s.relativePath))
  {
    if IsScriptSource(s) then
      var p :- PathWithoutExt(s.relativePath);
      Ok(ExportLine(p))
    else Ok(ImportLine(s.relativePath))
  }

  /** A file "stem.ext" under a directory: a script is re-exported as the
      path without ".ext", anything else imported by its full path. */
  lemma SourceLineOfFile(dir: string, stem: string, ext: string)
    requires '/' !in stem && '/' !in ext && '.' !in ext
    ensures var p := dir + "/" + stem + "." + ext;
      SourceOf(p) == Ok(Source(p, ext))
      && SourceLine(Source(p, ext)) == Ok(if ext in Scripts then ExportLine(dir + "/" + stem) else ImportLine(p))
  {
    ExtensionOfFile(dir, stem, ext);
    StripExtensionOf(dir + "/" + stem, ext);
    DotInDotted(dir + "/" + stem, ext);
  }

  lemma DotInDotted(stem: string, ext: string)
    ensures '.' in stem + "." + ext
  {
    assert (stem + "." + ext)[|stem|] == '.';
  }

  lemma StripExtensionOf(a: string, b: string)
    requires '.' !in b
    ensures StripExtension(a + "." + b) == a
  {
    assert a + "." + b == a + ['.'] + b;
    LastIndexOfSplit(a, '.', b);
    assert (a + "." + b)[..|a|] == a;
  }

  /** A source file named just "js" counts as a script and then makes the
      entry point fail. */
  lemma DotlessScriptNameAsWritten()
    ensures SourceOf("js") == Ok(Source("js", "js"))
    ensures SourceLine(Source("js", "js")).Err?
  {
    DotlessExtensionAsWritten("", "js");
  }

  /** A dotless script name in a directory with a dot in its name (such
      as "a.b/js") is re-exported as the path cut at the directory's dot
      ("./a"), a module that does not exist. */
  lemma DottedDirectoryAsWritten(a: string, b: string, f: string)
    requires '.' !in b && '/' !in f && '.' !in f && f in Scripts
    ensures var p := a + "." + b + "/" + f;
      SourceOf(p) == Ok(Source(p, f))
      && SourceLine(Source(p, f)) == Ok(ExportLine(a))
  {
    assert f != "";
    DotlessExtensionAsWritten(a + "." + b, f);
    DotlessJoin(a, b, f);
    StripExtensionOf(a, b + "/" + f);
    DotInDotted(a, b + "/" + f);
  }

  /** The last dot of "a.b/f" is the one after `a` when `b` and `f` have
      none. */
  lemma DotlessJoin(a: string, b: string, f: string)
    requires '.' !in b && '.' !in f
    ensures '.' !in b + "/" + f
    ensures a + "." + b + "/" + f == a + "." + (b + "/" + f)
  {
  }

  /** As written, a file name without a dot is its own extension. */
  lemma DotlessExtensionAsWritten(dir: string, f: string)
    requires f != "" && '/' !in f && '.' !in f
    ensures ResolveExtension(f) == Some(f)
    ensures ResolveExtension(dir + "/" + f) == Some(f)
  {
    FileNameOfPath(dir, f);
  }

  // The correction: a file name without a dot has no extension, so such
  // a source is never a script and never cut at a dot.

  /** The text after the last '.' of the file name, and "" when the file
      name has no dot. */
  function FixedExtension(path: string): (r: Option<string>)
    ensures r.None? <==> FileNameOf(path).None?
    ensures r.Some? && '.' in FileNameOf(path).value ==> r == ResolveExtension(path)
    ensures r.Some? && '.' !in FileNameOf(path).value ==> r.value == ""
  {
    match FileNameOf(path)
    case None => None
    case Some(f) => if '.' in f then ResolveExtension(path) else Some("")
  }

  /** `Source.of` with the corrected extension: it agrees with `SourceOf`
      wherever the file name has a dot. */
  function FixedSourceOf(path: string): (r: Result<Source>)
    ensures r.Ok? <==> SourceOf(path).Ok?
    ensures r.Ok? ==> r.value.relativePath == path && Some(r.value.ext) == FixedExtension(path)
    ensures r.Ok? && '.' in FileNameOf(path).value ==> r == SourceOf(path)
  {
    match FixedExtension(path)
    case None => Err("null dereference")
    case Some(ext) => Ok(Source(path, ext))
  }

  /** The corrected line for one source, which never fails: it is the line
      as written wherever that one exists. */
  function FixedSourceLine(s: Source): (r: string)
    ensures SourceLine(s).Ok? ==> r == SourceLine(s).value
    ensures !IsScriptSource(s) ==> r == ImportLine(s.relativePath)
  {
    if IsScriptSource(s) then ExportLine(StripExtension(s.relativePath)) else ImportLine(s.relativePath)
  }

  lemma ExtensionOfNamedFile(dir: string, stem: string, ext: string)
    requires '/' !in stem && '/' !in ext && '.' !in ext
    ensures FixedExtension(dir + "/" + stem + "." + ext) == Some(ext)
  {
    ExtensionOfFile(dir, stem, ext);
    DotInDotted(stem, ext);
  }

  /** With the correction, a source whose file name has no dot is imported
      as it is, whatever its name. */
  lemma DotlessSourceIsImported(path: string)
    requires FileNameOf(path).Some? && '.' !in FileNameOf(path).value
    ensures FixedSourceOf(path) == Ok(Source(path, ""))
    ensures FixedSourceLine(Source(path, "")) == ImportLine(path)
  {
    assert FixedExtension(path) == Some("");
    assert !IsScriptSource(Source(path, ""));
  }

  // ---------------------------------------------------------------------
  // The sources block

  const SourcesHeader := "// Auto-generated imports for project sources"

  /** The sources that are not ignored, in order. */
  function Kept(sources: seq<Source>): (r: seq<Source>)
    ensures |r| <= |sources|
    ensures forall i :: 0 <= i < |r| ==> !IsIgnored(r[i]) && r[i] in sources
    ensures forall s :: s in sources && !IsIgnored(s) ==> s in r
  {
    if sources == [] then []
    else
      var last := sources[|sources| - 1];
      var init := sources[..|sources| - 1];
      assert sources == init + [last];
      Kept(init) + (if IsIgnored(last) then [] else [last])
  }

  /** The lines of the sources that are not ignored, in order; the loop
      stops at the first line that fails. */
  function Lines(sources: seq<Source>): (r: Result<seq<string>>)
    ensures r.Ok? <==> forall i :: 0 <= i < |Kept(sources)| ==> SourceLine(Kept(sources)[i]).Ok?
    ensures r.Ok? ==> |r.value| == |Kept(sources)|
    ensures r.Ok? ==> forall i :: 0 <= i < |r.value| ==> Ok(r.value[i]) == SourceLine(Kept(sources)[i])
  {
    var kept := Kept(sources);
    if forall i :: 0 <= i < |kept| ==> SourceLine(kept[i]).Ok? then
      Ok(seq(|kept|, i requires 0 <= i < |kept| => SourceLine(kept[i]).value))
    else Err("StringIndexOutOfBoundsException")
  }

  /** The lines fail exactly when a source that is not ignored is a script
      whose path has no dot. */
  lemma LinesFailOnDotlessScript(sources: seq<Source>)
    ensures Lines(sources).Err? <==>
      exists s :: s in sources && !IsIgnored(s) && IsScriptSource(s) && '.' !in s.relativePath
  {
    var kept := Kept(sources);
    if Lines(sources).Err? {
      var i :| 0 <= i < |kept| && SourceLine(kept[i]).Err?;
      assert kept[i] in sources;
    } else {
      forall s | s in sources && !IsIgnored(s)
        ensures !(IsScriptSource(s) && '.' !in s.relativePath)
      {
        var i :| 0 <= i < |kept| && kept[i] == s;
        assert SourceLine(kept[i]).Ok?;
      }
    }
  }

  /** Each line followed by a newline. */
  function Terminated(lines: seq<string>): string {
    if lines == [] then "" else lines[0] + "\n" + Terminated(lines[1..])
  }

  /** `autoImportsSources`: nothing at all without sources; otherwise a
      header line, one line per source that is not ignored, and an empty
      line, or the failure of the first line that fails. */
  function AutoImportsSources(sources: seq<Source>): (r: Result<string>)
    ensures r == Ok("") <==> sources == []
    ensures r.Err? <==> sources != [] && Lines(sources).Err?
  {
    if sources == [] then Ok("")
    else
      var lines :- Lines(sources);
      Ok(SourcesHeader + "\n" + Terminated(lines) + "\n")
  }

  lemma {:induction false} JoinTerminated(lines: seq<string>)
    ensures Join(lines + ["", ""], "\n") == Terminated(lines) + "\n"
  {
    if lines == [] {
      assert lines + ["", ""] == ["", ""];
    } else {
      JoinTerminated(lines[1..]);
      assert (lines + ["", ""])[1..] == lines[1..] + ["", ""];
    }
  }

  lemma NoNewlineInSourceLine(s: Source)
    requires '\n' !in s.relativePath && SourceLine(s).Ok?
    ensures '\n' !in SourceLine(s).value
  {
    var p := StripExtension(s.relativePath);
    assert forall c :: c in p ==> c in s.relativePath;
  }

  /** When it succeeds, the block is the header line followed by text
      that, read back line by line, is exactly one line per source that is
      not ignored, in order, and two empty lines. */
  lemma AutoImportsSourcesLines(sources: seq<Source>)
    requires sources != [] && Lines(sources).Ok?
    requires forall i :: 0 <= i < |sources| ==> '\n' !in sources[i].relativePath
    ensures AutoImportsSources(sources).Ok?
    ensures var r := AutoImportsSources(sources).value;
      StartsWith(r, SourcesHeader + "\n")
      && Split(r[|SourcesHeader| + 1..], '\n') == Lines(sources).value + ["", ""]
  {
    var r := AutoImportsSources(sources).value;
    var lines := Lines(sources).value;
    var parts := lines + ["", ""];
    JoinTerminated(lines);
    assert r == (SourcesHeader + "\n") + Join(parts, "\n");
    assert r[|SourcesHeader| + 1..] == Join(parts, "\n");
    NoNewlineInLines(sources);
    SplitJoin(parts, '\n');
  }

  lemma NoNewlineInLines(sources: seq<Source>)
    requires Lines(sources).Ok?
    requires forall i :: 0 <= i < |sources| ==> '\n' !in sources[i].relativePath
    ensures forall i :: 0 <= i < |Lines(sources).value + ["", ""]| ==> '\n' !in (Lines(sources).value + ["", ""])[i]
  {
    var lines := Lines(sources).value;
    var kept := Kept(sources);
    var parts := lines + ["", ""];
    forall i | 0 <= i < |parts|
      ensures '\n' !in parts[i]
    {
      if i < |lines| {
        assert kept[i] in sources;
        NoNewlineInSourceLine(kept[i]);
      } else {
        assert parts[i] == "";
      }
    }
  }

  /** An ignored source added at the end changes nothing. */
  lemma IgnoredSourceChangesNothing(sources: seq<Source>, s: Source)
    requires sources != [] && IsIgnored(s)
    ensures AutoImportsSources(sources + [s]) == AutoImportsSources(sources)
  {
    assert Kept(sources + [s]) == Kept(sources) by {
      assert (sources + [s])[..|sources|] == sources;
    }
    assert Lines(sources + [s]) == Lines(sources);
  }

  // ---------------------------------------------------------------------
  // Auto-dependency mode

  datatype AutoDepsMode = All | Styles | Auto | NoDeps

  /** The effective mode: no auto-dependencies means none; AUTO imports all
      dependencies when no source is a script and only their styles
      otherwise. */
  function ResolvedMode(mode: Option<AutoDepsMode>, sources: seq<Source>): (r: AutoDepsMode)
    ensures r != Auto
    ensures mode.None? ==> r == NoDeps
    ensures mode.Some? && mode.value != Auto ==> r == mode.value
    ensures mode == Some(Auto) ==> (r == All <==> forall i :: 0 <= i < |sources| ==> !IsScriptSource(sources[i]))
    ensures mode == Some(Auto) ==> (r == Styles <==> exists i :: 0 <= i < |sources| && IsScriptSource(sources[i]))
  {
    match mode
    case None => NoDeps
    case Some(m) =>
      if m != Auto then m
      else if forall i :: 0 <= i < |sources| ==> !IsScriptSource(sources[i]) then All
      else Styles
  }
}

/** The imports of the installed web dependencies (`DependenciesAutoImports`):
    for every installed package directory with a package.json, a style
    import and a script import chosen from its fields. */
module DependenciesAutoImports {
  import opened Wrappers
  import opened Strings
  import opened AutoEntryPoints
  import opened WebDepsInstallers

  /** A JSON value: a scalar with its text, or an object or array. */
  datatype JsonValue = Value(text: string) | Container

  /** The top level of a package.json. */
  type PackageJson = map<string, JsonValue>

  const Fields: set<string> := {"name", "module", "main", "style", "sass", "browser"}

  /** `readPackage`: the listed fields present in the file, objects and
      arrays read as "[object]". */
  function ReadPackage(obj: PackageJson): (data: map<string, string>)
    ensures data.Keys == obj.Keys * Fields
  {
    map k | k in obj.Keys * Fields :: if obj[k].Value? then obj[k].text else "[object]"
  }

  /** Fields other than the six listed are never looked at. */
  lemma ReadPackageIgnoresOtherFields(obj: PackageJson, k: string, v: JsonValue)
    requires k !in Fields
    ensures ReadPackage(obj[k := v]) == ReadPackage(obj)
  {
  }

  /** `Map.get`. */
  function Lookup(data: map<string, string>, k: string): Option<string> {
    if k in data then Some(data[k]) else None
  }

  /** A possibly null string as string concatenation renders it. */
  function Text(o: Option<string>): string {
    match o
    case None => "null"
    case Some(s) => s
  }

  /** `getOrDefault(k, "")`. */
  function OrEmpty(data: map<string, string>, k: string): string {
    if k in data then data[k] else ""
  }

  function PackageImport(spec: string): string {
    "import \"" + spec + "\";\n"
  }

  /** The style import: the sass file when it is given, else the style
      file when it is given, else nothing. */
  function StyleImport(data: map<string, string>): (r: string)
    ensures r == "" <==> IsBlank(OrEmpty(data, "sass")) && IsBlank(OrEmpty(data, "style"))
    ensures !IsBlank(OrEmpty(data, "sass")) ==> r == PackageImport(Text(Lookup(data, "name")) + "/" + data["sass"])
    ensures IsBlank(OrEmpty(data, "sass")) && !IsBlank(OrEmpty(data, "style")) ==>
      r == PackageImport(Text(Lookup(data, "name")) + "/" + data["style"])
  {
    if !IsBlank(OrEmpty(data, "sass")) then PackageImport(Text(Lookup(data, "name")) + "/" + data["sass"])
    else if !IsBlank(OrEmpty(data, "style")) then PackageImport(Text(Lookup(data, "name")) + "/" + data["style"])
    else ""
  }

  /** The script import: the package itself when its module is a script
      and it names a browser build, or else when its main is a script. */
  function ScriptImport(data: map<string, string>): (r: Result<string>)
    ensures r.Ok? ==> r.value == "" || r.value == PackageImport(Text(Lookup(data, "name")))
  {
    var moduleIsScript :- IsScript(Lookup(data, "module"));
    if moduleIsScript && !IsBlank(OrEmpty(data, "browser")) then Ok(PackageImport(Text(Lookup(data, "name"))))
    else
      var mainIsScript :- IsScript(Lookup(data, "main"));
      Ok(if mainIsScript then PackageImport(Text(Lookup(data, "name"))) else "")
  }

  /** What one package contributes. */
  function PackageImports(data: map<string, string>, onlyStyles: bool): (r: Result<string>)
    ensures onlyStyles ==> r == Ok(StyleImport(data))
    ensures r.Ok? ==> StartsWith(r.value, StyleImport(data))
  {
    if onlyStyles then Ok(StyleImport(data))
    else
      var s :- ScriptImport(data);
      Ok(StyleImport(data) + s)
  }

  lemma ImportIsNotBlank(spec: string)
    ensures !IsBlank(PackageImport(spec))
  {
    assert PackageImport(spec)[0] == 'i';
  }

  /** A package's contribution is blank only when it is empty, and it has
      at most one style line and one script line. */
  lemma PackageImportsShape(data: map<string, string>, onlyStyles: bool)
    requires PackageImports(data, onlyStyles).Ok?
    ensures var r := PackageImports(data, onlyStyles).value;
      IsBlank(r) <==> r == ""
    ensures var r := PackageImports(data, onlyStyles).value;
      exists style, script :: r == style + script
        && (style == "" || style == StyleImport(data))
        && (script == "" || script == PackageImport(Text(Lookup(data, "name"))))
  {
    var style := StyleImport(data);
    var r := PackageImports(data, onlyStyles).value;
    var script := r[|style|..];
    assert r == style + script;
    if style != "" {
      if !IsBlank(OrEmpty(data, "sass")) {
        ImportIsNotBlank(Text(Lookup(data, "name")) + "/" + data["sass"]);
      } else {
        ImportIsNotBlank(Text(Lookup(data, "name")) + "/" + data["style"]);
      }
      assert !IsBlank(r) by {
        var i :| 0 <= i < |style| && !IsWhitespace(style[i]);
        assert r[i] == style[i];
      }
    } else if script != "" {
      ImportIsNotBlank(Text(Lookup(data, "name")));
    }
  }

  /** The package directories of the records whose id passes the
      predicate, in record order, keeping those that hold a package.json. */
  function PackageDirs(records: seq<Record>, idOk: string -> bool, hasPackageJson: string -> bool): (r: seq<string>)
    ensures forall i :: 0 <= i < |r| ==> hasPackageJson(r[i])
  {
    if records == [] then []
    else
      var here := if idOk(records[0].id) then Present(records[0].dirs, hasPackageJson) else [];
      here + PackageDirs(records[1..], idOk, hasPackageJson)
  }

  function Present(dirs: seq<string>, hasPackageJson: string -> bool): (r: seq<string>)
    ensures forall i :: 0 <= i < |r| ==> hasPackageJson(r[i]) && r[i] in dirs
    ensures forall d :: d in dirs && hasPackageJson(d) ==> d in r
  {
    if dirs == [] then []
    else (if hasPackageJson(dirs[0]) then [dirs[0]] else []) + Present(dirs[1..], hasPackageJson)
  }

  /** A directory is read exactly when some record with an accepted id
      lists it and it holds a package.json. */
  lemma {:induction false} PackageDirsMembers(records: seq<Record>, idOk: string -> bool, hasPackageJson: string -> bool, d: string)
    ensures d in PackageDirs(records, idOk, hasPackageJson) <==>
      hasPackageJson(d) && exists i :: 0 <= i < |records| && idOk(records[i].id) && d in records[i].dirs
  {
    if records != [] {
      PackageDirsMembers(records[1..], idOk, hasPackageJson, d);
      if exists i :: 0 <= i < |records[1..]| && idOk(records[1..][i].id) && d in records[1..][i].dirs {
        var i :| 0 <= i < |records[1..]| && idOk(records[1..][i].id) && d in records[1..][i].dirs;
        assert records[1..][i] == records[i + 1];
      }
      if hasPackageJson(d) && exists i :: 0 <= i < |records| && idOk(records[i].id) && d in records[i].dirs {
        var i :| 0 <= i < |records| && idOk(records[i].id) && d in records[i].dirs;
        if i > 0 {
          assert records[1..][i - 1] == records[i];
        }
      }
    }
  }

  /** The non-blank contributions of the packages, in order. */
  function Entries(dirs: seq<string>, read: string -> PackageJson, onlyStyles: bool): (r: Result<seq<string>>)
    ensures r.Ok? ==> forall i :: 0 <= i < |r.value| ==> !IsBlank(r.value[i])
    ensures onlyStyles ==> r.Ok?
  {
    if dirs == [] then Ok([])
    else
      var first :- PackageImports(ReadPackage(read(dirs[0])), onlyStyles);
      var rest :- Entries(dirs[1..], read, onlyStyles);
      NonBlankPrepend(first, rest);
      Ok(if IsBlank(first) then rest else [first] + rest)
  }

  lemma NonBlankPrepend(first: string, rest: seq<string>)
    requires forall i :: 0 <= i < |rest| ==> !IsBlank(rest[i])
    ensures var r := if IsBlank(first) then rest else [first] + rest;
      forall i :: 0 <= i < |r| ==> !IsBlank(r[i])
  {
  }

  const DependenciesHeader := "// Auto-generated imports for web dependencies"

  /** `dependenciesImports`: the header line, the contributions of the
      installed packages, and an empty line. */
  function DependenciesImports(info: InfoFile, idOk: string -> bool, hasPackageJson: string -> bool,
                               read: string -> PackageJson, onlyStyles: bool): (r: Result<string>)
    ensures r.Ok? ==> StartsWith(r.value, DependenciesHeader + "\n") && EndsWith(r.value, "\n")
    ensures onlyStyles ==> r.Ok?
  {
    var dirs := PackageDirs(ReadInfo(info).0, idOk, hasPackageJson);
    var entries :- Entries(dirs, read, onlyStyles);
    var text := DependenciesHeader + "\n" + Concat(entries) + "\n";
    assert text == DependenciesHeader + "\n" + (Concat(entries) + "\n");
    Ok(text)
  }

  /** With nothing installed the block is just the header and an empty
      line. */
  lemma NothingInstalled(info: InfoFile, idOk: string -> bool, hasPackageJson: string -> bool,
                         read: string -> PackageJson, onlyStyles: bool)
    requires ReadInfo(info).0 == []
    ensures DependenciesImports(info, idOk, hasPackageJson, read, onlyStyles) == Ok(DependenciesHeader + "\n\n")
  {
    assert PackageDirs(ReadInfo(info).0, idOk, hasPackageJson) == [];
    assert Entries([], read, onlyStyles) == Ok([]);
    assert DependenciesHeader + "\n" + Concat([]) + "\n" == DependenciesHeader + "\n\n";
  }

  /** The lines that are not blank, in order. */
  function NonBlank(xs: seq<string>): (r: seq<string>)
    ensures forall i :: 0 <= i < |r| ==> !IsBlank(r[i]) && r[i] in xs
    ensures forall x :: x in xs && !IsBlank(x) ==> x in r
  {
    if xs == [] then []
    else (if IsBlank(xs[0]) then [] else [xs[0]]) + NonBlank(xs[1..])
  }

  function StyleImports(dirs: seq<string>, read: string -> PackageJson): seq<string> {
    seq(|dirs|, i requires 0 <= i < |dirs| => StyleImport(ReadPackage(read(dirs[i]))))
  }

  /** In styles-only mode the entries are the style lines of the packages,
      in order, with the packages that have none dropped. */
  lemma {:induction false} StylesOnlyEntries(dirs: seq<string>, read: string -> PackageJson)
    ensures Entries(dirs, read, true) == Ok(NonBlank(StyleImports(dirs, read)))
  {
    if dirs != [] {
      var xs := StyleImports(dirs, read);
      var first := xs[0];
      var rest := NonBlank(StyleImports(dirs[1..], read));
      StylesOnlyEntries(dirs[1..], read);
      StyleImportsCons(dirs, read);
      NonBlankCons(xs);
      assert PackageImports(ReadPackage(read(dirs[0])), true) == Ok(first);
      EntriesStep(dirs, read, true);
    } else {
      assert StyleImports(dirs, read) == [];
    }
  }

  lemma StyleImportsCons(dirs: seq<string>, read: string -> PackageJson)
    requires dirs != []
    ensures StyleImports(dirs, read) == [StyleImport(ReadPackage(read(dirs[0])))] + StyleImports(dirs[1..], read)
  {
  }

  lemma NonBlankCons(xs: seq<string>)
    requires xs != []
    ensures NonBlank(xs) == if IsBlank(xs[0]) then NonBlank(xs[1..]) else [xs[0]] + NonBlank(xs[1..])
  {
    if IsBlank(xs[0]) {
      assert [] + NonBlank(xs[1..]) == NonBlank(xs[1..]);
    }
  }

  lemma EntriesStep(dirs: seq<string>, read: string -> PackageJson, onlyStyles: bool)
    requires dirs != []
    requires PackageImports(ReadPackage(read(dirs[0])), onlyStyles).Ok?
    requires Entries(dirs[1..], read, onlyStyles).Ok?
    ensures var first := PackageImports(ReadPackage(read(dirs[0])), onlyStyles).value;
      var rest := Entries(dirs[1..], read, onlyStyles).value;
      Entries(dirs, read, onlyStyles) == Ok(if IsBlank(first) then rest else [first] + rest)
  {
  }
}

/** The content `AutoEntryPoint.process` writes: the dependency imports of
    the effective mode, then the sources block. */
module AutoEntryContents {
  import opened Wrappers
  import opened AutoEntryPoints
  import opened DependenciesAutoImports
  import opened WebDepsInstallers

  /** `AutoDeps`: the mode and the predicate on dependency ids; the
      node_modules directory is given by its record file and package.json
      oracles. */
  datatype AutoDeps = AutoDeps(mode: AutoDepsMode, idOk: string -> bool)

  /** `process`: the dependency imports the resolved mode asks for, then
      the sources block; either part failing fails the entry point, the
      dependencies first. */
  function Content(autoDeps: Option<AutoDeps>, sources: seq<Source>, info: InfoFile,
                   hasPackageJson: string -> bool, read: string -> PackageJson): (r: Result<string>)
    ensures r.Ok? ==> AutoImportsSources(sources).Ok? && Strings.EndsWith(r.value, AutoImportsSources(sources).value)
    ensures AutoImportsSources(sources).Err? ==> r.Err?
  {
    var mode := ResolvedMode(if autoDeps.Some? then Some(autoDeps.value.mode) else None, sources);
    var deps :- (match mode
      case All => DependenciesImports(info, autoDeps.value.idOk, hasPackageJson, read, false)
      case Styles => DependenciesImports(info, autoDeps.value.idOk, hasPackageJson, read, true)
      case _ => Ok(""));
    var block :- AutoImportsSources(sources);
    Ok(deps + block)
  }

  /** Without auto-dependencies the content is the sources block alone; in
      AUTO mode with a script among the sources only the styles of the
      dependencies are imported, and that part cannot fail. */
  lemma ContentByMode(autoDeps: Option<AutoDeps>, sources: seq<Source>, info: InfoFile,
                      hasPackageJson: string -> bool, read: string -> PackageJson)
    ensures autoDeps.None? ==> Content(autoDeps, sources, info, hasPackageJson, read) == AutoImportsSources(sources)
    ensures
      (autoDeps.Some? && autoDeps.value.mode == Auto && AutoImportsSources(sources).Ok? &&
       exists i :: 0 <= i < |sources| && IsScriptSource(sources[i])) ==>
      Content(autoDeps, sources, info, hasPackageJson, read) ==
        Ok(DependenciesImports(info, autoDeps.value.idOk, hasPackageJson, read, true).value + AutoImportsSources(sources).value)
  {
  }
}

/** The legacy generated entry points: `AutoEntryPoint.convert`, which
    imports every given path, and `ScriptlessEntryPoint`, which imports
    every installed package. */
module LegacyEntryPoints {
  import opened Wrappers
  import opened Strings
  import opened AutoEntryPoints
  import opened WebDepsInstallers
  import DependenciesAutoImports

  /** `name.replaceAll("-", "")`. */
  function WithoutDashes(s: string): (r: string)
    ensures '-' !in r
    ensures forall c :: c in r ==> c in s
  {
    if s == [] then [] else (if s[0] == '-' then [] else [s[0]]) + WithoutDashes(s[1..])
  }

  function ImportAs(name: string, path: string): string {
    "import * as " + name + " from \"./" + path + "\";"
  }

  /** The line for one path: a script is imported as a namespace named
      after its file name without dashes, from the path without its
      extension; anything else is imported by its path. A file name
      without a dot, or no file name at all, is an error. */
  function ConvertLine(script: string): (r: Result<string>)
    ensures r.Ok? <==> FileNameOf(script).Some? && '.' in FileNameOf(script).value
  {
    match FileNameOf(script)
    case None => Err("null dereference")
    case Some(f) =>
      var k := LastIndexOf(f, '.');
      LastIndexOfNone(f, '.');
      if k < 0 then Err("StringIndexOutOfBoundsException")
      else if f[k + 1..] in Scripts then Ok(ImportAs(WithoutDashes(f[..k]), StripExtension(script)))
      else Ok(ImportLine(script))
  }

  /** A file "stem.ext" under a directory: a script is imported as the
      stem without dashes, from the path without ".ext". */
  lemma ConvertLineOfFile(dir: string, stem: string, ext: string)
    requires '/' !in stem && '/' !in ext && '.' !in ext
    ensures var p := dir + "/" + stem + "." + ext;
      ConvertLine(p) == Ok(if ext in Scripts then ImportAs(WithoutDashes(stem), dir + "/" + stem) else ImportLine(p))
  {
    FileNameOfNamedFile(dir, stem, ext);
    ConvertLineOfName(dir + "/" + stem + "." + ext, stem, ext);
    StripExtensionOf(dir + "/" + stem, ext);
  }

  lemma ConvertLineOfName(script: string, stem: string, ext: string)
    requires '.' !in ext && FileNameOf(script) == Some(stem + "." + ext)
    ensures ConvertLine(script) ==
      Ok(if ext in Scripts then ImportAs(WithoutDashes(stem), StripExtension(script)) else ImportLine(script))
  {
    DotSplit(stem, ext);
  }

  /** The last dot of "stem.ext" is the one before the extension. */
  lemma DotSplit(stem: string, ext: string)
    requires '.' !in ext
    ensures var f := stem + "." + ext;
      LastIndexOf(f, '.') == |stem| && f[..|stem|] == stem && f[|stem| + 1..] == ext
  {
    assert stem + "." + ext == stem + ['.'] + ext;
    LastIndexOfSplit(stem, '.', ext);
  }

  /** The lines of all paths, failing at the first bad one. */
  function ConvertLines(scripts: seq<string>): (r: Result<seq<string>>)
    ensures r.Ok? <==> forall i :: 0 <= i < |scripts| ==> ConvertLine(scripts[i]).Ok?
    ensures r.Ok? ==> |r.value| == |scripts|
    ensures r.Ok? ==> forall i :: 0 <= i < |scripts| ==> r.value[i] == ConvertLine(scripts[i]).value
  {
    if scripts == [] then Ok([])
    else
      match ConvertLine(scripts[0])
      case Err(e) => Err(e)
      case Ok(line) =>
        var tail := ConvertLines(scripts[1..]);
        ShiftedAllOk(scripts, tail.Ok?, ConvertLine);
        match tail
        case Err(e) => Err(e)
        case Ok(rest) =>
          ConsConverted(scripts, line, rest, ConvertLine);
          Ok([line] + rest)
  }

  /** `convert`: every line followed by a newline. */
  function Convert(scripts: seq<string>): (r: Result<string>)
    ensures r.Ok? <==> ConvertLines(scripts).Ok?
  {
    var lines :- ConvertLines(scripts);
    Ok(Terminated(lines))
  }

  lemma NoNewlineInConvertLine(script: string)
    requires '\n' !in script && ConvertLine(script).Ok?
    ensures '\n' !in ConvertLine(script).value
  {
    var f := FileNameOf(script).value;
    var k := LastIndexOf(f, '.');
    FileNameChars(script);
    var name := WithoutDashes(f[..k]);
    var path := StripExtension(script);
    assert '\n' !in name by {
      assert forall c :: c in name ==> c in f;
    }
    assert '\n' !in path by {
      assert forall c :: c in path ==> c in script;
    }
    NoNewlineInImports(name, path, script);
  }

  /** The two import lines hold no newline their inputs do not. */
  lemma NoNewlineInImports(name: string, path: string, script: string)
    requires '\n' !in name && '\n' !in path && '\n' !in script
    ensures '\n' !in ImportAs(name, path) && '\n' !in ImportLine(script)
  {
  }

  lemma {:induction false} TerminatedLines(lines: seq<string>)
    ensures Join(lines + [""], "\n") == Terminated(lines)
  {
    if lines == [] {
      assert lines + [""] == [""];
    } else {
      TerminatedLines(lines[1..]);
      assert (lines + [""])[1..] == lines[1..] + [""];
    }
  }

  /** Exactly one newline-terminated line per path, in order. */
  lemma ConvertOneLinePerPath(scripts: seq<string>)
    requires Convert(scripts).Ok?
    requires forall i :: 0 <= i < |scripts| ==> '\n' !in scripts[i]
    ensures Split(Convert(scripts).value, '\n') == ConvertLines(scripts).value + [""]
  {
    var lines := ConvertLines(scripts).value;
    assert Convert(scripts).value == Join(lines + [""], "\n") by {
      TerminatedLines(lines);
    }
    NoNewlineInConvertLines(scripts);
    SplitJoin(lines + [""], '\n');
  }

  lemma NoNewlineInConvertLines(scripts: seq<string>)
    requires ConvertLines(scripts).Ok?
    requires forall i :: 0 <= i < |scripts| ==> '\n' !in scripts[i]
    ensures forall i :: 0 <= i < |ConvertLines(scripts).value + [""]| ==> '\n' !in (ConvertLines(scripts).value + [""])[i]
  {
    var lines := ConvertLines(scripts).value;
    forall i | 0 <= i < |lines + [""]|
      ensures '\n' !in (lines + [""])[i]
    {
      if i < |lines| {
        NoNewlineInConvertLine(scripts[i]);
      } else {
        assert (lines + [""])[i] == "";
      }
    }
  }

  // ---------------------------------------------------------------------
  // ScriptlessEntryPoint

  const ScriptlessFields: set<string> := {"name", "module", "main", "style", "sass"}

  /** `readPackage` of the scriptless entry point: the listed fields
      present, objects and arrays read as their empty text. */
  function ReadScriptless(obj: DependenciesAutoImports.PackageJson): (data: map<string, string>)
    ensures data.Keys == obj.Keys * ScriptlessFields
  {
    map k | k in obj.Keys * ScriptlessFields :: if obj[k].Value? then obj[k].text else ""
  }

  function ExportFrom(spec: string): string {
    "export * from \"" + spec + "\";"
  }

  function ImportFrom(spec: string): string {
    "import \"" + spec + "\";"
  }

  /** The line for one package: its sass or else style file when either
      field is present; otherwise a re-export when it has a module field
      and a plain import when not. Presence decides, not content. */
  function ScriptlessLine(data: map<string, string>): string {
    var name := DependenciesAutoImports.Text(DependenciesAutoImports.Lookup(data, "name"));
    if "sass" in data || "style" in data then
      ImportFrom(name + "/" + (if "sass" in data then data["sass"] else data["style"]))
    else if "module" in data then ExportFrom(name)
    else ImportFrom(name)
  }

  /** A package is re-exported exactly when it has neither a sass nor a
      style field but has a module field; every other package is imported
      by a line that names it. */
  lemma ScriptlessLineKind(data: map<string, string>)
    ensures (exists spec :: ScriptlessLine(data) == ExportFrom(spec)) <==>
      "sass" !in data && "style" !in data && "module" in data
    ensures !(exists spec :: ScriptlessLine(data) == ExportFrom(spec)) ==>
      exists spec :: ScriptlessLine(data) == ImportFrom(spec)
  {
    var r := ScriptlessLine(data);
    if exists spec :: r == ExportFrom(spec) {
      var spec :| r == ExportFrom(spec);
      assert r[0] == 'e';
    }
  }

  /** The lines of the entry point, one per package directory with a
      package.json, every record accepted. */
  function ScriptlessLines(info: InfoFile, hasPackageJson: string -> bool, read: string -> DependenciesAutoImports.PackageJson): (r: seq<string>)
    ensures |r| == |DependenciesAutoImports.PackageDirs(ReadInfo(info).0, _ => true, hasPackageJson)|
  {
    var dirs := DependenciesAutoImports.PackageDirs(ReadInfo(info).0, _ => true, hasPackageJson);
    seq(|dirs|, i requires 0 <= i < |dirs| => ScriptlessLine(ReadScriptless(read(dirs[i]))))
  }

  /** `ScriptlessEntryPoint.process`: the lines joined with newlines, no
      newline at the end. */
  function ScriptlessContent(info: InfoFile, hasPackageJson: string -> bool, read: string -> DependenciesAutoImports.PackageJson): string {
    Join(ScriptlessLines(info, hasPackageJson, read), "\n")
  }

  /** Read back line by line, the content is exactly one line per package,
      provided no field value holds a newline. */
  lemma ScriptlessOneLinePerPackage(info: InfoFile, hasPackageJson: string -> bool, read: string -> DependenciesAutoImports.PackageJson)
    requires |ScriptlessLines(info, hasPackageJson, read)| >= 1
    requires forall i :: 0 <= i < |ScriptlessLines(info, hasPackageJson, read)| ==> '\n' !in ScriptlessLines(info, hasPackageJson, read)[i]
    ensures Split(ScriptlessContent(info, hasPackageJson, read), '\n') == ScriptlessLines(info, hasPackageJson, read)
  {
    SplitJoin(ScriptlessLines(info, hasPackageJson, read), '\n');
  }
}
