# esbuild-java, modelled in Dafny

This project models the decision logic of esbuild-java, the Java library (with an esbuild Tailwind CSS plugin) that installs web dependencies into a `node_modules` directory, generates entry points, renders esbuild's command line and runs the bundler. It also proves properties of that model. The files are:

- `tailwind.dfy` (`Tailwind`): the primary part, the Tailwind plugin's incremental cache.
  - A `Root` holds one CSS file's compiler and scanner handles, its accumulated utility-class candidates and a map from dependency path to last-seen mtime.
  - `generate` reuses or rebuilds, orders the scanner's sources, and answers with CSS or a passthrough signal that evicts the entry.
  - The compiler, the scanner, the CSS build and `fs.stat` are oracles in an `Env`; `compile`, `new Scanner`, `scan`, `build` and the optimizer may each throw, and the model keeps the root as each throw leaves it.
- `esbuild_config.dfy`, `config_builder.dfy`, `legacy_config.dfy`, `nerdin_config.dfy`: the esbuild configuration record and its builder, and the three generations of its command-line rendering (`toParams`, `convertField`, `mapToString`) and of its JSON form (`toJson`).
- `entry_points.dfy`: the generated entry points.
  - `AutoEntryPoint`: the sources block, extension and script detection, and the AUTO mode.
  - `DependenciesAutoImports`.
  - The legacy `convert` and `ScriptlessEntryPoint`.
- `installer.dfy`: the bookkeeping of `WebDepsInstaller`, current and legacy, over an abstract `node_modules` (a set of package directories plus the `.mvnpm/mvnpm.json` record file).
- `archives.dfy`: the zip-slip guard and the entry extraction of `Archives`, over an in-memory file system.
- `bfs.dfy`: the breadth-first marker-file search of `JarInspector` and `PackageJson`, over an in-memory directory tree with symbolic links.
- `platforms.dfy`, `resolvers.dfy`, `deno.dfy`, `script_log.dfy`: the runtime side.
  - OS and architecture classifiers.
  - Download URLs and archive names.
  - POSIX mode bits.
  - The Deno binary, its argument list and its marker-line protocol.
  - The classification of script log lines.
- `esbuild_deps.dfy`, `build_dependency.dfy`, `bundler.dfy`, `bundle_exception.dfy`: class-path GAV extraction, the bundled build dependencies, the bundler's directory checks and effective options, and `BundleException`'s message.
- `wrappers.dfy`, `strings.dfy`, `omap.dfy`, `flag_lists.dfy`, `jpath.dfy`, `node_path.dfy`, `web_dependency.dfy`: shared helpers.
  - `Option`/`Result`.
  - The Java string operations used (`replace`, `split`, `lastIndexOf`, `isBlank`, ASCII case mapping).
  - Insertion-ordered maps.
  - `java.nio.file.Path` (`resolve`, `normalize`, `startsWith`, `getParent`) and Node's `path`.

File systems, processes and the network are not touched. Where the program reads the disk or runs a tool, the model takes the observed result as a parameter: a `stat` map, a `found` oracle for what a jar holds, a record file state, a file-system map, or a list of output lines. `HashMap` and `HashSet` iteration order becomes a given sequence order. The declaration order of fields that `getDeclaredFields` returns is left unspecified by Java, so properties of `toParams` are stated as multiset equalities against an independent per-field reference. In every case where the code and the intended design disagree, the model follows the code as written, and the discrepancy is listed under "## Findings" with a corrected variant beside it (named `Fixed…`, or the plain name when the as-written one is `…AsWritten`) that the operations themselves do not use.

## Model

| member | source | states |
|---|---|---|
| Tailwind.NewRoot | plugin-tailwind/plugin/src/main/resources/esbuild-plugin-tailwind.js:107-113 | a new root keeps its id and sources, takes the configured base or else the working directory, and the configured pattern or else `**/*`; it starts with no compiler, scanner, candidates or dependencies |
| NodePaths.BaseName | plugin-tailwind/plugin/src/main/resources/esbuild-plugin-tailwind.js:75 | the base name that `path.extname` works on is the last name of the path and holds no slash |
| NodePaths.ExtName | plugin-tailwind/plugin/src/main/resources/esbuild-plugin-tailwind.js:75 | the extension is empty, or a strict suffix of the base name that starts with its last dot and holds no other dot |
| NodePaths.DirNameBaseName | plugin-tailwind/plugin/src/main/resources/esbuild-plugin-tailwind.js:64 | for a path with a parent, parsing `path.dirname` gives the same root flag and every name but the last, and the base name is that last name; a single relative name has "." as its directory (also plugin-tailwind/plugin/src/main/resources/esbuild-plugin-tailwind.js:118) |
| NodePaths.Resolve | plugin-tailwind/plugin/src/main/resources/esbuild-plugin-tailwind.js:80 | `path.resolve` of an id gives an absolute path with no "." or ".." name |
| Tailwind.IsCssFile | plugin-tailwind/plugin/src/main/resources/esbuild-plugin-tailwind.js:74-77 | true exactly when the base name is longer than ".css" and ends with it, so a bare ".css" (whose extension is empty) is refused |
| Tailwind.StripQuery | plugin-tailwind/plugin/src/main/resources/esbuild-plugin-tailwind.js:79-81 | the result is a prefix of the id: the whole id, or the id cut at its first "?" after which no line terminator follows |
| Tailwind.AddBuildDependency | plugin-tailwind/plugin/src/main/resources/esbuild-plugin-tailwind.js:177-183 | records the path with its current mtime, or with "unknown" when it cannot be stat'ed; every other path keeps its entry, existing keys keep their place, no key is duplicated |
| Tailwind.AddBuildDependencies | plugin-tailwind/plugin/src/main/resources/esbuild-plugin-tailwind.js:123-131 | after recording the input path and each reported dependency, the map's keys are the old keys plus the reported paths, and a map matching the file system still matches it |
| Tailwind.RequiresBuild | plugin-tailwind/plugin/src/main/resources/esbuild-plugin-tailwind.js:185-196 | the walk answers true exactly when some entry has an unknown mtime, a path that can no longer be stat'ed, or a newer mtime; an empty map never asks for a rebuild |
| Tailwind.ConsistentStale | plugin-tailwind/plugin/src/main/resources/esbuild-plugin-tailwind.js:177-196 | for a map recorded against the current file system, a rebuild is asked for exactly when one of its paths cannot be stat'ed |
| Tailwind.ScannerSources | plugin-tailwind/plugin/src/main/resources/esbuild-plugin-tailwind.js:135-143 | the scanner's sources are none, the base source, or the declared root then the base source (for root 'none', null, or declared), followed by the configured sources and then the compiler's sources rebased onto the root's base |
| Tailwind.AddCandidates | plugin-tailwind/plugin/src/main/resources/esbuild-plugin-tailwind.js:104 | set semantics: earlier candidates keep their order, the result holds exactly the old and the scanned candidates, and no candidate appears twice (also plugin-tailwind/plugin/src/main/resources/esbuild-plugin-tailwind.js:162) |
| Tailwind.Emit | plugin-tailwind/plugin/src/main/resources/esbuild-plugin-tailwind.js:148-174 | passthrough exactly when the compiler has none of @apply, JS plugin compat, theme() and utilities; candidates are scanned only when utilities are used; a throwing scan fails the call and adds no candidate, a throwing build fails it after the scanned candidates were added; otherwise the CSS is the build of the updated candidates; nothing else in the root changes |
| Tailwind.FreshDeps | plugin-tailwind/plugin/src/main/resources/esbuild-plugin-tailwind.js:120-131 | a rebuild starts from a map holding the input path first, then exactly the compiler's reported dependencies, each with its current mtime and none twice |
| Tailwind.GenerateWith | plugin-tailwind/plugin/src/main/resources/esbuild-plugin-tailwind.js:115-175 | `generate` never changes the root's id, sources, base or pattern, and candidates only grow, whichever step throws |
| Tailwind.Generate | plugin-tailwind/plugin/src/main/resources/esbuild-plugin-tailwind.js:115-146 | (corrected) any throw leaves the root without a compiler, so the next call rebuilds; a success or passthrough leaves a compiler and a scanner in place |
| Tailwind.GenerateAsWritten | plugin-tailwind/plugin/src/main/resources/esbuild-plugin-tailwind.js:120-131 | as written, a failed compile leaves the previous compiler and scanner in place; any other throw (of `new Scanner`, `scan` or `build`) comes after a compiler was in place and leaves it there (also plugin-tailwind/plugin/src/main/resources/esbuild-plugin-tailwind.js:144) |
| Tailwind.GenerateReuses | plugin-tailwind/plugin/src/main/resources/esbuild-plugin-tailwind.js:117-120 | without a missing handle or stale dependency nothing is compiled and the dependency map is reused; a failure can only come from `scan` or `build`; as written the compiler and scanner are always kept, and in the corrected variant they are kept unless the call fails |
| Tailwind.GenerateRebuilds | plugin-tailwind/plugin/src/main/resources/esbuild-plugin-tailwind.js:120-145 | a rebuild replaces the dependency map with the input and reported dependencies at their current mtimes; a throwing compile or scanner construction fails the call with that error; otherwise, unless `scan` or `build` throws, the new compiler and a scanner over the sources above are installed |
| Tailwind.RebuildDeps | plugin-tailwind/plugin/src/main/resources/esbuild-plugin-tailwind.js:120-123 | the fresh dependency map is stored by a rebuild in either variant, whatever is thrown afterwards |
| Tailwind.ScannerFailureMixesHandles | plugin-tailwind/plugin/src/main/resources/esbuild-plugin-tailwind.js:144 | as written, a scanner that cannot be made after a successful compile leaves the new compiler beside the previous scanner with the fresh dependency map, and while that map is not stale the next call reuses this mixed pair (also plugin-tailwind/plugin/src/main/resources/esbuild-plugin-tailwind.js:124) |
| Tailwind.RebuildThenFresh | plugin-tailwind/plugin/src/main/resources/esbuild-plugin-tailwind.js:120-131 | right after a successful rebuild, the same file system asks for another rebuild only if a recorded path cannot be stat'ed (also plugin-tailwind/plugin/src/main/resources/esbuild-plugin-tailwind.js:185-196) |
| Tailwind.GeneratePassthrough | plugin-tailwind/plugin/src/main/resources/esbuild-plugin-tailwind.js:148-158 | a call that does not fail passes through exactly when the compiler in use has none of the content features |
| Tailwind.GenerateCandidates | plugin-tailwind/plugin/src/main/resources/esbuild-plugin-tailwind.js:160-167 | candidates keep their earlier order and contents, stay free of duplicates, stay unchanged when utilities are unused, and the CSS is built from them |
| Tailwind.RootsGet | plugin-tailwind/plugin/src/main/resources/esbuild-plugin-tailwind.js:83-96 | a stored key returns its root and leaves the map alone; a missing key stores the factory's root at the end and returns it |
| Tailwind.RootsGetOnce | plugin-tailwind/plugin/src/main/resources/esbuild-plugin-tailwind.js:88-95 | a second lookup of the same key neither calls the factory nor changes the map |
| Tailwind.CreatePlugin | plugin-tailwind/plugin/src/main/resources/esbuild-plugin-tailwind.js:21-30 | `optimize` is on unless it is `false`; `minify` is off only for an object whose `minify` is `false`; a `null` optimize throws; the registry starts empty with the given sources or none |
| Tailwind.OnLoad | plugin-tailwind/plugin/src/main/resources/esbuild-plugin-tailwind.js:35-48 | a path that is not a CSS file is left to esbuild and changes nothing; a read error changes nothing; every answer uses the css loader; after any load error the path's root is registered as `generate` left it, including when only the optimizer threw, so after a failed compile it has the compiler and scanner it had before (also plugin-tailwind/plugin/src/main/resources/esbuild-plugin-tailwind.js:50-55) |
| Tailwind.FixedOnLoad | plugin-tailwind/plugin/src/main/resources/esbuild-plugin-tailwind.js:35-48 | (corrected) the same answers, but a throw inside `generate` leaves the path's root without a compiler, so the next load compiles again |
| Tailwind.OnLoadPassthroughEvicts | plugin-tailwind/plugin/src/main/resources/esbuild-plugin-tailwind.js:45-48 | a passthrough answer returns the file's text unchanged and removes exactly this path's root from the registry |
| Tailwind.OnLoadCss | plugin-tailwind/plugin/src/main/resources/esbuild-plugin-tailwind.js:50-65 | on success the updated root stays registered under the path; without optimization the answer is the built CSS resolved from the file's directory; with it, the optimized CSS, or a load error when the optimizer throws, the root staying registered either way |
| Tailwind.AsWrittenServesStaleCss | plugin-tailwind/plugin/src/main/resources/esbuild-plugin-tailwind.js:120-131 | as written, a broken stylesheet fails once and then, with the same content, silently yields the previous compiler's CSS |
| Tailwind.FailureIsNotCached | plugin-tailwind/plugin/src/main/resources/esbuild-plugin-tailwind.js:120-131 | with the correction, a compile error is reported again on the next call while the content still fails to compile |
| Tailwind.GenerateAgreesOnSuccess | plugin-tailwind/plugin/src/main/resources/esbuild-plugin-tailwind.js:115-175 | apart from the failure path, the corrected and the written `generate` agree |
| EsBuildConfigs.ConvertCamel | core/src/main/java/io/mvnpm/esbuild/model/EsBuildConfig.java:236-239 | `convertField` turns any camelCase name (lower-case words, each after the first capitalised) into its words joined by "-" |
| EsBuildConfigs.ConvertFieldFlag | core/src/main/java/io/mvnpm/esbuild/model/EsBuildConfig.java:236-239 | each record component's Java name converts to its esbuild flag |
| EsBuildConfigs.OutdirFlag | core/src/main/java/io/mvnpm/esbuild/model/EsBuildConfig.java:173-177 | only the output directory's flag is "outdir", so it is the only value not lower-cased |
| EsBuildConfigs.MapToStringIsAssignments | core/src/main/java/io/mvnpm/esbuild/model/EsBuildConfig.java:241-249 | one `--<field>:<key>=<value>` per map entry, in map order, every "_" in the value turned into "-" |
| EsBuildConfigs.ListFlagsIsPrefixed | core/src/main/java/io/mvnpm/esbuild/model/EsBuildConfig.java:166-167 | one `--<flag>:<element>` per list element, in list order |
| EsBuildConfigs.FieldParamsExpected | core/src/main/java/io/mvnpm/esbuild/model/EsBuildConfig.java:161-179 | the loop body renders a value as intended: a flag for true, nothing for false or null, prefixed elements for lists, assignments for maps, entry points as they are, and `--<flag>=<value>` lower-cased except for outdir |
| EsBuildConfigs.ComponentParams | core/src/main/java/io/mvnpm/esbuild/model/EsBuildConfig.java:159-180 | every component contributes exactly the flags the literal esbuild command line expects for it |
| EsBuildConfigs.ToParamsMatchesSpec | core/src/main/java/io/mvnpm/esbuild/model/EsBuildConfig.java:156-187 | whatever order reflection lists the fields in, `toParams` yields exactly the reference flags, as a multiset |
| EsBuildConfigs.SoleComponent | core/src/main/java/io/mvnpm/esbuild/model/EsBuildConfig.java:156-187 | a record in which one component holds something renders to that component's flags only |
| EsBuildConfigs.PairComponents | core/src/main/java/io/mvnpm/esbuild/model/EsBuildConfig.java:156-187 | a record in which two components hold something renders to the flags of both |
| EsBuildConfigs.ToJsonMember | core/src/main/java/io/mvnpm/esbuild/model/EsBuildConfig.java:189-234 | `toJson` has a member for a component exactly when that component contributes one, with that value |
| EsBuildConfigs.ToJsonSkipsServe | core/src/main/java/io/mvnpm/esbuild/model/EsBuildConfig.java:198-200 | `serve` is never written |
| EsBuildConfigs.ToJsonBooleans | core/src/main/java/io/mvnpm/esbuild/model/EsBuildConfig.java:201-202 | every boolean component other than serve is written, true or false, as it is |
| EsBuildConfigs.ToJsonOutdir | core/src/main/java/io/mvnpm/esbuild/model/EsBuildConfig.java:222-224 | the output directory is written exactly when set, as its text |
| EsBuildConfigs.ToJsonExternal | core/src/main/java/io/mvnpm/esbuild/model/EsBuildConfig.java:210-215 | the externals are written exactly when the list is set and non-empty |
| EsBuildConfigs.ToJsonDefine | core/src/main/java/io/mvnpm/esbuild/model/EsBuildConfig.java:203-209 | a non-empty define map is written with "_" in its values turned into "-" |
| EsBuildConfigBuilders.DefaultLoaders | core/src/main/java/io/mvnpm/esbuild/model/EsBuildConfigBuilder.java:83-100 | the default loader map has fourteen distinct extensions |
| EsBuildConfigBuilders.HashedNames | core/src/main/java/io/mvnpm/esbuild/model/EsBuildConfigBuilder.java:74-77 | sets the hashed entry and asset name templates and nothing else |
| EsBuildConfigBuilders.FixedEntryNames | core/src/main/java/io/mvnpm/esbuild/model/EsBuildConfigBuilder.java:79-81 | sets the entry name template to "[name]" and nothing else |
| EsBuildConfigBuilders.WithDefault | core/src/main/java/io/mvnpm/esbuild/model/EsBuildConfigBuilder.java:64-72 | turns on bundle, minify, source maps and splitting, sets hashed names, ESM and the default loaders, and changes nothing else |
| EsBuildConfigBuilders.AliasAll | core/src/main/java/io/mvnpm/esbuild/model/EsBuildConfigBuilder.java:142-145 | `putAll`: a key of the given map reads as its last value there, any other key as before; nothing else changes |
| EsBuildConfigBuilders.DefineAll | core/src/main/java/io/mvnpm/esbuild/model/EsBuildConfigBuilder.java:147-150 | `putAll` on the define map, with the same reading |
| EsBuildConfigBuilders.DefineEntry | core/src/main/java/io/mvnpm/esbuild/model/EsBuildConfigBuilder.java:157-160 | `put`: the key reads as the new value, every other key as before; nothing else changes |
| EsBuildConfigBuilders.AliasEntryAsWritten | core/src/main/java/io/mvnpm/esbuild/model/EsBuildConfigBuilder.java:152-155 | as written, `alias(key, value)` leaves the alias map untouched and is exactly `define(key, value)` |
| EsBuildConfigBuilders.AliasEntry | core/src/main/java/io/mvnpm/esbuild/model/EsBuildConfigBuilder.java:152-155 | (corrected) `alias(key, value)` puts the entry into the alias map and changes nothing else |
| EsBuildConfigBuilders.AddExternal | core/src/main/java/io/mvnpm/esbuild/model/EsBuildConfigBuilder.java:232-239 | appends the name to the builder's externals and changes no other builder field; after `external(null)` the call throws |
| EsBuildConfigBuilders.Build | core/src/main/java/io/mvnpm/esbuild/model/EsBuildConfigBuilder.java:276-278 | `build` copies the builder's fields into the record, the alias and define maps always present (also core/src/main/java/io/mvnpm/esbuild/model/EsBuildConfig.java:43-66) |
| EsBuildConfigBuilders.Edit | core/src/main/java/io/mvnpm/esbuild/model/EsBuildConfig.java:68-92 | `edit` fails exactly when the record's alias or define map is null (putAll of null) |
| EsBuildConfigBuilders.BuildEdit | core/src/main/java/io/mvnpm/esbuild/model/EsBuildConfig.java:43-92 | editing a record and building again gives back the same record |
| EsBuildConfigBuilders.EditBuild | core/src/main/java/io/mvnpm/esbuild/model/EsBuildConfig.java:43-92 | building and editing gives back the builder, except that the version and watch switches, which the record does not hold, are off |
| EsBuildConfigBuilders.BundleEsmFlags | core/src/test/java/io/mvnpm/esbuild/model/EsBuildConfigTest.java:13-25 | bundle with ESM format renders to exactly "--bundle" and "--format=esm" |
| EsBuildConfigBuilders.LoaderFlags | core/src/test/java/io/mvnpm/esbuild/model/EsBuildConfigTest.java:27-38 | a .js=JSX, .css=LOCAL_CSS loader map renders to "--loader:.js=jsx" and "--loader:.css=local-css" |
| EsBuildConfigBuilders.ExternalFlags | core/src/test/java/io/mvnpm/esbuild/model/EsBuildConfigTest.java:71-83 | two added externals render to one `--external:` flag each |
| EsBuildConfigBuilders.ChunkNamesFlag | core/src/test/java/io/mvnpm/esbuild/model/EsBuildConfigTest.java:85-96 | the chunk name template renders to one `--chunk-names=` flag |
| EsBuildConfigBuilders.DefineFlags | core/src/test/java/io/mvnpm/esbuild/model/EsBuildConfigTest.java:98-110 | define entries keep the case of their keys and values |
| EsBuildConfigBuilders.AliasAsWrittenFlags | core/src/main/java/io/mvnpm/esbuild/model/EsBuildConfigBuilder.java:152-155 | as written, `alias("react", "preact")` renders to "--define:react=preact" |
| EsBuildConfigBuilders.AliasFlags | core/src/main/java/io/mvnpm/esbuild/model/EsBuildConfigBuilder.java:152-155 | corrected, it renders to "--alias:react=preact" |
| LegacyEsBuildConfigs.SetWatch | src/main/java/io/mvnpm/esbuild/model/EsBuildConfig.java:213-215 | `setWatch` changes the watch setting and nothing else |
| LegacyEsBuildConfigs.WatchRoundTrip | src/main/java/io/mvnpm/esbuild/model/EsBuildConfig.java:209-215 | `isWatch` after `setWatch(on)` answers `on`; switching on stores "forever" |
| LegacyEsBuildConfigs.AddExternal | src/main/java/io/mvnpm/esbuild/model/EsBuildConfig.java:245-247 | appends the name to the externals and changes nothing else |
| LegacyEsBuildConfigs.NameForms | src/main/java/io/mvnpm/esbuild/model/EsBuildConfig.java:259 | a true boolean's switch is the lower-cased field name, other flags the field's words joined by "-"; only the output directory's flag is "outdir" (also src/main/java/io/mvnpm/esbuild/model/EsBuildConfig.java:267, src/main/java/io/mvnpm/esbuild/model/EsBuildConfig.java:283-286) |
| LegacyEsBuildConfigs.MapToStringIsAssignments | src/main/java/io/mvnpm/esbuild/model/EsBuildConfig.java:288-296 | one `--<field>:<key>=<value>` per entry, the value lower-cased and then every "_" turned into "-" |
| LegacyEsBuildConfigs.FieldParamsExpected | src/main/java/io/mvnpm/esbuild/model/EsBuildConfig.java:256-273 | the loop body renders each kind of value as the esbuild command line expects |
| LegacyEsBuildConfigs.FieldRendersExpected | src/main/java/io/mvnpm/esbuild/model/EsBuildConfig.java:252-278 | every field contributes exactly its expected flags |
| LegacyEsBuildConfigs.ToParamsMatchesSpec | src/main/java/io/mvnpm/esbuild/model/EsBuildConfig.java:249-281 | whatever order reflection lists the fields in, `toParams` yields exactly the reference flags, as a multiset |
| LegacyEsBuildConfigs.SoleField | src/main/java/io/mvnpm/esbuild/model/EsBuildConfig.java:249-281 | a config in which one field holds something renders to that field's flags only |
| LegacyEsBuildConfigs.PairFields | src/main/java/io/mvnpm/esbuild/model/EsBuildConfig.java:249-281 | a config in which two fields hold something renders to the flags of both |
| LegacyEsBuildConfigs.BundleEsmFlags | src/test/java/io/mvnpm/esbuild/model/EsBuildConfigTest.java:18-28 | bundle with ESM format renders to exactly "--bundle" and "--format=esm" |
| LegacyEsBuildConfigs.LoaderFlags | src/test/java/io/mvnpm/esbuild/model/EsBuildConfigTest.java:32-41 | a .js=JSX, .css=LOCAL_CSS loader map renders to "--loader:.js=jsx" and "--loader:.css=local-css" |
| LegacyEsBuildConfigs.ExternalFlags | src/test/java/io/mvnpm/esbuild/model/EsBuildConfigTest.java:62-72 | two added externals render to one `--external:` flag each |
| LegacyEsBuildConfigs.ChunkNamesFlag | src/test/java/io/mvnpm/esbuild/model/EsBuildConfigTest.java:76-85 | the chunk name template renders to one `--chunk-names=` flag |
| LegacyEsBuildConfigs.SourceMapFlag | src/main/java/io/mvnpm/esbuild/model/EsBuildConfig.java:189-191 | a config with only source maps on renders to "--sourcemap" (also src/main/java/io/mvnpm/esbuild/model/EsBuildConfig.java:258-259) |
| LegacyEsBuildConfigs.WatchFlag | src/main/java/io/mvnpm/esbuild/model/EsBuildConfig.java:213-215 | a config with only watch on renders to "--watch=forever" (also src/main/java/io/mvnpm/esbuild/model/EsBuildConfig.java:266-272) |
| NerdinConfigs.MapToStringIsConcat | src/main/java/ch/nerdin/esbuild/Config.java:214-221 | a map renders to ":" followed by every `key=value` piece, values lower-cased, glued together with no separator |
| NerdinConfigs.NameForms | src/main/java/ch/nerdin/esbuild/Config.java:196-203 | every switch is the lower-cased field name; only `entryPoint` is passed bare and only the output directory's switch is "outdir" |
| NerdinConfigs.FieldParamsExpected | src/main/java/ch/nerdin/esbuild/Config.java:194-204 | as written, the loop body renders a true boolean as its switch, a map as one glued flag, the entry point bare and any other value lower-cased |
| NerdinConfigs.FixedFieldParamsExpected | src/main/java/ch/nerdin/esbuild/Config.java:194-204 | (corrected) the same, but one flag per map entry and the output directory kept as it is |
| NerdinConfigs.FieldRendersExpected | src/main/java/ch/nerdin/esbuild/Config.java:190-209 | every field contributes exactly its expected flags, as written and corrected |
| NerdinConfigs.ToParamsMatchesSpec | src/main/java/ch/nerdin/esbuild/Config.java:187-212 | whatever order reflection lists the fields in, `toParams` yields exactly the reference flags, as a multiset |
| NerdinConfigs.FixedParamsMatchesSpec | src/main/java/ch/nerdin/esbuild/Config.java:187-212 | the corrected rendering yields exactly the corrected reference flags |
| NerdinConfigs.SoleField | src/main/java/ch/nerdin/esbuild/Config.java:187-212 | a config in which one field holds something renders to that field's flags only |
| NerdinConfigs.FixedSoleField | src/main/java/ch/nerdin/esbuild/Config.java:187-212 | the same for the corrected rendering |
| NerdinConfigs.PairFields | src/main/java/ch/nerdin/esbuild/Config.java:187-212 | a config in which two fields hold something renders to the flags of both |
| NerdinConfigs.BundleEsmFlags | src/main/java/ch/nerdin/esbuild/Config.java:196-203 | bundle with ESM format renders to exactly "--bundle" and "--format=esm" |
| NerdinConfigs.SourceMapFlag | src/main/java/ch/nerdin/esbuild/Config.java:196-197 | a config with only source maps on renders to "--sourcemap" |
| NerdinConfigs.EmptyMapFlag | src/main/java/ch/nerdin/esbuild/Config.java:198-199 | an empty substitutes map still renders, as "--substitutes:" (also src/main/java/ch/nerdin/esbuild/Config.java:214-221) |
| NerdinConfigs.LoaderEntriesGlued | src/main/java/ch/nerdin/esbuild/Config.java:198-199 | as written, a two-entry loader map renders to the single flag "--loader:.js=jsx.css=css" (also src/main/java/ch/nerdin/esbuild/Config.java:214-221) |
| NerdinConfigs.FixedLoaderFlags | src/main/java/ch/nerdin/esbuild/Config.java:198-199 | corrected, it renders to "--loader:.js=jsx" and "--loader:.css=css" (also src/main/java/ch/nerdin/esbuild/Config.java:214-221) |
| NerdinConfigs.OutDirLowered | src/main/java/ch/nerdin/esbuild/Config.java:202-203 | as written, the output directory "/tmp/Web" renders as "--outdir=/tmp/web" |
| NerdinConfigs.FixedOutDirKept | src/main/java/ch/nerdin/esbuild/Config.java:202-203 | corrected, it renders as "--outdir=/tmp/Web" |
| ScriptLogs.LevelOf | core/src/main/java/io/mvnpm/esbuild/deno/ScriptLog.java:35-39 | `Level.valueOf` gives a level exactly when the name is one of the level names, and fails otherwise |
| ScriptLogs.FirstTag | core/src/main/java/io/mvnpm/esbuild/deno/ScriptLog.java:15 | finds the leftmost `[word]` tag with no line terminator before it (also core/src/main/java/io/mvnpm/esbuild/deno/ScriptLog.java:29-33) |
| ScriptLogs.MatchIsLeftmost | core/src/main/java/io/mvnpm/esbuild/deno/ScriptLog.java:15 | the log pattern matches at the leftmost tag the whole line can be split at, and fails exactly when there is none (also core/src/main/java/io/mvnpm/esbuild/deno/ScriptLog.java:29-33) |
| ScriptLogs.Classify | core/src/main/java/io/mvnpm/esbuild/deno/ScriptLog.java:29-42 | a line the pattern does not match is an INFO message holding the whole trimmed line, with "<br>" turned into a newline |
| ScriptLogs.ClassifyTagged | core/src/main/java/io/mvnpm/esbuild/deno/ScriptLog.java:33-36 | a matched tag naming a level (in any letter case, under a default locale without the Turkic dotted and dotless i rules) gives that level and the text after the tag (also core/src/main/java/io/mvnpm/esbuild/deno/ScriptLog.java:42) |
| ScriptLogs.ClassifyUntagged | core/src/main/java/io/mvnpm/esbuild/deno/ScriptLog.java:30-40 | a matched tag that names no level falls back to INFO with the whole line (also core/src/main/java/io/mvnpm/esbuild/deno/ScriptLog.java:42) |
| ScriptLogs.Add | core/src/main/java/io/mvnpm/esbuild/deno/ScriptLog.java:25-43 | a null or blank line leaves the log unchanged; any other line appends exactly one message and keeps the earlier ones |
| ScriptLogs.UnbreakLeavesNoBreak | core/src/main/java/io/mvnpm/esbuild/deno/ScriptLog.java:42 | after the replacement no "<br>" is left in a message |
| ScriptLogs.AddStoresNoBreak | core/src/main/java/io/mvnpm/esbuild/deno/ScriptLog.java:42 | no stored message ever contains "<br>" |
| ScriptLogs.ErrorsAppend | core/src/main/java/io/mvnpm/esbuild/deno/ScriptLog.java:64-66 | the error texts of a concatenated log are those of each part, in order |
| ScriptLogs.CountErrorsIsErrors | core/src/main/java/io/mvnpm/esbuild/deno/ScriptLog.java:64-70 | `countErrors` equals the number of `errors()` |
| ScriptLogs.ErrorsAndWarnings | core/src/main/java/io/mvnpm/esbuild/deno/ScriptLog.java:68-74 | errors and warnings together never exceed the number of messages |
| ScriptLogs.AddExtends | core/src/main/java/io/mvnpm/esbuild/deno/ScriptLog.java:25-74 | adding a line extends `errors()`, `countWarnings` and `toString` by exactly that line's message |
| ScriptLogs.ClearEmpties | core/src/main/java/io/mvnpm/esbuild/deno/ScriptLog.java:51-62 | a cleared log is empty, has no errors and prints as "" |
| ScriptLogs.ErrorLine | core/src/main/java/io/mvnpm/esbuild/deno/ScriptLog.java:25-43 | "[error] a<br>b" is stored as an ERROR message "a", newline, "b" |
| ScriptLogs.WarningLine | core/src/main/java/io/mvnpm/esbuild/deno/ScriptLog.java:33-39 | "[WARNING] careful" stays INFO with the whole line, since the level is called WARN |
| Platforms.ParseClassifierText | core/src/main/java/io/mvnpm/esbuild/resolve/Resolvers.java:83-110 | each of the six classifier spellings reads back as its classifier |
| Platforms.Classify | core/src/main/java/io/mvnpm/esbuild/resolve/Resolvers.java:83-110 | macOS exactly when the lower-cased os name mentions "mac", then Windows when it mentions "win"; arm64 on a Mac for "aarch64" or any "arm", elsewhere only for "aarch64" or "arm64"; x64 for any other architecture mentioning "64" (also core/src/main/java/io/mvnpm/esbuild/deno/DenoRunner.java:222-249) |
| Platforms.ClassifyRefuses | core/src/main/java/io/mvnpm/esbuild/resolve/Resolvers.java:106-108 | a platform is refused exactly when it is not a Mac and its architecture does not mention "64" |
| Platforms.ResolverClassifier | core/src/main/java/io/mvnpm/esbuild/resolve/Resolvers.java:83-110 | the esbuild resolvers answer the six-way classifier, or throw "Incompatible os: '<os>' and arch: '<arch>' for esbuild" with both lower-cased; because the classifier is a static final field computed at class initialization (also core/src/main/java/io/mvnpm/esbuild/resolve/Resolvers.java:31), callers see that refusal wrapped in an `ExceptionInInitializerError` on first use and a `NoClassDefFoundError` afterwards |
| Platforms.LegacyClassify | src/main/java/io/mvnpm/esbuild/resolve/BaseResolver.java:23-48 | the legacy classifier is total: darwin for a Mac, win32-x64 or win32-ia32 for Windows, and linux-arm64, linux-arm, linux-x64 or linux-ia32 otherwise |
| Platforms.LegacyAgrees | src/main/java/io/mvnpm/esbuild/resolve/BaseResolver.java:23-48 | wherever the six-way classifier answers (bar Windows on arm64 and an arm-named 64-bit Linux), the legacy one names the same npm platform (also core/src/main/java/io/mvnpm/esbuild/resolve/Resolvers.java:83-110) |
| Resolvers.TgzPath | core/src/main/java/io/mvnpm/esbuild/resolve/Resolvers.java:24-25 | the tarball name ends with "-<version>.tgz" (also core/src/main/java/io/mvnpm/esbuild/resolve/Resolvers.java:70-76) |
| Resolvers.TgzPathMvnpm | core/src/main/java/io/mvnpm/esbuild/resolve/Resolvers.java:70-76 | the tarball name starts with "/esbuild-<classifier>-" exactly when the version mentions "mvnpm" |
| Resolvers.TgzVersionRoundTrip | core/src/main/java/io/mvnpm/esbuild/resolve/Resolvers.java:24-25 | the version can be read back from the tarball name (also core/src/main/java/io/mvnpm/esbuild/resolve/Resolvers.java:70-76) |
| Resolvers.ExecutablePath | core/src/main/java/io/mvnpm/esbuild/resolve/Resolvers.java:27-41 | the executable is "package/bin/esbuild" under the bundle when it has a "package/bin" directory, "package/esbuild" otherwise, with ".exe" on Windows (also core/src/main/java/io/mvnpm/esbuild/resolve/Resolvers.java:178-180) |
| Resolvers.GetExecutablePath | core/src/main/java/io/mvnpm/esbuild/resolve/Resolvers.java:48-60 | an answer is an executable inside the bundle; for a "-mvnpm-" bundle the Sass executable must be executable too; no answer exactly when either check fails |
| Resolvers.RequireExecutablePath | core/src/main/java/io/mvnpm/esbuild/resolve/Resolvers.java:62-68 | fails with "Invalid esbuild executable in: <dir>" exactly when no executable is found |
| Resolvers.PermissionForIndex | core/src/main/java/io/mvnpm/esbuild/resolve/Resolvers.java:197-220 | indices 0 to 8 give the permissions in declaration order; any other index fails with "Invalid index: <index>" |
| Resolvers.PermissionIndexRoundTrip | core/src/main/java/io/mvnpm/esbuild/resolve/Resolvers.java:197-220 | each permission's index gives the permission back |
| Resolvers.MaskIsModeBit | core/src/main/java/io/mvnpm/esbuild/resolve/Resolvers.java:186-188 | the mask checked for index i is the POSIX mode bit of permission i |
| Resolvers.ModeToPermissions | core/src/main/java/io/mvnpm/esbuild/resolve/Resolvers.java:183-195 | starting from every permission and removing those whose bit is clear leaves exactly the permissions the mode grants |
| Resolvers.HigherBitsIgnored | core/src/main/java/io/mvnpm/esbuild/resolve/Resolvers.java:186-192 | mode bits above the nine permission bits make no difference |
| Resolvers.ModeRoundTrip | core/src/main/java/io/mvnpm/esbuild/resolve/Resolvers.java:183-195 | a permission set written as a mode reads back as the same set |
| Resolvers.ReleaseTag | core/src/main/java/io/mvnpm/esbuild/resolve/DownloadResolver.java:66 | the release tag is the version's text after its last "-" |
| Resolvers.RegistryUrlNamesPackage | core/src/main/java/io/mvnpm/esbuild/resolve/DownloadResolver.java:23 | for a version without the letters "w" and "m", the npm registry URL names the npm package of the platform: "windows" becomes "win32" and "macos" becomes "darwin" (also core/src/main/java/io/mvnpm/esbuild/resolve/DownloadResolver.java:68) |
| Resolvers.ReleaseUrl | core/src/main/java/io/mvnpm/esbuild/resolve/DownloadResolver.java:24 | an mvnpm version downloads from the GitHub release named after its tag, and the URL ends with the tarball name (also core/src/main/java/io/mvnpm/esbuild/resolve/DownloadResolver.java:63-67) |
| Resolvers.Download | core/src/main/java/io/mvnpm/esbuild/resolve/DownloadResolver.java:27-61 | outside the destination only files the extraction wrote change, and once the tarball is there those written files appear whatever the outcome, because the tar loop writes `new File(destination, name)` without keeping names inside the destination (also core/src/main/java/io/mvnpm/esbuild/resolve/Resolvers.java:134); the download fails exactly when no tarball is there and the transfer does not complete, leaving at most a partial tarball; once the tarball is there, extraction first wipes the destination (also core/src/main/java/io/mvnpm/esbuild/resolve/Resolvers.java:117-121), so only what the archive holds remains below it, and a failed extraction also deletes the file at the tarball's path (also core/src/main/java/io/mvnpm/esbuild/resolve/DownloadResolver.java:44-46); a success returns an extracted executable |
| Resolvers.Extract | core/src/main/java/io/mvnpm/esbuild/resolve/Resolvers.java:117-164 | after the wipe, below the destination exactly what the archive wrote is left, apart from the tarball's path, which survives only a successful resolve; written files elsewhere replace what was at their paths, and nothing else outside changes; a success returns an executable the archive wrote (also core/src/main/java/io/mvnpm/esbuild/resolve/DownloadResolver.java:40-47) |
| Resolvers.PresentTarSkipsDownload | core/src/main/java/io/mvnpm/esbuild/resolve/DownloadResolver.java:50-54 | a tarball already in place is used whether or not the download would work |
| Resolvers.FailedDownloadChangesNothing | core/src/main/java/io/mvnpm/esbuild/resolve/DownloadResolver.java:34-38 | a download that does not complete fails with "could not download esbuild with version <v>" and adds no executable; an unreachable URL writes no file, a broken-off transfer writes only the partial tarball |
| Resolvers.InterruptedDownloadReused | core/src/main/java/io/mvnpm/esbuild/resolve/DownloadResolver.java:50-61 | after a broken-off transfer the partial tarball stays, the next resolve unpacks it without downloading whatever the network does, and, unless the archive holds a file of that name, leaves no tarball behind (also core/src/main/java/io/mvnpm/esbuild/resolve/Resolvers.java:117-121) |
| Resolvers.Location | core/src/main/java/io/mvnpm/esbuild/resolve/Resolvers.java:174-176 | the bundle location is "<tmpdir>/esbuild-<version>" (also src/main/java/io/mvnpm/esbuild/resolve/BaseResolver.java:65-67) |
| Resolvers.LegacyExecutableAgrees | src/main/java/io/mvnpm/esbuild/resolve/BaseResolver.java:15 | outside Windows the legacy resolver's executable is the current resolver's "package/bin/esbuild" (also src/main/java/io/mvnpm/esbuild/resolve/BaseResolver.java:55-59, core/src/main/java/io/mvnpm/esbuild/resolve/Resolvers.java:27) |
| DenoRunners.DenoClassifier | core/src/main/java/io/mvnpm/esbuild/deno/DenoRunner.java:222-249 | the Deno classifier answers the six-way classifier, or fails with "Incompatible os: … for EsBuild Java" |
| DenoRunners.DenoBinariesTotal | core/src/main/java/io/mvnpm/esbuild/deno/DenoRunner.java:32-38 | every classifier has a Deno package: its npm platform name, with "-glibc" on Linux |
| DenoRunners.DenoBinary | core/src/main/java/io/mvnpm/esbuild/deno/DenoRunner.java:208-220 | an unsupported platform fails; a found binary is a regular file at `@deno/<package>/deno` (".exe" on Windows) under node_modules |
| DenoRunners.ProcessArgs | core/src/main/java/io/mvnpm/esbuild/deno/DenoRunner.java:183-193 | the command is the binary, "run", "--allow-all", "--node-modules-dir=manual", then "--inspect-wait" when debugging, then the script |
| DenoRunners.DebugAddsInspectWait | core/src/main/java/io/mvnpm/esbuild/deno/DenoRunner.java:189-191 | debugging adds exactly "--inspect-wait" and nothing else |
| DenoRunners.BuildMarkersIgnored | core/src/main/java/io/mvnpm/esbuild/deno/DenoRunner.java:121-123 | "--BUILD--" lines make no difference to the result |
| DenoRunners.StopsAtTerminal | core/src/main/java/io/mvnpm/esbuild/deno/DenoRunner.java:124-130 | nothing after a "--READY--", "--BUILD-SUCCESS--" or "--BUILD-ERROR--" line is read |
| DenoRunners.OrdinaryLinesLogged | core/src/main/java/io/mvnpm/esbuild/deno/DenoRunner.java:112-133 | without special lines every line is added to the log and the stream is read to its end |
| DenoRunners.ReadyReturnsLog | core/src/main/java/io/mvnpm/esbuild/deno/DenoRunner.java:124-126 | a ready or success marker returns the log of the lines before it |
| DenoRunners.DebuggerForgets | core/src/main/java/io/mvnpm/esbuild/deno/DenoRunner.java:115-120 | the debugger-waiting line is logged and the log cleared, so what follows starts from an empty log |
| DenoRunners.WaitForResult | core/src/main/java/io/mvnpm/esbuild/deno/DenoRunner.java:106-141 | a build error fails with "EsBuild Bundling failed" and the log; success also needs the process still alive (also core/src/main/java/io/mvnpm/esbuild/deno/DenoRunner.java:154-157, core/src/main/java/io/mvnpm/esbuild/deno/DenoRunner.java:176-179) |
| DenoRunners.WaitForExit | core/src/main/java/io/mvnpm/esbuild/deno/DenoRunner.java:80-97 | succeeds exactly when the process finished with exit code 0, holding every line read; otherwise fails with the same log (also core/src/main/java/io/mvnpm/esbuild/deno/DenoRunner.java:143-153) |
| EsBuildDeps.GavTextSplits | core/src/main/java/io/mvnpm/esbuild/install/EsBuildDeps.java:72-77 | a GAV's text splits back on ":" into its group, artifact and version |
| EsBuildDeps.LastGroup | core/src/main/java/io/mvnpm/esbuild/install/EsBuildDeps.java:21 | the greedy leading `.*` settles on the last possible start of the "org/mvnpm" group |
| EsBuildDeps.MatchComponents | core/src/main/java/io/mvnpm/esbuild/install/EsBuildDeps.java:21 | a match needs at least six path components and ends with the artifact, the version, and "<artifact>-<version>.jar" (also core/src/main/java/io/mvnpm/esbuild/install/EsBuildDeps.java:61-64) |
| EsBuildDeps.ExtractGavJarText | core/src/main/java/io/mvnpm/esbuild/install/EsBuildDeps.java:21 | a jar at `<dirs>/org/mvnpm/<segs>/<a>/<v>/<a>-<v>.jar` (no further "org/mvnpm" pair inside `<segs>`) yields group "org.mvnpm" plus the segments joined by ".", artifact a and version v (also core/src/main/java/io/mvnpm/esbuild/install/EsBuildDeps.java:59-70) |
| EsBuildDeps.ExtractGavSound | core/src/main/java/io/mvnpm/esbuild/install/EsBuildDeps.java:59-70 | every path the pattern accepts, after "\\" becomes "/", is such a jar, and its group id is the one its directories name |
| EsBuildDeps.PluginNameOf | core/src/main/java/io/mvnpm/esbuild/install/EsBuildDeps.java:49 | "esbuild-<w>-plugin" is a plugin name exactly when w is one or more lower-case letters |
| EsBuildDeps.EntryDependency | core/src/main/java/io/mvnpm/esbuild/install/EsBuildDeps.java:38-53 | an entry yields a dependency only when its GAV is extracted and its type resolves |
| EsBuildDeps.EntryPlugin | core/src/main/java/io/mvnpm/esbuild/install/EsBuildDeps.java:49-51 | a plugin is recorded only for an entry that also yields a dependency, and its name has the plugin shape |
| EsBuildDeps.Collect | core/src/main/java/io/mvnpm/esbuild/install/EsBuildDeps.java:32-57 | every collected dependency has a resolved type, every plugin name has the plugin shape, and there are no more plugins than dependencies |
| EsBuildDeps.CollectAppendDeps | core/src/main/java/io/mvnpm/esbuild/install/EsBuildDeps.java:36-55 | classpath entries are taken one by one, in order: the dependencies of two runs of entries are those of each run |
| EsBuildDeps.CollectAppendPlugins | core/src/main/java/io/mvnpm/esbuild/install/EsBuildDeps.java:36-55 | the same holds for the plugins |
| EsBuildDeps.DroppedEntry | core/src/main/java/io/mvnpm/esbuild/install/EsBuildDeps.java:40-48 | an entry without a GAV or a resolved type contributes nothing |
| EsBuildDeps.Get | core/src/main/java/io/mvnpm/esbuild/install/EsBuildDeps.java:23-30 | the first call computes and caches the dependencies; a cached value is returned as it is |
| EsBuildDeps.GetIsStable | core/src/main/java/io/mvnpm/esbuild/install/EsBuildDeps.java:23-30 | a second call returns the first call's value whatever it would compute |
| BuildDependencies.Of | core/src/main/java/io/mvnpm/esbuild/install/BuildDependency.java:23-27 | a property entry gives a file name with no slash, ending in ".jar", which is the name with every "/" made "-" |
| BuildDependencies.OfVersionKey | core/src/main/java/io/mvnpm/esbuild/install/BuildDependency.java:24-25 | a key "<x>.version" with value v names "<x>/<v>" and the file "<x>-<v>.jar", slashes made dashes |
| BuildDependencies.DashedName | core/src/main/java/io/mvnpm/esbuild/install/BuildDependency.java:25 | turning slashes into dashes distributes over "<x>/<v>" |
| BuildDependencies.Each | core/src/main/java/io/mvnpm/esbuild/install/BuildDependency.java:21-27 | one build dependency per property entry, in the entries' order |
| BuildDependencies.Resolve | core/src/main/java/io/mvnpm/esbuild/install/BuildDependency.java:19-31 | the property entries' dependencies followed by exactly one more, "at/esbuild/<classifier>/<esbuild.version>" (the text "null" when the version is missing) (also core/src/main/java/io/mvnpm/esbuild/install/BuildDependency.java:55-59) |
| BuildDependencies.WebDependencyId | core/src/main/java/io/mvnpm/esbuild/install/BuildDependency.java:46-53 | each web dependency's id is "org.mvnpm:" plus its file name with ".jar" removed, and its path ends in that file name |
| BuildDependencies.Dependencies | core/src/main/java/io/mvnpm/esbuild/install/BuildDependency.java:15-17 | one web dependency per build dependency, every one of the mvnpm kind (also core/src/main/java/io/mvnpm/esbuild/install/BuildDependency.java:46-53) |
| BuildDependencies.NoJInClassifier | core/src/main/java/io/mvnpm/esbuild/install/BuildDependency.java:61-86 | no platform classifier text contains a "j", so removing ".jar" cannot cut into it |
| BuildDependencies.StripJar | core/src/main/java/io/mvnpm/esbuild/install/BuildDependency.java:50 | removing every ".jar" from "<stem>.jar" gives back the stem when the stem cannot form ".jar" itself |
| BuildDependencies.JarId | core/src/main/java/io/mvnpm/esbuild/install/BuildDependency.java:50 | a jar "<stem>.jar" gets the id "org.mvnpm:<stem>" |
| BuildDependencies.PlatformId | core/src/main/java/io/mvnpm/esbuild/install/BuildDependency.java:50 | the esbuild platform package gets the id "org.mvnpm:<classifier>-<version>" (also core/src/main/java/io/mvnpm/esbuild/install/BuildDependency.java:55-59) |
| BuildDependencies.PlatformIdLast | core/src/main/java/io/mvnpm/esbuild/install/BuildDependency.java:29 | the last web dependency is the esbuild package for the running platform and the configured version (also core/src/main/java/io/mvnpm/esbuild/install/BuildDependency.java:46-53) |
| BundleExceptions.New | core/src/main/java/io/mvnpm/esbuild/BundleException.java:13-16 | the message is kept, and missing details become the empty text |
| BundleExceptions.Simple | core/src/main/java/io/mvnpm/esbuild/BundleException.java:21-23 | the one-argument form has empty details |
| BundleExceptions.SimpleIsNullDetails | core/src/main/java/io/mvnpm/esbuild/BundleException.java:13-23 | the one-argument form, null details and empty details all build the same exception |
| BundleExceptions.GetMessage | core/src/main/java/io/mvnpm/esbuild/BundleException.java:25-31 | the full message starts with the message; it is longer exactly when there are details, and then continues with ":" and a newline and the details |
| BundleExceptions.GetMessageInjective | core/src/main/java/io/mvnpm/esbuild/BundleException.java:25-31 | two exceptions with the same message and the same full message are equal |
| Bundlers.NodeModulesDir | core/src/main/java/io/mvnpm/esbuild/Bundler.java:105-109 | without a configured directory, node_modules is a child of the working directory; a configured one is normalized, so it keeps its absoluteness and has no "." component |
| Bundlers.OutDir | core/src/main/java/io/mvnpm/esbuild/script/ScriptRunner.java:26-29 | with no configured output directory, the output is "dist" in the working directory |
| Bundlers.InstallList | core/src/main/java/io/mvnpm/esbuild/Bundler.java:99-103 | the installer gets the user's dependencies first, then the class path's, nothing dropped or added |
| Bundlers.EntryPaths | core/src/main/java/io/mvnpm/esbuild/Bundler.java:84 | one path per entry point, in order, each the processed entry's path as text |
| Bundlers.PrepareForBundling | core/src/main/java/io/mvnpm/esbuild/Bundler.java:74-92 | the output directory is wiped and re-created on every call, before any refusal (also core/src/main/java/io/mvnpm/esbuild/Bundler.java:77-79); the call fails exactly when the entry list is missing (null) or the config cannot be edited, and an empty list passes; otherwise the options carry the node_modules directory, the output directory and the entry point paths |
| Bundlers.GetBundling | core/src/main/java/io/mvnpm/esbuild/Bundler.java:52-69 | refused exactly when node_modules is not in an ancestor of the working directory (or in it), the entry list is missing (null), or the config cannot be edited; an unreachable node_modules is refused before anything is touched, otherwise the install of the dependencies plus esbuild's own runs exactly when asked for and the output directory is wiped, whether or not the call then fails (also core/src/main/java/io/mvnpm/esbuild/Bundler.java:63-65); on success node_modules is reachable and the options carry it and the output directory |
| Bundlers.MissingEntriesAfterEffects | core/src/main/java/io/mvnpm/esbuild/Bundler.java:77-83 | a missing entry list is refused with "At least one entry point is required" only after the output directory was wiped and, when asked for, the dependencies were installed |
| Bundlers.EmptyEntriesAccepted | core/src/main/java/io/mvnpm/esbuild/Bundler.java:81-84 | an empty (non-null) entry list is not refused: the options are built with an empty list of entry points |
| Bundlers.DefaultNodeModulesReachable | core/src/main/java/io/mvnpm/esbuild/Bundler.java:53-61 | the default node_modules is always reachable from a non-empty working directory (also core/src/main/java/io/mvnpm/esbuild/Bundler.java:105-108) |
| Bundlers.EmptyWorkDirRefused | core/src/main/java/io/mvnpm/esbuild/Bundler.java:56-61 | the empty working directory is refused, because its node_modules has no parent |
| Bundlers.SiblingNodeModulesRefused | core/src/main/java/io/mvnpm/esbuild/Bundler.java:56-61 | a node_modules in a sibling of the working directory, such as "<base>/foo/node_modules" for "<base>/work", is refused |
| Bundlers.EffectiveOptions | core/src/main/java/io/mvnpm/esbuild/Bundler.java:74-92 | the options esbuild runs with differ from the user's only in node_modules, the output directory and the entry points |
| WebDepsInstallers.InfoPathPlacement | core/src/main/java/io/mvnpm/esbuild/install/WebDepsInstaller.java:32 | the record file ".mvnpm/mvnpm.json" lies inside node_modules, so wiping node_modules removes it, and outside the scratch directory ".mvnpm/tmp", so removing the scratch directory keeps it (also core/src/main/java/io/mvnpm/esbuild/install/WebDepsInstaller.java:49, core/src/main/java/io/mvnpm/esbuild/install/WebDepsInstaller.java:112-114) |
| WebDepsInstallers.ExtractDirOfCoordinates | core/src/main/java/io/mvnpm/esbuild/install/WebDepsInstaller.java:49 | an id "g:a:v" is extracted to ".mvnpm/tmp/g/a/v": one directory level per coordinate, always inside the scratch directory (also core/src/main/java/io/mvnpm/esbuild/install/WebDepsInstaller.java:61) |
| WebDepsInstallers.ReadInfo | core/src/main/java/io/mvnpm/esbuild/install/WebDepsInstaller.java:116-130 | a missing record file reads as no records; an unparsable one also reads as no records and is deleted; a parsable one is read and kept |
| WebDepsInstallers.ReadInfoStable | core/src/main/java/io/mvnpm/esbuild/install/WebDepsInstaller.java:116-130 | a second read returns the same records and leaves the file as the first read left it, never unparsable |
| WebDepsInstallers.FirstWithId | core/src/main/java/io/mvnpm/esbuild/install/WebDepsInstaller.java:53-54 | the first old record with the dependency's id, or none exactly when no old record has that id |
| WebDepsInstallers.Contribution | core/src/main/java/io/mvnpm/esbuild/install/WebDepsInstaller.java:52-93 | a dependency contributes a record with its own id, and contributes nothing exactly when it has no old record and its jar holds no package |
| WebDepsInstallers.AddOnce | core/src/main/java/io/mvnpm/esbuild/install/WebDepsInstaller.java:50 | adding a record to the new record set keeps every record present and adds only that one, as a set does (also core/src/main/java/io/mvnpm/esbuild/install/WebDepsInstaller.java:57, core/src/main/java/io/mvnpm/esbuild/install/WebDepsInstaller.java:88) |
| WebDepsInstallers.Process | core/src/main/java/io/mvnpm/esbuild/install/WebDepsInstaller.java:52-94 | the dependency loop only adds package directories, records and the changed flag, never removes them |
| WebDepsInstallers.ProcessChanged | core/src/main/java/io/mvnpm/esbuild/install/WebDepsInstaller.java:55-60 | the loop marks a change exactly when some dependency has no old record with its id |
| WebDepsInstallers.ProcessPackages | core/src/main/java/io/mvnpm/esbuild/install/WebDepsInstaller.java:75-87 | a directory is present after the loop exactly when it was before or a dependency without an old record extracted a package of that name |
| WebDepsInstallers.ProcessRecords | core/src/main/java/io/mvnpm/esbuild/install/WebDepsInstaller.java:53-58 | a record is in the new set exactly when some dependency contributed it (also core/src/main/java/io/mvnpm/esbuild/install/WebDepsInstaller.java:88) |
| WebDepsInstallers.ProcessCongruent | core/src/main/java/io/mvnpm/esbuild/install/WebDepsInstaller.java:52-94 | the loop's records depend only on each dependency's contribution |
| WebDepsInstallers.Install | core/src/main/java/io/mvnpm/esbuild/install/WebDepsInstaller.java:36-45 | no dependencies wipe node_modules, leave no record file and report a change; otherwise, when no unzip or move throws, a record file is written (also core/src/main/java/io/mvnpm/esbuild/install/WebDepsInstaller.java:107-108) |
| WebDepsInstallers.InstallWritesContributions | core/src/main/java/io/mvnpm/esbuild/install/WebDepsInstaller.java:107-108 | the record file written lists exactly the contributed records |
| WebDepsInstallers.InstallChanged | core/src/main/java/io/mvnpm/esbuild/install/WebDepsInstaller.java:39-45 | a change is reported exactly when there are no dependencies, some dependency had no old record, or an old directory is no longer listed (also core/src/main/java/io/mvnpm/esbuild/install/WebDepsInstaller.java:60, core/src/main/java/io/mvnpm/esbuild/install/WebDepsInstaller.java:96-106) |
| WebDepsInstallers.InstallPackages | core/src/main/java/io/mvnpm/esbuild/install/WebDepsInstaller.java:36-42 | a directory survives exactly when it was there (and old records existed) or was just extracted, and it is not an old directory that no new record lists (also core/src/main/java/io/mvnpm/esbuild/install/WebDepsInstaller.java:75-87, core/src/main/java/io/mvnpm/esbuild/install/WebDepsInstaller.java:96-106) |
| WebDepsInstallers.InstallConsistent | core/src/main/java/io/mvnpm/esbuild/install/WebDepsInstaller.java:36-110 | starting from a node_modules that holds every recorded directory, install leaves one that does too |
| WebDepsInstallers.ContributionsStable | core/src/main/java/io/mvnpm/esbuild/install/WebDepsInstaller.java:52-58 | when every dependency contributes and ids are distinct, the written records give each dependency the same contribution again (also core/src/main/java/io/mvnpm/esbuild/install/WebDepsInstaller.java:88) |
| WebDepsInstallers.ReinstallUnchanged | core/src/main/java/io/mvnpm/esbuild/install/WebDepsInstaller.java:36-110 | installing the same dependencies a second time changes nothing and reports no change |
| LegacyWebDepsInstallers.LegacyExtractDirIsOneLevel | src/main/java/io/mvnpm/esbuild/install/WebDepsInstaller.java:47 | the legacy installer extracts under ".mvnpm/tmp/<id>", the id one directory name, colons and all (also src/main/java/io/mvnpm/esbuild/install/WebDepsInstaller.java:59) |
| LegacyWebDepsInstallers.LegacyInstall | src/main/java/io/mvnpm/esbuild/install/WebDepsInstaller.java:34-95 | no dependencies wipe node_modules and report a change; otherwise, when no unzip or move throws, a record file is written |
| LegacyWebDepsInstallers.LegacyRemovesDropped | src/main/java/io/mvnpm/esbuild/install/WebDepsInstaller.java:83-91 | every directory of an old record missing from the new set is deleted, even when a new record lists it |
| LegacyWebDepsInstallers.LegacyVersionBumpLosesPackage | src/main/java/io/mvnpm/esbuild/install/WebDepsInstaller.java:83-91 | a version bump whose package keeps its directory name ends with that directory deleted while the new record lists it |
| LegacyWebDepsInstallers.VersionBumpKeepsPackage | core/src/main/java/io/mvnpm/esbuild/install/WebDepsInstaller.java:96-106 | the same version bump under the directory-wise clean-up keeps the directory, and the record file lists only the new id |
| AutoEntryPoints.ResolveExtension | core/src/main/java/io/mvnpm/esbuild/model/AutoEntryPoint.java:124-128 | fails exactly when the path has no file name; otherwise the extension is dot-free and ends the file name, after a dot when the name has one, and is the whole name when it has none |
| AutoEntryPoints.ExtensionOfFile | core/src/main/java/io/mvnpm/esbuild/model/AutoEntryPoint.java:124-128 | the extension of "<dir>/<stem>.<ext>" is ext |
| AutoEntryPoints.IsScript | core/src/main/java/io/mvnpm/esbuild/model/AutoEntryPoint.java:116-122 | a missing or blank path is not a script; a non-blank path without a file name fails |
| AutoEntryPoints.IsScriptFile | core/src/main/java/io/mvnpm/esbuild/model/AutoEntryPoint.java:19 | "<dir>/<stem>.<ext>" is a script exactly when ext is one of js, ts, jsx, tsx, mjs, mts, cjs, cts (also core/src/main/java/io/mvnpm/esbuild/model/AutoEntryPoint.java:116-122) |
| AutoEntryPoints.SourceOf | core/src/main/java/io/mvnpm/esbuild/model/AutoEntryPoint.java:97-101 | a path becomes a source exactly when it has a file name; the source keeps the path, and its extension is `resolveExtension`'s, the whole name for a dotless file name (also core/src/main/java/io/mvnpm/esbuild/model/AutoEntryPoint.java:124-128) |
| AutoEntryPoints.SourcesOf | core/src/main/java/io/mvnpm/esbuild/model/AutoEntryPoint.java:31-34 | a list of paths becomes sources, one per path in order, exactly when every path does |
| AutoEntryPoints.StripExtension | core/src/main/java/io/mvnpm/esbuild/model/AutoEntryPoint.java:103-105 | the path without its extension is a prefix of the path |
| AutoEntryPoints.StripExtensionOf | core/src/main/java/io/mvnpm/esbuild/model/AutoEntryPoint.java:103-105 | "<a>.<b>" with no dot in b loses exactly ".<b>" |
| AutoEntryPoints.ExtensionOfNamedFile | core/src/main/java/io/mvnpm/esbuild/model/AutoEntryPoint.java:124-128 | (corrected) the extension of "<dir>/<stem>.<ext>" is ext |
| AutoEntryPoints.SourceLineOfFile | core/src/main/java/io/mvnpm/esbuild/model/AutoEntryPoint.java:79-83 | a script "<dir>/<stem>.<ext>" is re-exported from "./<dir>/<stem>"; any other file is imported by its path; neither fails (also core/src/main/java/io/mvnpm/esbuild/model/AutoEntryPoint.java:94-95, core/src/main/java/io/mvnpm/esbuild/model/AutoEntryPoint.java:97-113) |
| AutoEntryPoints.FixedExtension | core/src/main/java/io/mvnpm/esbuild/model/AutoEntryPoint.java:124-128 | (corrected) the extension is the text after the last dot of the file name, and empty for a file name without a dot |
| AutoEntryPoints.FixedSourceOf | core/src/main/java/io/mvnpm/esbuild/model/AutoEntryPoint.java:97-101 | (corrected) a source exists exactly when the as-written one does, carries the corrected extension, and is the as-written source whenever the file name has a dot |
| AutoEntryPoints.FixedSourceLine | core/src/main/java/io/mvnpm/esbuild/model/AutoEntryPoint.java:78-83 | (corrected) the line never fails, equals the as-written line wherever that one exists, and imports every non-script by its path |
| AutoEntryPoints.DotlessSourceIsImported | core/src/main/java/io/mvnpm/esbuild/model/AutoEntryPoint.java:97-113 | (corrected) a file name without a dot is not a script and is imported by its path |
| AutoEntryPoints.PathWithoutExt | core/src/main/java/io/mvnpm/esbuild/model/AutoEntryPoint.java:103-105 | cutting the extension fails exactly when the path has no dot, and otherwise cuts at the last dot of the whole path |
| AutoEntryPoints.SourceLine | core/src/main/java/io/mvnpm/esbuild/model/AutoEntryPoint.java:78-83 | a line fails exactly when the source is a script whose path has no dot; a non-script is imported by its path, a script re-exported from its path without the extension |
| AutoEntryPoints.DotlessScriptNameAsWritten | core/src/main/java/io/mvnpm/esbuild/model/AutoEntryPoint.java:79-80 | a source named "js" counts as a script and its export line fails, because the path has no dot (also core/src/main/java/io/mvnpm/esbuild/model/AutoEntryPoint.java:97-105, core/src/main/java/io/mvnpm/esbuild/model/AutoEntryPoint.java:124-128) |
| AutoEntryPoints.DottedDirectoryAsWritten | core/src/main/java/io/mvnpm/esbuild/model/AutoEntryPoint.java:79-80 | a dotless script name such as "ts" in "a.b/" is exported from "./a", cut at the directory's dot (also core/src/main/java/io/mvnpm/esbuild/model/AutoEntryPoint.java:103-105, core/src/main/java/io/mvnpm/esbuild/model/AutoEntryPoint.java:124-128) |
| AutoEntryPoints.DotlessExtensionAsWritten | core/src/main/java/io/mvnpm/esbuild/model/AutoEntryPoint.java:124-128 | as written, the extension of a dotless file name is the whole name |
| AutoEntryPoints.Kept | core/src/main/java/io/mvnpm/esbuild/model/AutoEntryPoint.java:74-77 | the kept sources are exactly those not ignored (a name starting with "_" or a "/_" in the path), in order (also core/src/main/java/io/mvnpm/esbuild/model/AutoEntryPoint.java:107-109) |
| AutoEntryPoints.Lines | core/src/main/java/io/mvnpm/esbuild/model/AutoEntryPoint.java:74-86 | the lines succeed exactly when every kept source's line does, and are then one line per kept source, in order |
| AutoEntryPoints.LinesFailOnDotlessScript | core/src/main/java/io/mvnpm/esbuild/model/AutoEntryPoint.java:74-86 | the lines fail exactly when some source that is not ignored is a script whose path has no dot (also core/src/main/java/io/mvnpm/esbuild/model/AutoEntryPoint.java:103-105) |
| AutoEntryPoints.AutoImportsSources | core/src/main/java/io/mvnpm/esbuild/model/AutoEntryPoint.java:65-68 | the sources block is empty exactly when there are no sources, and fails exactly when there are sources and their lines fail |
| AutoEntryPoints.AutoImportsSourcesLines | core/src/main/java/io/mvnpm/esbuild/model/AutoEntryPoint.java:72-88 | when the lines succeed, the block is the header line, then, read back line by line, one line per kept source and a closing empty line |
| AutoEntryPoints.IgnoredSourceChangesNothing | core/src/main/java/io/mvnpm/esbuild/model/AutoEntryPoint.java:74-77 | adding an ignored source leaves the block unchanged |
| AutoEntryPoints.ResolvedMode | core/src/main/java/io/mvnpm/esbuild/model/AutoEntryPoint.java:40-43 | without auto-dependencies nothing is imported; an explicit mode is kept; AUTO becomes ALL exactly when no source is a script and STYLES exactly when one is |
| DependenciesAutoImports.ReadPackage | src/main/java/io/mvnpm/esbuild/model/DependenciesAutoImports.java:25 | the fields read are exactly the package.json's keys among name, module, main, style, sass and browser (also src/main/java/io/mvnpm/esbuild/model/DependenciesAutoImports.java:61-75) |
| DependenciesAutoImports.ReadPackageIgnoresOtherFields | src/main/java/io/mvnpm/esbuild/model/DependenciesAutoImports.java:25 | changing a field outside that list changes nothing read (also src/main/java/io/mvnpm/esbuild/model/DependenciesAutoImports.java:65-70) |
| DependenciesAutoImports.StyleImport | src/main/java/io/mvnpm/esbuild/model/DependenciesAutoImports.java:40-45 | the style import is empty exactly when sass and style are both blank; sass wins over style |
| DependenciesAutoImports.ScriptImport | src/main/java/io/mvnpm/esbuild/model/DependenciesAutoImports.java:49-55 | the script import, when there is one, imports the package by its name |
| DependenciesAutoImports.PackageImports | src/main/java/io/mvnpm/esbuild/model/DependenciesAutoImports.java:37-56 | with only styles wanted, a package contributes its style import alone; otherwise its contribution starts with it |
| DependenciesAutoImports.PackageImportsShape | src/main/java/io/mvnpm/esbuild/model/DependenciesAutoImports.java:37-57 | a contribution is blank only when empty, and is at most a style import followed by at most a script import |
| DependenciesAutoImports.PackageDirs | src/main/java/io/mvnpm/esbuild/model/DependenciesAutoImports.java:32-35 | only directories holding a package.json are visited |
| DependenciesAutoImports.Present | src/main/java/io/mvnpm/esbuild/model/DependenciesAutoImports.java:34-35 | the directories kept are exactly those with a package.json, from the given list |
| DependenciesAutoImports.PackageDirsMembers | src/main/java/io/mvnpm/esbuild/model/DependenciesAutoImports.java:32-35 | a directory is visited exactly when it holds a package.json and some record accepted by the id predicate lists it |
| DependenciesAutoImports.Entries | src/main/java/io/mvnpm/esbuild/model/DependenciesAutoImports.java:37-57 | no entry is blank, and with only styles wanted nothing can fail |
| DependenciesAutoImports.EntriesStep | src/main/java/io/mvnpm/esbuild/model/DependenciesAutoImports.java:37-57 | packages are handled in order, a blank contribution dropped |
| DependenciesAutoImports.NonBlank | src/main/java/io/mvnpm/esbuild/model/DependenciesAutoImports.java:57 | the kept entries are exactly the non-blank ones, from the list |
| DependenciesAutoImports.StylesOnlyEntries | src/main/java/io/mvnpm/esbuild/model/DependenciesAutoImports.java:40-48 | with only styles wanted, the entries are the non-blank style imports (also src/main/java/io/mvnpm/esbuild/model/DependenciesAutoImports.java:57) |
| DependenciesAutoImports.DependenciesImports | src/main/java/io/mvnpm/esbuild/model/DependenciesAutoImports.java:29-58 | the text starts with the dependency header line and ends with a newline; with only styles wanted it cannot fail |
| DependenciesAutoImports.NothingInstalled | src/main/java/io/mvnpm/esbuild/model/DependenciesAutoImports.java:29-58 | with no records, the text is the header line and an empty line |
| AutoEntryContents.Content | core/src/main/java/io/mvnpm/esbuild/model/AutoEntryPoint.java:36-57 | a generated entry point ends with the sources block, and a sources block that fails makes the entry point fail |
| AutoEntryContents.ContentByMode | core/src/main/java/io/mvnpm/esbuild/model/AutoEntryPoint.java:40-52 | without auto-dependencies the content is the sources block alone, failure included; in AUTO mode with a script among the sources only style imports precede the block |
| LegacyEntryPoints.WithoutDashes | src/main/java/io/mvnpm/esbuild/model/AutoEntryPoint.java:57 | dashes removed, no other character added |
| LegacyEntryPoints.ConvertLine | src/main/java/io/mvnpm/esbuild/model/AutoEntryPoint.java:48-61 | a path's line fails exactly when it has no file name or the file name has no dot |
| LegacyEntryPoints.ConvertLineOfFile | src/main/java/io/mvnpm/esbuild/model/AutoEntryPoint.java:48-61 | a script "<dir>/<stem>.<ext>" is imported as a namespace named after the stem without dashes, from "./<dir>/<stem>"; any other file is imported by its path (also src/main/java/io/mvnpm/esbuild/model/AutoEntryPoint.java:71-72) |
| LegacyEntryPoints.ConvertLineOfName | src/main/java/io/mvnpm/esbuild/model/AutoEntryPoint.java:48-61 | the same for any path whose file name is "<stem>.<ext>" |
| LegacyEntryPoints.ConvertLines | src/main/java/io/mvnpm/esbuild/model/AutoEntryPoint.java:48-64 | one line per path, in order, failing exactly when some path fails |
| LegacyEntryPoints.Convert | src/main/java/io/mvnpm/esbuild/model/AutoEntryPoint.java:46-69 | the entry point text exists exactly when every line does |
| LegacyEntryPoints.ConvertOneLinePerPath | src/main/java/io/mvnpm/esbuild/model/AutoEntryPoint.java:46-69 | read back line by line, the text is one line per path followed by an empty rest |
| LegacyEntryPoints.ReadScriptless | src/main/java/io/mvnpm/esbuild/model/ScriptlessEntryPoint.java:23 | the fields read are exactly the package.json's keys among name, module, main, style and sass (also src/main/java/io/mvnpm/esbuild/model/ScriptlessEntryPoint.java:60-73) |
| LegacyEntryPoints.ScriptlessLineKind | src/main/java/io/mvnpm/esbuild/model/ScriptlessEntryPoint.java:41-48 | a package is re-exported exactly when it has neither sass nor style but has module; every other package is imported (also src/main/java/io/mvnpm/esbuild/model/ScriptlessEntryPoint.java:75-76) |
| LegacyEntryPoints.ScriptlessLines | src/main/java/io/mvnpm/esbuild/model/ScriptlessEntryPoint.java:34-49 | one line per installed directory with a package.json, every record taken |
| LegacyEntryPoints.ScriptlessOneLinePerPackage | src/main/java/io/mvnpm/esbuild/model/ScriptlessEntryPoint.java:49-53 | read back line by line, the entry point is exactly those lines, with no trailing newline |
| Archives.SlipProtect | core/src/main/java/io/mvnpm/esbuild/util/Archives.java:58-73 | an entry name is accepted only when the resolved, normalized path stays under the target; a refusal reads "Bad entry: <name>" |
| Archives.SlipProtectSound | core/src/main/java/io/mvnpm/esbuild/util/Archives.java:58-73 | an accepted path is under the target and already normal |
| Archives.PlainNameAccepted | core/src/main/java/io/mvnpm/esbuild/util/Archives.java:63-72 | a relative name without "." or ".." components lands at the target followed by its names |
| Archives.ClimbingNameRefused | core/src/main/java/io/mvnpm/esbuild/util/Archives.java:58-70 | a relative name that starts with ".." and does not come back into the target is refused |
| Archives.CreateDirectories | core/src/main/java/io/mvnpm/esbuild/util/Archives.java:46 | creating directories succeeds exactly when no file lies on the path; every ancestor then is a directory, nothing else changes, and nothing is removed (also core/src/main/java/io/mvnpm/esbuild/util/Archives.java:50) |
| Archives.Copy | core/src/main/java/io/mvnpm/esbuild/util/Archives.java:54 | the copy succeeds exactly when the parent exists as a directory and the path is not a non-empty directory; then the path holds the entry's bytes and nothing else changes |
| Archives.ExtractEntry | core/src/main/java/io/mvnpm/esbuild/util/Archives.java:42-43 | an entry whose name escapes the target is refused before anything is written |
| Archives.ExtractEntryEffect | core/src/main/java/io/mvnpm/esbuild/util/Archives.java:42-56 | a successful entry changes only its own path and its ancestors, removes nothing, leaves a directory for a directory entry and the entry's bytes for a file entry |
| Archives.ExtractAll | core/src/main/java/io/mvnpm/esbuild/util/Archives.java:18-40 | no entries change nothing, and extraction never removes a path |
| Archives.ExtractAllAppend | core/src/main/java/io/mvnpm/esbuild/util/Archives.java:23-25 | entries are extracted in archive order, stopping at the first failure with the earlier entries kept (also core/src/main/java/io/mvnpm/esbuild/util/Archives.java:35-37) |
| Archives.ExtractAllConfined | core/src/main/java/io/mvnpm/esbuild/util/Archives.java:18-73 | whatever an archive does, every path it changes is under the target or an ancestor of it, and every file it writes is under the target |
| Archives.FileOnlyAtEntry | core/src/main/java/io/mvnpm/esbuild/util/Archives.java:42-56 | one entry writes a file only under the target |
| BreadthFirst.UnderIsResolve | src/main/java/io/mvnpm/esbuild/util/JarInspector.java:50 | resolving a plain file name against a directory appends that one name (also src/main/java/io/mvnpm/esbuild/util/JarInspector.java:52) |
| BreadthFirst.LeTotal | src/main/java/io/mvnpm/esbuild/util/JarInspector.java:60 | the order children are listed in is total |
| BreadthFirst.LeTrans | src/main/java/io/mvnpm/esbuild/util/JarInspector.java:60 | it is transitive |
| BreadthFirst.LeAntisymmetric | src/main/java/io/mvnpm/esbuild/util/JarInspector.java:60 | it is antisymmetric, so sorting is unambiguous |
| BreadthFirst.SortNamesSorted | src/main/java/io/mvnpm/esbuild/util/JarInspector.java:60 | sorting the children's names keeps exactly the same names, without repeats, in strictly increasing order |
| BreadthFirst.SubdirsListing | src/main/java/io/mvnpm/esbuild/util/JarInspector.java:59-60 | the children queued from a directory are exactly its child directories, symbolic links excluded, in sorted order without repeats |
| BreadthFirst.NextLevelAppend | src/main/java/io/mvnpm/esbuild/util/JarInspector.java:48-64 | the children queued for a run of directories are those of each directory in turn |
| BreadthFirst.NextLevelDirs | src/main/java/io/mvnpm/esbuild/util/JarInspector.java:60 | everything queued is a real directory, never a link |
| BreadthFirst.NextLevelDepth | src/main/java/io/mvnpm/esbuild/util/JarInspector.java:60 | children are one level deeper than their parents |
| BreadthFirst.LevelsNext | src/main/java/io/mvnpm/esbuild/util/JarInspector.java:45-64 | visiting a level and everything below it queues exactly the levels below it |
| BreadthFirst.OrderFixpoint | src/main/java/io/mvnpm/esbuild/util/JarInspector.java:45-64 | the visiting order is the root followed by the children queued from the visiting order itself, which is what the first-in first-out queue produces |
| BreadthFirst.OrderSkipsLinks | src/main/java/io/mvnpm/esbuild/util/JarInspector.java:60 | every directory visited after the root is a real directory |
| BreadthFirst.OrderClosed | src/main/java/io/mvnpm/esbuild/util/JarInspector.java:59-60 | every child directory of a visited directory is visited |
| BreadthFirst.OrderByDepth | src/main/java/io/mvnpm/esbuild/util/JarInspector.java:45-64 | directories are visited in order of depth: breadth first |
| BreadthFirst.Matches | src/main/java/io/mvnpm/esbuild/util/JarInspector.java:50-58 | every match found is a regular file, at most one per visited directory |
| BreadthFirst.MatchesAppend | src/main/java/io/mvnpm/esbuild/util/JarInspector.java:48-58 | matches are collected directory by directory, in visiting order |
| BreadthFirst.MatchesFirst | src/main/java/io/mvnpm/esbuild/util/JarInspector.java:50-58 | there is no match exactly when no visited directory holds the file; otherwise the first match is in the first directory that does |
| BreadthFirst.FindFirstIsEarliest | src/main/java/io/mvnpm/esbuild/util/JarInspector.java:33-39 | the single search finds nothing exactly when no visited directory holds the file, and otherwise the file in the earliest one that does (also src/main/java/io/mvnpm/esbuild/util/JarInspector.java:53-56) |
| BreadthFirst.RootCheckedFirst | src/main/java/io/mvnpm/esbuild/util/JarInspector.java:47-50 | a file in the root itself is found before anything below it |
| BreadthFirst.QueueExhausted | src/main/java/io/mvnpm/esbuild/util/JarInspector.java:48 | when the queue runs dry, every directory of the visiting order has been visited |
| BreadthFirst.QueuedIsPrefix | src/main/java/io/mvnpm/esbuild/util/JarInspector.java:46-47 | what has been visited plus what is queued is always a prefix of the visiting order (also src/main/java/io/mvnpm/esbuild/util/JarInspector.java:60) |
| BreadthFirst.VisitStep | src/main/java/io/mvnpm/esbuild/util/JarInspector.java:48-49 | polling the queue takes the next directory of the visiting order and queues its sorted child directories (also src/main/java/io/mvnpm/esbuild/util/JarInspector.java:59-60) |
| BreadthFirst.MatchesStep | src/main/java/io/mvnpm/esbuild/util/JarInspector.java:50-54 | visiting one more directory adds its match, if it has one |
| BreadthFirst.FirstMatchFound | src/main/java/io/mvnpm/esbuild/util/JarInspector.java:55-56 | the first directory holding the file gives the first match |
| BreadthFirst.FindAny | src/main/java/io/mvnpm/esbuild/util/JarInspector.java:41-66 | a root that is not a directory gives nothing; with multiple, every match in breadth-first order; otherwise only the first match, or nothing |
| BreadthFirst.FindPackageJsons | src/main/java/io/mvnpm/esbuild/util/JarInspector.java:22 | package.json files, all or the first, in breadth-first order (also src/main/java/io/mvnpm/esbuild/util/JarInspector.java:25-27) |
| BreadthFirst.FindPomProperties | src/main/java/io/mvnpm/esbuild/util/JarInspector.java:23 | the first pom.properties in breadth-first order, if any (also src/main/java/io/mvnpm/esbuild/util/JarInspector.java:29-39) |
| BreadthFirst.FindPackageJson | src/main/java/io/mvnpm/esbuild/util/PackageJson.java:22-45 | no package.json when the start is not a directory; otherwise the first one in breadth-first order, if any (also src/main/java/ch/nerdin/esbuild/util/PackageJson.java:27-50) |

## Left out

- Asynchrony in the Tailwind plugin: each `generate` call is one sequential step, as the plugin assumes when it never runs two calls for the same file at once. The un-awaited `onDependency` promise is taken to complete inside the call.
- Tailwind library calls (`compile`, `Scanner`, `optimize`, `toSourceMap`, `clearRequireCache`, the instrumentation and DEBUG timing): these are oracles, because their behaviour belongs to the Tailwind library. `compile`, `new Scanner`, `scan`, `build` and `optimize` may throw and are modelled with that outcome; `toSourceMap` and `buildSourceMap` are not, because source maps are off in the plugin's roots. mtimes are natural numbers rather than JavaScript floats.
- Process handling in `DenoRunner`: starting the process, timeouts, shutdown hooks, the reader thread and `logAll`. `waitForResult` and `waitForExit` are modelled over the list of lines read and the exit code. The rendering of the script template (`formatScript`, `supportsColor`) is left out: it is text substitution through `String.formatted`.
- `ScriptLog.logAll` and `LogMessage.toString`'s logging: they write to the logger only.
- Byte formats: reading zip and gzipped tar streams, and copying bytes in `Archives` and in the tar loop of `Resolvers.extract` (Resolvers.java:117-168). A file's bytes are carried unread, and `extract` takes the extraction's outcome as a parameter. The conversion of tar mode bits to POSIX permissions is modelled.
- Downloads: fetching a URL, `CacheResolver`/`BundledResolver` fallback chains and the other generations' download classes. Only URL and path naming is modelled.
- WebDepsInstallers.Install: an `IOException` from `Archives.unzip` (including the "Bad entry" refusal of `Archives.SlipProtect`), `createDirectories` or `safeMove` (WebDepsInstaller.java:63, 84-85) aborts the install. By then node_modules may already have been wiped (WebDepsInstaller.java:41), earlier dependencies moved in, and no record file written (WebDepsInstaller.java:108). The model has no aborted outcome: it describes an install in which every unzip and move succeeds. Threading a failure through the loop would put a precondition on every installer property.
- LegacyWebDepsInstallers.LegacyInstall: likewise, an `IOException` from the legacy unzip or move aborts midway with no record file written, and the model describes only the install in which none is thrown.
- EsBuildConfigBuilders.AddExternal: the builder keeps the list it is given by reference (EsBuildConfigBuilder.java:237-239), and `addExternal` appends to it in place (EsBuildConfigBuilder.java:232-234). The model's lists are values, so two behaviours are not modelled. After `external(List.of(...))` the append throws `UnsupportedOperationException`. After `external(myList)`, or once `build()` has shared the list with the record, the append also changes the caller's or the record's list.
- Resolvers.Extract: the paths the tar loop writes are given already resolved. How `new File(destination, name)` resolves a name with ".." to a path outside the destination is not computed; the model only keeps such written paths wherever they lie.
- File-system effects inside the installer: `deleteRecursive`, `safeMove`, the unpacking of an mvnpm `.more.tgz` archive, and `JarInspector.findPackageNameAndRoot`. The last becomes the oracle `found`. The temporary extraction directory is shown to be separate from the record file. Its deletion is not modelled, because it holds no package.
- `HashSet` and `HashMap` iteration order: the installer's record set is a sequence in insertion order without duplicates, and the package map's order is the order `found` gives. The order of `Properties.forEach` in `BuildDependency` is the given order of the entries.
- JSON parsing and printing (Jackson, org.json): `toJson` is modelled as the ordered key-value object it produces, not as text, and package.json files are modelled as maps from field to value.
- Writing entry point files and copying sources (`createEntryPoint`, `copyEntries`, `FileEntryPoint`): the model computes the content that is written and the path it is written to.
- `AutoEntryPoint`'s constructor checks for null `name`, `rootDir` and `sources`: Dafny values are never null.
- `Bundler.bundle` and `Bundler.dev` after `getBundling`: the esbuild run, the check that the output directory exists, and the dev process. These are process and file-system effects.
- Qute templating, Maven and Gradle plugins, the `ch.nerdin` and `io.quarkus` bundlers and installers, the plugin records, the JavaScript glue and the test support code: these are I/O plumbing or thin records with no decision logic of their own.
- Java regular expressions: each pattern used (`GAV_PATTERN`, the plugin name pattern, the log-line pattern, `replaceAll` of a literal) is encoded directly as a Dafny function.
- Case mapping: `toLowerCase` and `toUpperCase` are modelled for ASCII letters only, as under a default locale without the Turkic rules. Under a Turkish or Azerbaijani default locale Java maps 'I' to dotless 'ı' and 'i' to dotted 'İ', so the IIFE format would be written "ııfe", the FILE and BINARY loaders "fıle" and "bınary", and a "[info]" tag would not name a level, leaving the whole line at INFO. The model does not cover those locales.
- ScriptLogs.ClassifyTagged: the tag is upper-cased in ASCII before it is read as a level, so the Turkic-locale failure of "[info]" described above is not modelled.
- Paths: `java.nio.file.Path` is modelled for Unix-style separators only. The process directory is a parameter.
- NodePaths.DirName: the path is normalized before its parent is taken, so repeated slashes collapse ("a//b" gives "a", where Node gives "a/"). The paths the plugin passes come from esbuild and from `path.resolve`, which are already normalized.
- BreadthFirst.SortNamesSorted: children are ordered by code point. Java compares Unix paths by their bytes as unsigned values, which is the same order for names encoded in UTF-8; a file system whose names use another encoding is not modelled.
- BreadthFirst: the contents behind a symbolic link are not modelled, because the search never descends into one.
- Archives.Copy: the root and the process directory count as non-empty directories, so a file entry that names either is refused, as `Files.copy` refuses to replace a non-empty directory.
- BuildDependencies.Of: the property value must not contain "$" or "\", because `replaceAll` gives those characters a special meaning in its replacement text. Values with them are not modelled.
- EsBuildDeps.ExtractGavJarText: this round trip is stated for paths without a second "org/mvnpm" pair inside the group directories. For such a pair the greedy pattern picks the later start; ExtractGavSound still covers what is accepted.
- Resolvers.RegistryUrlNamesPackage: this is stated for versions without the letters "w" and "m". The renaming of "windows" and "macos" runs over the whole URL, and a version holding those words could be rewritten too.
- LegacyWebDepsInstallers: that a second install of the same list changes nothing is proved for the current installer only (WebDepsInstallers.ReinstallUnchanged).

## Findings

| source | as written | input that shows it | evidently intended | confidence | as-written member | corrected member |
|---|---|---|---|---|---|---|
| plugin-tailwind/plugin/src/main/resources/esbuild-plugin-tailwind.js:120-131 | the dependency map is cleared and re-stated before `compile`; when `compile` throws, the old compiler and scanner stay in place | a cached root whose input changed from mtime 1 to 2 and whose new content fails to compile: the first call fails, and the second call finds the map fresh and answers with the previous content's CSS | a failed rebuild is never answered from the old handles; the next call compiles again | medium, not executed | Tailwind.AsWrittenServesStaleCss | Tailwind.FailureIsNotCached |
| core/src/main/java/io/mvnpm/esbuild/model/EsBuildConfigBuilder.java:152-155 | `alias(key, value)` puts the entry into the `define` map | `alias("react", "preact")` renders as `--define:react=preact` | it renders as `--alias:react=preact` and leaves `define` alone | high, not executed | EsBuildConfigBuilders.AliasAsWrittenFlags | EsBuildConfigBuilders.AliasFlags |
| src/main/java/ch/nerdin/esbuild/Config.java:198-199, src/main/java/ch/nerdin/esbuild/Config.java:214-221 | a map field renders as one argument, with all `key=value` pairs glued together | a loader map `.js` → `jsx`, `.css` → `css` renders as the single argument `--loader:.js=jsx.css=css` | one `--loader:<key>=<value>` argument per entry | high, not executed | NerdinConfigs.LoaderEntriesGlued | NerdinConfigs.FixedLoaderFlags |
| src/main/java/ch/nerdin/esbuild/Config.java:202-203 | every scalar value is lowercased, the output directory included | output directory `/tmp/Web` renders as `--outdir=/tmp/web` | paths keep their case, as the later generations do for `outdir` | high, not executed | NerdinConfigs.OutDirLowered | NerdinConfigs.FixedOutDirKept |
| src/main/java/io/mvnpm/esbuild/install/WebDepsInstaller.java:83-91 | every directory of an old record missing from the new set is deleted, even when a new record has just installed it | a version bump `g:a:1` → `g:a:2` whose package directory keeps its name: the directory is deleted, while the new record file lists it | only directories no new record lists are deleted (the rule the current installer follows) | high, not executed | LegacyWebDepsInstallers.LegacyVersionBumpLosesPackage | LegacyWebDepsInstallers.VersionBumpKeepsPackage |
| core/src/main/java/io/mvnpm/esbuild/model/AutoEntryPoint.java:103-105, core/src/main/java/io/mvnpm/esbuild/model/AutoEntryPoint.java:124-128 | a file name without a dot has the whole name as its extension, and the script line cuts the path at its last dot | a source named `js` is taken for a script and cutting its path fails; a source `a.b/ts` is exported from `./a` | a dotless file name has no extension and is imported by its path | medium, not executed | AutoEntryPoints.DotlessScriptNameAsWritten | AutoEntryPoints.DotlessSourceIsImported |
