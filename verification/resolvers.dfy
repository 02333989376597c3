/** Locating and unpacking the esbuild executable: the tarball's name, the
    executable's place inside an unpacked bundle, the POSIX permissions an
    unpacked file receives, the download URL, and the download-then-extract
    sequence with its clean-up. The legacy `BaseResolver` conventions close
    the module. */
module Resolvers {
  import opened Wrappers
  import opened Strings
  import opened JPaths
  import opened Platforms

  // ---------------------------------------------------------------------
  // Tarball names

  /** What precedes the version in the tarball name: mvnpm repackagings
      carry an "esbuild-" prefix. */
  function TgzPrefix(c: Classifier, mvnpm: bool): string {
    if mvnpm then "/esbuild-" + ClassifierText(c) + "-" else "/" + ClassifierText(c) + "-"
  }

  /** `getTgzPath`: "/esbuild-<cls>-<ver>.tgz" for a version mentioning
      "mvnpm", "/<cls>-<ver>.tgz" otherwise. */
  function TgzPath(c: Classifier, version: string): (r: string)
    ensures EndsWith(r, "-" + version + ".tgz")
  {
    var r := TgzPrefix(c, Contains(version, "mvnpm")) + version + ".tgz";
    assert r[|r| - |version| - 5..] == "-" + version + ".tgz";
    r
  }

  /** Only mvnpm versions get the "esbuild-" prefix. */
  lemma TgzPathMvnpm(c: Classifier, version: string)
    ensures Strings.StartsWith(TgzPath(c, version), "/esbuild-" + ClassifierText(c) + "-") <==> Contains(version, "mvnpm")
  {
    var s := TgzPath(c, version);
    if !Contains(version, "mvnpm") {
      assert s[1] == ClassifierText(c)[0] == OsText(c.os)[0] != 'e';
    }
  }

  /** The version back from a tarball name. */
  function TgzVersion(c: Classifier, mvnpm: bool, path: string): string
    requires |TgzPrefix(c, mvnpm)| + 4 <= |path|
  {
    path[|TgzPrefix(c, mvnpm)|..|path| - 4]
  }

  lemma TgzVersionRoundTrip(c: Classifier, version: string)
    ensures |TgzPrefix(c, Contains(version, "mvnpm"))| + 4 <= |TgzPath(c, version)|
    ensures TgzVersion(c, Contains(version, "mvnpm"), TgzPath(c, version)) == version
  {
  }

  // ---------------------------------------------------------------------
  // The executable inside a bundle

  /** A directory's descendant by name elements. */
  function Child(dir: JPath, names: seq<string>): (r: JPath)
    ensures r.absolute == dir.absolute && r.names == dir.names + names
  {
    Resolve(dir, JPath(false, names))
  }

  function WithExe(name: string, windows: bool): string {
    if windows then name + ".exe" else name
  }

  /** `resolveExecutablePath`: "package/bin/esbuild" when the bundle has a
      "package/bin" directory, the legacy "package/esbuild" otherwise, with
      ".exe" on Windows. */
  function ExecutablePath(bundleDir: JPath, hasBinDir: bool, windows: bool): (r: JPath)
    ensures r.absolute == bundleDir.absolute
    ensures |r.names| == |bundleDir.names| + (if hasBinDir then 3 else 2)
    ensures r.names[..|bundleDir.names|] == bundleDir.names
    ensures r.names[|bundleDir.names|] == "package"
    ensures hasBinDir <==> r.names[|bundleDir.names| + 1] == "bin"
    ensures r.names[|r.names| - 1] == WithExe("esbuild", windows)
  {
    var r := Child(bundleDir, (if hasBinDir then ["package", "bin"] else ["package"]) + [WithExe("esbuild", windows)]);
    assert !hasBinDir ==> r.names[|bundleDir.names| + 1] == WithExe("esbuild", windows) != "bin";
    r
  }

  /** `resolveSassExecutablePath`: "dart-sass/sass", ".bat" on Windows. */
  function SassPath(bundleDir: JPath, windows: bool): (r: JPath)
    ensures |r.names| == |bundleDir.names| + 2 && r.names[..|bundleDir.names|] == bundleDir.names
  {
    Child(bundleDir, ["dart-sass", if windows then "sass.bat" else "sass"])
  }

  /** What the resolvers can observe of the file system. */
  datatype Files = Files(dirs: set<JPath>, executables: set<JPath>, regular: set<JPath>)

  /** `getExecutablePath`: the executable when it is executable and, for an
      mvnpm bundle (whose directory name mentions "-mvnpm-"), the Sass
      executable next to it is executable too. */
  function GetExecutablePath(fs: Files, bundleDir: JPath, windows: bool): (r: Option<JPath>)
    ensures r.Some? ==> r.value in fs.executables
    ensures r.Some? ==> |r.value.names| > |bundleDir.names| && r.value.names[..|bundleDir.names|] == bundleDir.names
    ensures r.Some? && Contains(Show(bundleDir), "-mvnpm-") ==> SassPath(bundleDir, windows) in fs.executables
    ensures r.None? <==>
      ExecutablePath(bundleDir, Child(bundleDir, ["package", "bin"]) in fs.dirs, windows) !in fs.executables
      || (Contains(Show(bundleDir), "-mvnpm-") && SassPath(bundleDir, windows) !in fs.executables)
  {
    var path := ExecutablePath(bundleDir, Child(bundleDir, ["package", "bin"]) in fs.dirs, windows);
    if path !in fs.executables then None
    else if Contains(Show(bundleDir), "-mvnpm-") && SassPath(bundleDir, windows) !in fs.executables then None
    else Some(path)
  }

  /** `requireExecutablePath`: an `IOException` exactly when there is no
      usable executable. */
  function RequireExecutablePath(fs: Files, bundleDir: JPath, windows: bool): (r: Result<JPath>)
    ensures r.Err? <==> GetExecutablePath(fs, bundleDir, windows).None?
    ensures r.Ok? ==> r.value in fs.executables
    ensures r.Err? ==> r.error == "Invalid esbuild executable in: " + Show(bundleDir)
  {
    match GetExecutablePath(fs, bundleDir, windows)
    case Some(p) => Ok(p)
    case None => Err("Invalid esbuild executable in: " + Show(bundleDir))
  }

  // ---------------------------------------------------------------------
  // POSIX permissions from a tar mode

  /** `java.nio.file.attribute.PosixFilePermission`, in declaration order. */
  datatype Permission =
    | OwnerRead | OwnerWrite | OwnerExecute
    | GroupRead | GroupWrite | GroupExecute
    | OthersRead | OthersWrite | OthersExecute

  const AllPermissions: set<Permission> :=
    {OwnerRead, OwnerWrite, OwnerExecute, GroupRead, GroupWrite, GroupExecute,
     OthersRead, OthersWrite, OthersExecute}

  /** The tar mode is a Java `int`. */
  type JavaInt = bv32

  /** The `<sys/stat.h>` bit of each permission (POSIX.1-2017, XBD chapter
      13): S_IRUSR 0400 down to S_IXOTH 0001. */
  function ModeBit(p: Permission): JavaInt {
    match p
    case OwnerRead => 0x100
    case OwnerWrite => 0x80
    case OwnerExecute => 0x40
    case GroupRead => 0x20
    case GroupWrite => 0x10
    case GroupExecute => 0x8
    case OthersRead => 0x4
    case OthersWrite => 0x2
    case OthersExecute => 0x1
  }

  /** The mode has the permission's bit set. */
  predicate Has(mode: JavaInt, p: Permission) {
    mode & ModeBit(p) != 0
  }

  /** The permissions a mode grants. */
  function Granted(mode: JavaInt): set<Permission> {
    set p | p in AllPermissions && Has(mode, p)
  }

  /** The declaration index of each permission. */
  function IndexOf(p: Permission): (i: nat)
    ensures i < 9
  {
    match p
    case OwnerRead => 0
    case OwnerWrite => 1
    case OwnerExecute => 2
    case GroupRead => 3
    case GroupWrite => 4
    case GroupExecute => 5
    case OthersRead => 6
    case OthersWrite => 7
    case OthersExecute => 8
  }

  /** `getPermissionForIndex`: defined on 0..8, an
      `IllegalArgumentException` elsewhere. */
  function PermissionForIndex(index: int): (r: Result<Permission>)
    ensures r.Ok? <==> 0 <= index < 9
    ensures r.Ok? ==> IndexOf(r.value) == index
    ensures r.Err? ==> r.error == "Invalid index: " + IntToString(index)
  {
    match index
    case 0 => Ok(OwnerRead)
    case 1 => Ok(OwnerWrite)
    case 2 => Ok(OwnerExecute)
    case 3 => Ok(GroupRead)
    case 4 => Ok(GroupWrite)
    case 5 => Ok(GroupExecute)
    case 6 => Ok(OthersRead)
    case 7 => Ok(OthersWrite)
    case 8 => Ok(OthersExecute)
    case _ => Err("Invalid index: " + IntToString(index))
  }

  lemma PermissionIndexRoundTrip(p: Permission)
    ensures PermissionForIndex(IndexOf(p)) == Ok(p)
  {
  }

  /** Index `i` tests bit `8 - i`, which is the permission's POSIX bit. */
  lemma MaskIsModeBit(i: nat)
    requires i < 9
    ensures PermissionForIndex(i).Ok?
    ensures (1 as JavaInt) << (8 - i) == ModeBit(PermissionForIndex(i).value)
  {
  }

  /** The permissions below index `i` whose bit is clear. */
  function Dropped(mode: JavaInt, i: nat): set<Permission> {
    set p | p in AllPermissions && IndexOf(p) < i && !Has(mode, p)
  }

  lemma DroppedStep(mode: JavaInt, i: nat)
    requires i < 9
    ensures PermissionForIndex(i).Ok?
    ensures Dropped(mode, i + 1)
      == Dropped(mode, i) + (if Has(mode, PermissionForIndex(i).value) then {} else {PermissionForIndex(i).value})
  {
  }

  lemma DroppedAll(mode: JavaInt)
    ensures AllPermissions - Dropped(mode, 9) == Granted(mode)
  {
  }

  /** `convertModeToPosixFilePermissions`: start from every permission and
      drop permission `i` when bit `8 - i` of the mode is clear. */
  method ModeToPermissions(mode: JavaInt) returns (permissions: set<Permission>)
    ensures permissions == Granted(mode)
  {
    permissions := AllPermissions;
    var i := 0;
    while i < 9
      invariant 0 <= i <= 9
      invariant permissions == AllPermissions - Dropped(mode, i)
    {
      var mask: JavaInt := 1 << (8 - i);
      MaskIsModeBit(i);
      DroppedStep(mode, i);
      if mode & mask == 0 {
        var p := PermissionForIndex(i).value;
        permissions := permissions - {p};
      }
      i := i + 1;
    }
    DroppedAll(mode);
  }

  /** Bits above the nine permission bits play no part. */
  lemma HigherBitsIgnored(mode: JavaInt)
    ensures Granted(mode) == Granted(mode & 0x1FF)
  {
    forall p | p in AllPermissions ensures Has(mode, p) <==> Has(mode & 0x1FF, p) {
      HasLow(mode, p);
    }
  }

  lemma HasLow(mode: JavaInt, p: Permission)
    ensures Has(mode, p) <==> Has(mode & 0x1FF, p)
  {
    match p
    case OwnerRead =>
    case OwnerWrite =>
    case OwnerExecute =>
    case GroupRead =>
    case GroupWrite =>
    case GroupExecute =>
    case OthersRead =>
    case OthersWrite =>
    case OthersExecute =>
  }

  /** The mode whose bits are exactly the given permissions. */
  function ModeOf(ps: set<Permission>): JavaInt {
    (if OwnerRead in ps then 0x100 else 0)
    | (if OwnerWrite in ps then 0x80 else 0)
    | (if OwnerExecute in ps then 0x40 else 0)
    | (if GroupRead in ps then 0x20 else 0)
    | (if GroupWrite in ps then 0x10 else 0)
    | (if GroupExecute in ps then 0x8 else 0)
    | (if OthersRead in ps then 0x4 else 0)
    | (if OthersWrite in ps then 0x2 else 0)
    | (if OthersExecute in ps then 0x1 else 0)
  }

  lemma ModeOfHas(ps: set<Permission>, p: Permission)
    ensures Has(ModeOf(ps), p) <==> p in ps
  {
    match p
    case OwnerRead =>
    case OwnerWrite =>
    case OwnerExecute =>
    case GroupRead =>
    case GroupWrite =>
    case GroupExecute =>
    case OthersRead =>
    case OthersWrite =>
    case OthersExecute =>
  }

  /** Writing a permission set as a mode and reading it back loses nothing. */
  lemma ModeRoundTrip(ps: set<Permission>)
    ensures Granted(ModeOf(ps)) == ps * AllPermissions
  {
    forall p | p in AllPermissions ensures Has(ModeOf(ps), p) <==> p in ps {
      ModeOfHas(ps, p);
    }
  }

  // ---------------------------------------------------------------------
  // The download URL

  const RegistryPrefix := "https://registry.npmjs.org/@esbuild/"
  const ReleasePrefix := "https://github.com/mvnpm/esbuild/releases/download/v"

  /** The text after the last "-" of an mvnpm version: the release tag. */
  function ReleaseTag(version: string): (t: string)
    ensures '-' !in t && EndsWith(version, t)
    ensures |t| < |version| ==> version[|version| - |t| - 1] == '-'
  {
    version[LastIndexOf(version, '-') + 1..]
  }

  /** `getDownloadUrl`: a GitHub release asset for an mvnpm version, the npm
      registry tarball otherwise, with every "windows" and then every
      "macos" of the registry URL renamed to npm's "win32" and "darwin". */
  function DownloadUrl(c: Classifier, version: string): string {
    var tgz := TgzPath(c, version);
    if Contains(version, "mvnpm") then ReleasePrefix + ReleaseTag(version) + tgz
    else Replace(Replace(RegistryPrefix + ClassifierText(c) + "/-" + tgz, "windows", "win32"), "macos", "darwin")
  }

  /** The pieces of a registry URL. */
  function UrlPieces(prefix: string, os: string, arch: string, version: string): seq<string> {
    [prefix, os, arch, "/-/", os, arch, "-", version, ".tgz"]
  }

  /** A registry URL assembled from its pieces. */
  function RegistryUrl(prefix: string, os: string, arch: string, version: string): string {
    prefix + os + arch + "/-/" + os + arch + "-" + version + ".tgz"
  }

  lemma UrlPiecesConcat(prefix: string, os: string, arch: string, version: string)
    ensures Concat(UrlPieces(prefix, os, arch, version)) == RegistryUrl(prefix, os, arch, version)
  {
    ConcatNine(prefix, os, arch, "/-/", os, arch, "-", version, ".tgz");
  }

  /** Nine pieces joined are the pieces concatenated left to right. */
  lemma ConcatNine(a: string, b: string, c: string, d: string, e: string,
                   f: string, g: string, h: string, i: string)
    ensures Concat([a, b, c, d, e, f, g, h, i]) == a + b + c + d + e + f + g + h + i
  {
    calc {
      Concat([a, b, c, d, e, f, g, h, i]);
      { assert [a, b, c, d, e, f, g, h] + [i] == [a, b, c, d, e, f, g, h, i]; ConcatSnoc([a, b, c, d, e, f, g, h], i); }
      Concat([a, b, c, d, e, f, g, h]) + i;
      { assert [a, b, c, d, e, f, g] + [h] == [a, b, c, d, e, f, g, h]; ConcatSnoc([a, b, c, d, e, f, g], h); }
      Concat([a, b, c, d, e, f, g]) + h + i;
      { assert [a, b, c, d, e, f] + [g] == [a, b, c, d, e, f, g]; ConcatSnoc([a, b, c, d, e, f], g); }
      Concat([a, b, c, d, e, f]) + g + h + i;
      { assert [a, b, c, d, e] + [f] == [a, b, c, d, e, f]; ConcatSnoc([a, b, c, d, e], f); }
      Concat([a, b, c, d, e]) + f + g + h + i;
      { assert [a, b, c, d] + [e] == [a, b, c, d, e]; ConcatSnoc([a, b, c, d], e); }
      Concat([a, b, c, d]) + e + f + g + h + i;
      { assert [a, b, c] + [d] == [a, b, c, d]; ConcatSnoc([a, b, c], d); }
      Concat([a, b, c]) + d + e + f + g + h + i;
      { assert [a, b] + [c] == [a, b, c]; ConcatSnoc([a, b], c); }
      Concat([a, b]) + c + d + e + f + g + h + i;
      { assert [a] + [b] == [a, b]; ConcatSnoc([a], b); }
      Concat([a]) + b + c + d + e + f + g + h + i;
      { assert Concat([a]) == a + Concat([]); }
      a + b + c + d + e + f + g + h + i;
    }
  }

  lemma ConcatSnoc(ps: seq<string>, x: string)
    ensures Concat(ps + [x]) == Concat(ps) + x
  {
    ConcatAppend(ps, [x]);
    assert Concat([x]) == x + Concat([]);
  }

  /** `s` is renamed to `t` and does not start an occurrence that straddles
      into what follows. */
  predicate Renames(s: string, pat: string, rep: string, t: string)
    requires |pat| > 0
  {
    NoOverhang(s, pat) && Replace(s, pat, rep) == t
  }

  /** One renaming pass over a registry URL renames its pieces separately. */
  lemma RenamePass(prefix: string, os: string, arch: string, version: string,
                   pat: string, rep: string, prefix': string, os': string, arch': string)
    requires |pat| > 0
    requires Renames(prefix, pat, rep, prefix') && Renames(os, pat, rep, os') && Renames(arch, pat, rep, arch')
    requires Renames("/-/", pat, rep, "/-/") && Renames("-", pat, rep, "-")
    requires Renames(version, pat, rep, version) && Renames(".tgz", pat, rep, ".tgz")
    ensures Replace(RegistryUrl(prefix, os, arch, version), pat, rep) == RegistryUrl(prefix', os', arch', version)
  {
    var ps := UrlPieces(prefix, os, arch, version);
    var qs := UrlPieces(prefix', os', arch', version);
    forall i | 0 <= i < |ps|
      ensures Renames(ps[i], pat, rep, qs[i])
    {
    }
    RenamesEach(ps, pat, rep, qs);
    UrlPiecesConcat(prefix, os, arch, version);
    UrlPiecesConcat(prefix', os', arch', version);
  }

  /** Pieces each renamed on their own, none overhanging, are renamed
      together. */
  lemma RenamesEach(ps: seq<string>, pat: string, rep: string, qs: seq<string>)
    requires |pat| > 0 && |ps| == |qs|
    requires forall i :: 0 <= i < |ps| ==> Renames(ps[i], pat, rep, qs[i])
    ensures Replace(Concat(ps), pat, rep) == Concat(qs)
  {
    ReplacePieces(ps, pat, rep);
    assert ReplaceEach(ps, pat, rep) == qs;
  }

  lemma PrefixNoWindows()
    ensures Renames(RegistryPrefix, "windows", "win32", RegistryPrefix)
  {
    Inert(RegistryPrefix, "windows", "win32");
  }

  lemma PrefixNoMacos()
    ensures Renames(RegistryPrefix, "macos", "darwin", RegistryPrefix)
  {
    NoOverhangByFirst(RegistryPrefix, "macos");
    AbsentByPair(RegistryPrefix, "macos");
    ReplaceAbsent(RegistryPrefix, "macos", "darwin");
  }

  /** The short literal pieces hold neither "w" nor "m". */
  lemma SeparatorsInert(pat: string, rep: string)
    requires pat == "windows" || pat == "macos"
    ensures Renames("/-/", pat, rep, "/-/") && Renames("-", pat, rep, "-") && Renames(".tgz", pat, rep, ".tgz")
  {
    Inert("/-/", pat, rep);
    Inert("-", pat, rep);
    Inert(".tgz", pat, rep);
  }

  lemma WindowsRenamed()
    ensures Renames("windows", "windows", "win32", "win32")
  {
    NoOverhangByPair("windows", "windows");
  }

  /** The first pass renames only the Windows operating system. */
  lemma OsFirstPass(os: Os)
    ensures Renames(OsText(os), "windows", "win32", if os == Windows then "win32" else OsText(os))
  {
    if os == Windows {
      WindowsRenamed();
    } else {
      Inert(OsText(os), "windows", "win32");
    }
  }

  /** The second pass renames macOS; what the first pass left is npm's
      name. */
  lemma OsSecondPass(os: Os)
    ensures Renames(if os == Windows then "win32" else OsText(os), "macos", "darwin", NpmOsText(os))
  {
    if os == Macos {
      var t := OsText(os);
      NoOverhangByFirst(t, "macos");
      assert t[..5] == "macos" && t[5..] == [];
    } else {
      Inert(if os == Windows then "win32" else OsText(os), "macos", "darwin");
    }
  }

  lemma ArchUnrenamed(arch: Arch)
    ensures Renames(ArchText(arch), "windows", "win32", ArchText(arch))
    ensures Renames(ArchText(arch), "macos", "darwin", ArchText(arch))
  {
    var t := ArchText(arch);
    Inert(t, "windows", "win32");
    NoOverhangByPair(t, "macos");
    AbsentByPair(t, "macos");
    ReplaceAbsent(t, "macos", "darwin");
  }

  /** The registry URL of an ordinary version (one without the letters "w"
      and "m", which also rules out "mvnpm") names the platform's npm
      package, both as directory and as tarball. */
  lemma RegistryUrlNamesPackage(c: Classifier, version: string)
    requires 'w' !in version && 'm' !in version
    ensures DownloadUrl(c, version) == RegistryUrl(RegistryPrefix, NpmOsText(c.os), ArchText(c.arch), version)
  {
    AbsentByFirst(version, "mvnpm");
    var os := OsText(c.os);
    var arch := ArchText(c.arch);
    assert RegistryPrefix + ClassifierText(c) + "/-" + TgzPath(c, version)
      == RegistryUrl(RegistryPrefix, os, arch, version);
    var once := if c.os == Windows then "win32" else os;
    PrefixNoWindows();
    PrefixNoMacos();
    OsFirstPass(c.os);
    OsSecondPass(c.os);
    ArchUnrenamed(c.arch);
    SeparatorsInert("windows", "win32");
    SeparatorsInert("macos", "darwin");
    Inert(version, "windows", "win32");
    Inert(version, "macos", "darwin");
    RenamePass(RegistryPrefix, os, arch, version, "windows", "win32", RegistryPrefix, once, arch);
    RenamePass(RegistryPrefix, once, arch, version, "macos", "darwin", RegistryPrefix, NpmOsText(c.os), arch);
  }

  /** An mvnpm version downloads from the GitHub release named after the
      text behind its last "-". */
  lemma ReleaseUrl(c: Classifier, version: string)
    requires Contains(version, "mvnpm")
    ensures Strings.StartsWith(DownloadUrl(c, version), ReleasePrefix + ReleaseTag(version) + "/esbuild-")
    ensures EndsWith(DownloadUrl(c, version), "-" + version + ".tgz")
  {
    var tgz := TgzPath(c, version);
    var u := ReleasePrefix + ReleaseTag(version) + tgz;
    assert u[|u| - |tgz|..] == tgz;
    assert tgz[..|"/esbuild-"|] == "/esbuild-";
  }

  // ---------------------------------------------------------------------
  // Download and extract

  const TarName := "esbuild.tgz"

  /** How the transfer of the tarball goes when it is attempted: it
      completes, the URL cannot be opened (nothing is written), or it breaks
      off after the output file was opened (a partial tarball stays). */
  datatype Transfer = Complete | Unreachable | Interrupted

  /** What unpacking writes: the files of the entries written, and whether
      the archive was read to its end. A failed unpacking keeps what it
      wrote before failing. */
  datatype Extraction = Extraction(written: Files, complete: bool)

  /** `p` lies strictly below `dir`. */
  predicate Below(p: JPath, dir: JPath) {
    p.absolute == dir.absolute && |p.names| > |dir.names| && p.names[..|dir.names|] == dir.names
  }

  /** The files an extraction wrote, of either kind. */
  function Touched(written: Files): set<JPath> {
    written.regular + written.executables
  }

  /** Below `dir`, only the paths of `added`; elsewhere the paths of `before`
      not in `replaced`, and those of `added` too. */
  function Overlay(before: set<JPath>, added: set<JPath>, replaced: set<JPath>, dir: JPath): (r: set<JPath>)
    ensures forall p :: Below(p, dir) ==> (p in r <==> p in added)
    ensures forall p :: !Below(p, dir) ==> (p in r <==> p in added || (p in before && p !in replaced))
  {
    (set p | p in before && !Below(p, dir) && p !in replaced) + added
  }

  /** `Resolvers.extract`: the destination directory is deleted with
      everything below it and created again, then each entry is written to
      `new File(destination, name)`. Nothing keeps an entry name inside the
      destination, so `written` may hold paths elsewhere (a name with
      ".."): such a file replaces whatever was at its path. */
  function Unpacked(fs: Files, dest: JPath, written: Files): Files {
    Files(Overlay(fs.dirs, written.dirs, {}, dest) + {dest},
          Overlay(fs.executables, written.executables, Touched(written), dest),
          Overlay(fs.regular, written.regular, Touched(written), dest))
  }

  /** The tarball's path in the destination directory. */
  function TarPath(dest: JPath): (r: JPath)
    ensures Below(r, dest)
  {
    Child(dest, [TarName])
  }

  function DownloadFailure(version: string): string {
    "could not download esbuild with version " + version
  }

  function ResolveFailure(version: string): string {
    "could not resolve esbuild with version " + version
  }

  lemma FailuresDiffer(version: string)
    ensures DownloadFailure(version) != ResolveFailure(version)
  {
    assert DownloadFailure(version)[10] == 'd';
    assert ResolveFailure(version)[10] == 'r';
  }

  /** The extraction step of the download resolver, once the tarball is
      there: the entries are unpacked into the wiped destination; a failed
      extraction, or one without a usable executable, fails the resolve and
      deletes whatever is at the tarball's path. */
  function Extract(fs: Files, dest: JPath, version: string, windows: bool, unpack: Extraction): (r: (Result<JPath>, Files))
    ensures forall p :: !Below(p, dest) && p !in Touched(unpack.written) ==> (p in r.1.regular <==> p in fs.regular)
    ensures forall p :: !Below(p, dest) && p !in Touched(unpack.written) ==> (p in r.1.executables <==> p in fs.executables)
    ensures forall p :: !Below(p, dest) && p in unpack.written.regular ==> p in r.1.regular
    ensures forall p :: !Below(p, dest) && p in unpack.written.executables ==> p in r.1.executables
    ensures dest in r.1.dirs
    ensures forall p :: Below(p, dest) && p != TarPath(dest) ==> (p in r.1.regular <==> p in unpack.written.regular)
    ensures forall p :: Below(p, dest) && p != TarPath(dest) ==> (p in r.1.executables <==> p in unpack.written.executables)
    ensures TarPath(dest) in r.1.regular <==> r.0.Ok? && TarPath(dest) in unpack.written.regular
    ensures TarPath(dest) in r.1.executables <==> r.0.Ok? && TarPath(dest) in unpack.written.executables
    ensures r.0.Err? ==> r.0.error == ResolveFailure(version)
    ensures r.0.Ok? ==> unpack.complete && r.0.value in r.1.executables && r.0.value in unpack.written.executables
  {
    var tar := TarPath(dest);
    var after := Unpacked(fs, dest, unpack.written);
    var cleaned := after.(regular := after.regular - {tar}, executables := after.executables - {tar});
    if !unpack.complete then (Err(ResolveFailure(version)), cleaned)
    else
      match RequireExecutablePath(after, dest, windows)
      case Err(_) => (Err(ResolveFailure(version)), cleaned)
      case Ok(p) =>
        assert Below(p, dest);
        (Ok(p), after)
  }

  /** `resolve` in the download resolver. The destination directory is
      created; the download is skipped when the tarball is already there,
      and otherwise `transfer` says how it goes; `unpack` is what the
      extraction writes. A failed extraction, or one without a usable
      executable, fails. Returns the outcome and the files afterwards. */
  function Download(fs: Files, dest: JPath, version: string, windows: bool,
                    transfer: Transfer, unpack: Extraction): (r: (Result<JPath>, Files))
    // outside the destination directory only the files the extraction
    // wrote there change ...
    ensures forall p :: !Below(p, dest) && p !in Touched(unpack.written) ==> (p in r.1.regular <==> p in fs.regular)
    ensures forall p :: !Below(p, dest) && p !in Touched(unpack.written) ==> (p in r.1.executables <==> p in fs.executables)
    // ... and, once the tarball is there, those are written whatever the
    // outcome: the entry names are not kept inside the destination
    ensures TarPath(dest) in fs.regular || transfer == Complete ==>
      forall p :: !Below(p, dest) && p in unpack.written.regular ==> p in r.1.regular
    ensures TarPath(dest) in fs.regular || transfer == Complete ==>
      forall p :: !Below(p, dest) && p in unpack.written.executables ==> p in r.1.executables
    ensures dest in r.1.dirs
    // the download fails exactly when it is needed and does not complete
    ensures r.0 == Err(DownloadFailure(version)) <==> TarPath(dest) !in fs.regular && transfer != Complete
    // ... and then only a broken-off transfer leaves anything: a partial tarball
    ensures r.0 == Err(DownloadFailure(version)) ==>
      r.1.executables == fs.executables && r.1.dirs == fs.dirs + {dest}
      && r.1.regular == fs.regular + (if transfer == Interrupted then {TarPath(dest)} else {})
    // once the tarball is there, below the destination only what the
    // extraction wrote remains: the tarball and any earlier files are gone
    ensures TarPath(dest) in fs.regular || transfer == Complete ==>
      forall p :: Below(p, dest) && p != TarPath(dest) ==> (p in r.1.regular <==> p in unpack.written.regular)
    ensures TarPath(dest) in fs.regular || transfer == Complete ==>
      forall p :: Below(p, dest) && p != TarPath(dest) ==> (p in r.1.executables <==> p in unpack.written.executables)
    // ... and a file the extraction wrote at the tarball's path survives
    // only a successful resolve: a failed one deletes it
    ensures TarPath(dest) in fs.regular || transfer == Complete ==>
      (TarPath(dest) in r.1.regular <==> r.0.Ok? && TarPath(dest) in unpack.written.regular)
    ensures TarPath(dest) in fs.regular || transfer == Complete ==>
      (TarPath(dest) in r.1.executables <==> r.0.Ok? && TarPath(dest) in unpack.written.executables)
    ensures r.0.Err? && r.0 != Err(DownloadFailure(version)) ==> r.0.error == ResolveFailure(version)
    ensures r.0.Ok? ==> unpack.complete && r.0.value in r.1.executables && r.0.value in unpack.written.executables
  {
    var tar := TarPath(dest);
    var created := fs.(dirs := fs.dirs + {dest});
    if tar !in fs.regular && transfer == Unreachable then
      (Err(DownloadFailure(version)), created)
    else if tar !in fs.regular && transfer == Interrupted then
      (Err(DownloadFailure(version)), created.(regular := fs.regular + {tar}))
    else
      var e := Extract(fs, dest, version, windows, unpack);
      FailuresDiffer(version);
      assert e.0 != Err(DownloadFailure(version));
      assert !(tar !in fs.regular && transfer != Complete);
      e
  }

  /** A tarball already in place is used without downloading: how the
      transfer would have gone makes no difference. */
  lemma PresentTarSkipsDownload(fs: Files, dest: JPath, version: string, windows: bool,
                                t1: Transfer, t2: Transfer, unpack: Extraction)
    requires TarPath(dest) in fs.regular
    ensures Download(fs, dest, version, windows, t1, unpack) == Download(fs, dest, version, windows, t2, unpack)
  {
  }

  /** A URL that cannot be opened fails the resolve and writes no file; a
      transfer that breaks off fails it too and writes only the partial
      tarball. Either way no executable appears. */
  lemma FailedDownloadChangesNothing(fs: Files, dest: JPath, version: string, windows: bool,
                                     t: Transfer, unpack: Extraction)
    requires TarPath(dest) !in fs.regular && t != Complete
    ensures Download(fs, dest, version, windows, t, unpack).0 == Err(DownloadFailure(version))
    ensures Download(fs, dest, version, windows, t, unpack).1.executables == fs.executables
    ensures t == Unreachable ==> Download(fs, dest, version, windows, t, unpack).1.regular == fs.regular
    ensures t == Interrupted ==> Download(fs, dest, version, windows, t, unpack).1.regular == fs.regular + {TarPath(dest)}
  {
  }

  /** A transfer that breaks off leaves a partial tarball, and the next
      resolve unpacks it without downloading again, however the download
      would go. Unless the archive holds a file of the tarball's name, that
      resolve consumes the tarball, so the one after it downloads anew. */
  lemma InterruptedDownloadReused(fs: Files, dest: JPath, version: string, windows: bool,
                                  u1: Extraction, t: Transfer, u2: Extraction)
    requires TarPath(dest) !in fs.regular
    ensures var first := Download(fs, dest, version, windows, Interrupted, u1);
      first.0 == Err(DownloadFailure(version)) && TarPath(dest) in first.1.regular
    ensures var first := Download(fs, dest, version, windows, Interrupted, u1);
      Download(first.1, dest, version, windows, t, u2) == Download(first.1, dest, version, windows, Complete, u2)
    ensures var first := Download(fs, dest, version, windows, Interrupted, u1);
      var second := Download(first.1, dest, version, windows, t, u2);
      TarPath(dest) !in u2.written.regular ==> TarPath(dest) !in second.1.regular
  {
  }

  // ---------------------------------------------------------------------
  // The legacy resolver

  /** `BaseResolver.getLocation`: "<tmpdir>/esbuild-<version>". */
  function Location(tmp: JPath, version: string): (r: JPath)
    ensures r.names == tmp.names + ["esbuild-" + version]
  {
    Child(tmp, ["esbuild-" + version])
  }

  /** `BaseResolver.extract` returns "package/bin/esbuild" under the
      destination, without the Windows suffix and without looking. */
  function LegacyExecutable(dest: JPath): JPath {
    Child(dest, ["package", "bin", "esbuild"])
  }

  /** On a bundle with a "package/bin" directory outside Windows, the
      current resolver finds the executable where the legacy one assumed
      it. */
  lemma LegacyExecutableAgrees(dest: JPath)
    ensures ExecutablePath(dest, true, false) == LegacyExecutable(dest)
  {
  }
}
