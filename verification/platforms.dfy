/** Platform classifiers: which prebuilt esbuild or Deno package fits the
    running JVM, decided from the `os.name` and `os.arch` system properties.
    The current resolvers know six platforms and refuse the rest; the legacy
    resolver and the build-dependency list know eight and never refuse. */
module Platforms {
  import opened Wrappers
  import opened Strings

  datatype Os = Macos | Linux | Windows
  datatype Arch = Arm64 | X64

  /** One of the six classifiers of the current resolvers. */
  datatype Classifier = Classifier(os: Os, arch: Arch)

  function OsText(os: Os): string {
    match os
    case Macos => "macos"
    case Linux => "linux"
    case Windows => "windows"
  }

  function ArchText(arch: Arch): string {
    match arch
    case Arm64 => "-arm64"
    case X64 => "-x64"
  }

  /** The classifier as the resolvers spell it ("macos-arm64", …). */
  function ClassifierText(c: Classifier): string {
    OsText(c.os) + ArchText(c.arch)
  }

  /** The inverse of `ClassifierText` on the six spellings. */
  function ParseClassifier(s: string): (r: Option<Classifier>)
    ensures r.Some? ==> ClassifierText(r.value) == s
  {
    if s == "macos-arm64" then Some(Classifier(Macos, Arm64))
    else if s == "macos-x64" then Some(Classifier(Macos, X64))
    else if s == "linux-arm64" then Some(Classifier(Linux, Arm64))
    else if s == "linux-x64" then Some(Classifier(Linux, X64))
    else if s == "windows-arm64" then Some(Classifier(Windows, Arm64))
    else if s == "windows-x64" then Some(Classifier(Windows, X64))
    else None
  }

  lemma ParseClassifierText(c: Classifier)
    ensures ParseClassifier(ClassifierText(c)) == Some(c)
  {
    match c
    case Classifier(Macos, Arm64) => assert ClassifierText(c) == "macos-arm64";
    case Classifier(Macos, X64) => assert ClassifierText(c) == "macos-x64";
    case Classifier(Linux, Arm64) => assert ClassifierText(c) == "linux-arm64";
    case Classifier(Linux, X64) => assert ClassifierText(c) == "linux-x64";
    case Classifier(Windows, Arm64) => assert ClassifierText(c) == "windows-arm64";
    case Classifier(Windows, X64) => assert ClassifierText(c) == "windows-x64";
  }

  /** The npm registry's name for an operating system. */
  function NpmOsText(os: Os): string {
    match os
    case Macos => "darwin"
    case Linux => "linux"
    case Windows => "win32"
  }

  /** The npm registry's name for the platform: macOS is "darwin" and
      Windows "win32". */
  function NpmName(c: Classifier): string {
    NpmOsText(c.os) + ArchText(c.arch)
  }

  predicate IsArm64Name(a: string) {
    a == "aarch64" || a == "arm64"
  }

  /** The six-way decision shared by the esbuild resolvers and the Deno
      runner; `None` is the platform they refuse. Both properties are
      lowercased first. */
  function Classify(osName: string, osArch: string): (r: Option<Classifier>)
    ensures r.Some? ==> (r.value.os == Macos <==> Contains(ToLower(osName), "mac"))
    ensures r.Some? ==> (r.value.os == Windows <==> !Contains(ToLower(osName), "mac") && Contains(ToLower(osName), "win"))
    ensures r.Some? && r.value.os == Macos ==>
      (r.value.arch == Arm64 <==> ToLower(osArch) == "aarch64" || Contains(ToLower(osArch), "arm"))
    ensures r.Some? && r.value.os != Macos ==> (r.value.arch == Arm64 <==> IsArm64Name(ToLower(osArch)))
  {
    var n := ToLower(osName);
    var a := ToLower(osArch);
    if Contains(n, "mac") then
      Some(Classifier(Macos, if a == "aarch64" || Contains(a, "arm") then Arm64 else X64))
    else
      var os := if Contains(n, "win") then Windows else Linux;
      if IsArm64Name(a) then Some(Classifier(os, Arm64))
      else if Contains(a, "64") then Some(Classifier(os, X64))
      else None
  }

  lemma Arm64NamesContain64(a: string)
    requires IsArm64Name(a)
    ensures Contains(a, "64")
  {
    if a == "aarch64" {
      assert OccursAt(a, "64", 5);
    } else {
      assert OccursAt(a, "64", 3);
    }
  }

  /** A platform is refused exactly when it is not a Mac and its
      architecture does not mention "64". */
  lemma ClassifyRefuses(osName: string, osArch: string)
    ensures Classify(osName, osArch).None? <==>
      !Contains(ToLower(osName), "mac") && !Contains(ToLower(osArch), "64")
  {
    if IsArm64Name(ToLower(osArch)) {
      Arm64NamesContain64(ToLower(osArch));
    }
  }

  /** The exception a refusal raises names both properties, lowercased. */
  function RefusalMessage(osName: string, osArch: string, what: string): (m: string)
    ensures StartsWith(m, "Incompatible os: '" + ToLower(osName) + "'")
  {
    "Incompatible os: '" + ToLower(osName) + "' and arch: '" + ToLower(osArch) + "' for " + what
  }

  /** The esbuild resolvers' classifier: a refusal is an
      `EsbuildResolutionException`. The classifier is a static final field,
      so the refusal is raised while the class initializes and callers see
      an `ExceptionInInitializerError`, then `NoClassDefFoundError`. */
  function ResolverClassifier(osName: string, osArch: string): (r: Result<Classifier>)
    ensures r.Ok? <==> Classify(osName, osArch).Some?
    ensures r.Ok? ==> Classify(osName, osArch) == Some(r.value)
    ensures r.Err? ==> r.error == RefusalMessage(osName, osArch, "esbuild")
  {
    match Classify(osName, osArch)
    case Some(c) => Ok(c)
    case None => Err(RefusalMessage(osName, osArch, "esbuild"))
  }

  /** `os.name` mentions "win", the Windows test of every resolver. */
  predicate IsWindows(osName: string) {
    Contains(ToLower(osName), "win")
  }

  // ---------------------------------------------------------------------
  // The legacy eight-way classifier

  /** The eight platforms of the legacy resolver and the build-dependency
      list, spelled as npm names. */
  datatype LegacyClassifier =
    | DarwinArm64 | DarwinX64 | Win32X64 | Win32Ia32
    | LinuxArm64 | LinuxArm | LinuxX64 | LinuxIa32

  function LegacyText(c: LegacyClassifier): string {
    match c
    case DarwinArm64 => "darwin-arm64"
    case DarwinX64 => "darwin-x64"
    case Win32X64 => "win32-x64"
    case Win32Ia32 => "win32-ia32"
    case LinuxArm64 => "linux-arm64"
    case LinuxArm => "linux-arm"
    case LinuxX64 => "linux-x64"
    case LinuxIa32 => "linux-ia32"
  }

  predicate IsDarwin(c: LegacyClassifier) {
    c == DarwinArm64 || c == DarwinX64
  }

  predicate IsWin32(c: LegacyClassifier) {
    c == Win32X64 || c == Win32Ia32
  }

  /** The total classifier: every platform gets one of the eight. */
  function LegacyClassify(osName: string, osArch: string): (r: LegacyClassifier)
    ensures IsDarwin(r) <==> Contains(ToLower(osName), "mac")
    ensures IsWin32(r) <==> !Contains(ToLower(osName), "mac") && Contains(ToLower(osName), "win")
    ensures IsDarwin(r) ==> (r == DarwinArm64 <==> ToLower(osArch) == "aarch64" || Contains(ToLower(osArch), "arm"))
    ensures IsWin32(r) ==> (r == Win32X64 <==> Contains(ToLower(osArch), "64"))
    ensures r == LinuxArm64 <==> !IsDarwin(r) && !IsWin32(r) && IsArm64Name(ToLower(osArch))
    ensures r == LinuxArm <==> !IsDarwin(r) && !IsWin32(r) && !IsArm64Name(ToLower(osArch)) && Contains(ToLower(osArch), "arm")
    ensures r == LinuxIa32 ==> !Contains(ToLower(osArch), "64") && !Contains(ToLower(osArch), "arm")
  {
    var n := ToLower(osName);
    var a := ToLower(osArch);
    if Contains(n, "mac") then
      if a == "aarch64" || Contains(a, "arm") then DarwinArm64 else DarwinX64
    else if Contains(n, "win") then
      if Contains(a, "64") then Win32X64 else Win32Ia32
    else if IsArm64Name(a) then LinuxArm64
    else if Contains(a, "arm") then LinuxArm
    else if Contains(a, "64") then LinuxX64
    else LinuxIa32
  }

  /** Where the six-way classifier answers, the legacy one names the same
      npm package, except for 64-bit ARM Windows (which the legacy table
      calls x64) and Linux architectures that mention both "arm" and "64"
      without being "aarch64" or "arm64" (which it calls 32-bit ARM). */
  lemma LegacyAgrees(osName: string, osArch: string)
    requires Classify(osName, osArch).Some?
    requires Classify(osName, osArch).value != Classifier(Windows, Arm64)
    requires Classify(osName, osArch).value == Classifier(Linux, X64) ==> !Contains(ToLower(osArch), "arm")
    ensures LegacyText(LegacyClassify(osName, osArch)) == NpmName(Classify(osName, osArch).value)
  {
    var c := Classify(osName, osArch).value;
    if c.os == Windows {
      ClassifyRefuses(osName, osArch);
    }
  }
}
