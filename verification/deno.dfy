/** The Deno runner: which Deno binary to start, with which arguments, and
    how the script's standard output is read back. A build script reports
    progress through marker lines; every other line goes into a `ScriptLog`. */
module DenoRunners {
  import opened Wrappers
  import opened Strings
  import opened JPaths
  import opened Platforms
  import R = Resolvers
  import L = ScriptLogs

  // ---------------------------------------------------------------------
  // The binary

  /** The runner's classifier: the six-way decision, a refusal being a
      `BundlingException`. */
  function DenoClassifier(osName: string, osArch: string): (r: Result<Classifier>)
    ensures r.Ok? <==> Classify(osName, osArch).Some?
    ensures r.Ok? ==> Classify(osName, osArch) == Some(r.value)
    ensures r.Err? ==> r.error == RefusalMessage(osName, osArch, "EsBuild Java")
  {
    match Classify(osName, osArch)
    case Some(c) => Ok(c)
    case None => Err(RefusalMessage(osName, osArch, "EsBuild Java"))
  }

  /** `DENO_BINARIES`: the npm package of Deno for each classifier. */
  const DenoBinaries: map<string, string> := map[
    "macos-arm64" := "darwin-arm64",
    "macos-x64" := "darwin-x64",
    "linux-arm64" := "linux-arm64-glibc",
    "linux-x64" := "linux-x64-glibc",
    "windows-arm64" := "win32-arm64",
    "windows-x64" := "win32-x64"]

  /** The table is total on the six classifiers and gives npm's platform
      name, with a "-glibc" suffix on Linux. */
  lemma DenoBinariesTotal(c: Classifier)
    ensures ClassifierText(c) in DenoBinaries
    ensures DenoBinaries[ClassifierText(c)] == NpmName(c) + (if c.os == Linux then "-glibc" else "")
  {
    match c
    case Classifier(Macos, Arm64) => assert ClassifierText(c) == "macos-arm64";
    case Classifier(Macos, X64) => assert ClassifierText(c) == "macos-x64";
    case Classifier(Linux, Arm64) => assert ClassifierText(c) == "linux-arm64";
    case Classifier(Linux, X64) => assert ClassifierText(c) == "linux-x64";
    case Classifier(Windows, Arm64) => assert ClassifierText(c) == "windows-arm64";
    case Classifier(Windows, X64) => assert ClassifierText(c) == "windows-x64";
  }

  /** ... and has no other keys. */
  lemma DenoBinariesKeys(k: string)
    requires k in DenoBinaries
    ensures ParseClassifier(k).Some?
  {
  }

  /** `getDenoBinary`: "<nodeModules>/@deno/<package>/deno", ".exe" on
      Windows; a missing regular file is a `BundlingException`. */
  function DenoBinary(regular: set<JPath>, nodeModules: JPath, osName: string, osArch: string): (r: Result<JPath>)
    ensures Classify(osName, osArch).None? ==> r.Err?
    ensures r.Ok? ==> r.value in regular
    ensures r.Ok? ==> Classify(osName, osArch).Some?
    ensures r.Ok? ==>
      (var c := Classify(osName, osArch).value;
       r.value.names == nodeModules.names
         + ["@deno", NpmName(c) + (if c.os == Linux then "-glibc" else ""), R.WithExe("deno", IsWindows(osName))])
  {
    var c :- DenoClassifier(osName, osArch);
    DenoBinariesTotal(c);
    var path := R.Child(nodeModules, ["@deno", DenoBinaries[ClassifierText(c)], R.WithExe("deno", IsWindows(osName))]);
    if path in regular then Ok(path)
    else Err("Deno binary file not found for EsBuild Java: " + Show(path))
  }

  /** `startProcess`: the command line. */
  function ProcessArgs(deno: string, script: string, debug: bool): (r: seq<string>)
    ensures |r| == if debug then 6 else 5
    ensures r[..4] == [deno, "run", "--allow-all", "--node-modules-dir=manual"]
    ensures r[|r| - 1] == script
    ensures debug ==> r[4] == "--inspect-wait"
  {
    [deno, "run", "--allow-all", "--node-modules-dir=manual"]
    + (if debug then ["--inspect-wait"] else [])
    + [script]
  }

  /** Debugging adds one argument just before the script and changes
      nothing else. */
  lemma DebugAddsInspectWait(deno: string, script: string)
    ensures ProcessArgs(deno, script, true)[..4] + ProcessArgs(deno, script, true)[5..]
      == ProcessArgs(deno, script, false)
  {
  }

  // ---------------------------------------------------------------------
  // The output protocol

  const DebuggerWaiting := "Deno is waiting for debugger to connect."
  const BuildMarker := "--BUILD--"
  const ReadyMarker := "--READY--"
  const SuccessMarker := "--BUILD-SUCCESS--"
  const ErrorMarker := "--BUILD-ERROR--"

  /** Lines that end the reading. */
  predicate IsTerminal(line: string) {
    line == ReadyMarker || line == SuccessMarker || line == ErrorMarker
  }

  /** Lines the protocol treats specially. */
  predicate IsSpecial(line: string) {
    IsTerminal(line) || line == BuildMarker || line == DebuggerWaiting
  }

  /** How the reading task ends: returning its log, throwing a
      `BundlingException` with it, or running out of lines. */
  datatype Outcome = Returned(log: L.Log) | BuildFailed(log: L.Log) | Exhausted(log: L.Log)

  /** The outcome and the messages flushed to the console on the way. */
  datatype Waited = Waited(outcome: Outcome, flushed: L.Log)

  /** Every line added to the log in turn. */
  function AddAll(log: L.Log, lines: seq<string>): (r: L.Log)
    ensures |r| <= |log| + |lines|
    ensures |r| >= |log| && r[..|log|] == log
    decreases |lines|
  {
    if lines == [] then log else AddAll(L.Add(log, Some(lines[0])), lines[1..])
  }

  /** The reading loop of `waitForResult` over the lines read while the
      process was alive: a build marker is skipped; ready or success returns
      the log; a build error flushes it and fails; the debugger notice is
      logged, flushed, and the log cleared; anything else is logged. */
  function Wait(log: L.Log, lines: seq<string>): (r: Waited)
    ensures r.outcome.Exhausted? ==> forall i :: 0 <= i < |lines| ==> !IsTerminal(lines[i])
    decreases |lines|
  {
    if lines == [] then Waited(Exhausted(log), [])
    else
      var line := lines[0];
      if line == DebuggerWaiting then
        var w := Wait(L.Cleared, lines[1..]);
        Waited(w.outcome, L.Add(log, Some(line)) + w.flushed)
      else if line == BuildMarker then Wait(log, lines[1..])
      else if line == ReadyMarker || line == SuccessMarker then Waited(Returned(log), [])
      else if line == ErrorMarker then Waited(BuildFailed(log), log)
      else Wait(L.Add(log, Some(line)), lines[1..])
  }

  /** `lines` without its build markers. */
  function WithoutBuildMarkers(lines: seq<string>): (r: seq<string>)
    ensures BuildMarker !in r
    ensures |r| <= |lines|
  {
    if lines == [] then []
    else (if lines[0] == BuildMarker then [] else [lines[0]]) + WithoutBuildMarkers(lines[1..])
  }

  /** Build markers make no difference to anything. */
  lemma {:induction false} BuildMarkersIgnored(log: L.Log, lines: seq<string>)
    ensures Wait(log, lines) == Wait(log, WithoutBuildMarkers(lines))
    decreases |lines|
  {
    if lines != [] {
      var rest := WithoutBuildMarkers(lines[1..]);
      if lines[0] == BuildMarker {
        assert WithoutBuildMarkers(lines) == [] + rest == rest;
        assert lines[0] != DebuggerWaiting;
        assert Wait(log, lines) == Wait(log, lines[1..]);
        BuildMarkersIgnored(log, lines[1..]);
      } else {
        assert WithoutBuildMarkers(lines) == [lines[0]] + rest;
        assert ([lines[0]] + rest)[1..] == rest;
        if lines[0] == DebuggerWaiting {
          BuildMarkersIgnored(L.Cleared, lines[1..]);
        } else {
          BuildMarkersIgnored(L.Add(log, Some(lines[0])), lines[1..]);
        }
      }
    }
  }

  /** Nothing after the first ready, success or error marker is read. */
  lemma {:induction false} StopsAtTerminal(log: L.Log, before: seq<string>, marker: string, after: seq<string>)
    requires IsTerminal(marker)
    ensures Wait(log, before + [marker] + after) == Wait(log, before + [marker])
    decreases |before|
  {
    if before == [] {
      assert before + [marker] + after == [marker] + after;
      assert before + [marker] == [marker];
    } else {
      var s := before + [marker] + after;
      var t := before + [marker];
      assert s[0] == t[0] == before[0];
      assert s[1..] == before[1..] + [marker] + after;
      assert t[1..] == before[1..] + [marker];
      forall lg: L.Log
        ensures Wait(lg, s[1..]) == Wait(lg, t[1..])
      {
        StopsAtTerminal(lg, before[1..], marker, after);
      }
      WaitSameHead(log, s, t);
    }
  }

  /** Two inputs with the same first line that agree after it from any
      log agree. */
  lemma WaitSameHead(log: L.Log, s: seq<string>, t: seq<string>)
    requires s != [] && t != [] && s[0] == t[0]
    requires forall lg: L.Log :: Wait(lg, s[1..]) == Wait(lg, t[1..])
    ensures Wait(log, s) == Wait(log, t)
  {
  }

  /** Ordinary lines are all logged, in order, and flush nothing. */
  lemma {:induction false} OrdinaryLinesLogged(log: L.Log, lines: seq<string>)
    requires forall i :: 0 <= i < |lines| ==> !IsSpecial(lines[i])
    ensures Wait(log, lines) == Waited(Exhausted(AddAll(log, lines)), [])
    decreases |lines|
  {
    if lines != [] {
      OrdinaryLinesLogged(L.Add(log, Some(lines[0])), lines[1..]);
    }
  }

  /** Ordinary lines followed by a ready or success marker return exactly
      those lines, classified. */
  lemma {:induction false} ReadyReturnsLog(log: L.Log, lines: seq<string>, marker: string)
    requires marker == ReadyMarker || marker == SuccessMarker
    requires forall i :: 0 <= i < |lines| ==> !IsSpecial(lines[i])
    ensures Wait(log, lines + [marker]) == Waited(Returned(AddAll(log, lines)), [])
    decreases |lines|
  {
    if lines == [] {
      assert lines + [marker] == [marker];
    } else {
      assert (lines + [marker])[1..] == lines[1..] + [marker];
      ReadyReturnsLog(L.Add(log, Some(lines[0])), lines[1..], marker);
    }
  }

  /** After the debugger notice the earlier log is forgotten: the outcome
      depends only on what follows. */
  lemma {:induction false} DebuggerForgets(log: L.Log, before: seq<string>, after: seq<string>)
    requires forall i :: 0 <= i < |before| ==> !IsTerminal(before[i])
    ensures Wait(log, before + [DebuggerWaiting] + after).outcome == Wait(L.Cleared, after).outcome
    decreases |before|
  {
    if before == [] {
      assert before + [DebuggerWaiting] + after == [DebuggerWaiting] + after;
    } else {
      assert (before + [DebuggerWaiting] + after)[1..] == before[1..] + [DebuggerWaiting] + after;
      if before[0] == DebuggerWaiting {
        DebuggerForgets(L.Cleared, before[1..], after);
      } else if before[0] == BuildMarker {
        DebuggerForgets(log, before[1..], after);
      } else {
        DebuggerForgets(L.Add(log, Some(before[0])), before[1..], after);
      }
    }
  }

  /** Why a run fails: a `BundlingException` carrying the log, or a
      `RuntimeException`. */
  datatype Failure = Bundling(message: string, log: L.Log) | Runtime(message: string)

  datatype Run = Done(log: L.Log) | Failed(failure: Failure)

  /** `waitForResult`: the reading loop, then a dead process is an
      unexpected exit, whatever the loop returned. */
  function WaitForResult(lines: seq<string>, aliveAfter: bool): (r: Run)
    ensures r.Done? ==> aliveAfter && !Wait(L.Cleared, lines).outcome.BuildFailed?
    ensures Wait(L.Cleared, lines).outcome.BuildFailed? ==>
      r == Failed(Bundling("EsBuild Bundling failed", Wait(L.Cleared, lines).outcome.log))
  {
    match Wait(L.Cleared, lines).outcome
    case BuildFailed(log) => Failed(Bundling("EsBuild Bundling failed", log))
    case Returned(log) => if aliveAfter then Done(log) else Failed(Runtime("Bundling process exited unexpectedly"))
    case Exhausted(log) => if aliveAfter then Done(log) else Failed(Runtime("Bundling process exited unexpectedly"))
  }

  /** `waitForExit`: every line is logged; then an exit code other than 0,
      or a process that has not finished (code -1), is a
      `BundlingException`. */
  function WaitForExit(lines: seq<string>, finished: bool, exitValue: int): (r: Run)
    ensures r.Done? <==> finished && exitValue == 0
    ensures r.Done? ==> r.log == AddAll(L.Cleared, lines)
    ensures r.Failed? ==> r.failure == Bundling("EsBuild Bundling failed", AddAll(L.Cleared, lines))
  {
    var log := AddAll(L.Cleared, lines);
    var exitCode := if finished then exitValue else -1;
    if exitCode != 0 then Failed(Bundling("EsBuild Bundling failed", log)) else Done(log)
  }
}
