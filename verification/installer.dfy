/** The installer that unpacks web dependencies into a node_modules
    directory and keeps `.mvnpm/mvnpm.json`, the record of which dependency
    put which package directories there, so that a later run skips what is
    already installed and removes what is no longer needed.

    The file system is abstracted to the set of package directories present
    under node_modules plus the state of the record file. What a jar holds
    is an oracle `found`: for a dependency, the package names its extraction
    yields, in the iteration order of the map the jar inspector returns
    (empty when no package.json was found). The record set, a `HashSet` in
    the program, is kept as a sequence in insertion order without
    duplicates. */
module WebDepsInstallers {
  import opened Wrappers
  import opened Strings
  import JPaths
  import opened WebDependencies

  /** `MvnpmInfo.InstalledDependency`: a dependency id and the package
      directories it put under node_modules. */
  datatype Record = Record(id: string, dirs: seq<string>)

  /** The record file: absent, present but not parsable, or holding
      records. */
  datatype InfoFile = Missing | Unparsable | Stored(records: seq<Record>)

  /** What the installer sees of node_modules. */
  datatype Disk = Disk(packages: set<string>, info: InfoFile)

  const MvnpmDir := ".mvnpm"

  // ---------------------------------------------------------------------
  // Paths

  /** `getMvnpmInfoPath`. */
  function InfoPath(nodeModulesDir: JPaths.JPath): JPaths.JPath {
    JPaths.Resolve(nodeModulesDir, JPaths.JPath(false, [MvnpmDir, "mvnpm.json"]))
  }

  /** The scratch directory every jar is extracted under. */
  function Tmp(nodeModulesDir: JPaths.JPath): JPaths.JPath {
    JPaths.Resolve(nodeModulesDir, JPaths.JPath(false, [MvnpmDir, "tmp"]))
  }

  /** Where a dependency is extracted: under the scratch directory, its id
      with every ':' turned into a directory separator. */
  function ExtractDir(nodeModulesDir: JPaths.JPath, id: string): JPaths.JPath {
    JPaths.Resolve(Tmp(nodeModulesDir), JPaths.Parse(ReplaceChar(id, ':', '/')))
  }

  /** The record file lies inside node_modules, so wiping node_modules
      removes it, and outside the scratch directory, so removing the scratch
      directory keeps it. */
  lemma InfoPathPlacement(nodeModulesDir: JPaths.JPath)
    requires nodeModulesDir != JPaths.Empty
    ensures JPaths.StartsWith(InfoPath(nodeModulesDir), nodeModulesDir)
    ensures !JPaths.StartsWith(InfoPath(nodeModulesDir), Tmp(nodeModulesDir))
  {
    var n := |nodeModulesDir.names|;
    assert InfoPath(nodeModulesDir).names[n + 1] == "mvnpm.json";
    assert Tmp(nodeModulesDir).names[n + 1] == "tmp";
  }

  lemma {:induction false} NonEmptyKeepsAll(parts: seq<string>)
    requires forall i :: 0 <= i < |parts| ==> parts[i] != ""
    ensures JPaths.NonEmpty(parts) == parts
  {
    if parts != [] {
      NonEmptyKeepsAll(parts[1..]);
    }
  }

  /** Non-empty names without '/' joined with '/' parse back to themselves,
      as a relative path. */
  lemma ParseJoined(parts: seq<string>)
    requires |parts| >= 1
    requires forall i :: 0 <= i < |parts| ==> parts[i] != "" && '/' !in parts[i]
    ensures JPaths.Parse(Join(parts, "/")) == JPaths.JPath(false, parts)
  {
    var text := Join(parts, "/");
    SplitJoin(parts, '/');
    NonEmptyKeepsAll(parts);
    JoinBegins(parts, "/");
    assert text[0] == parts[0][0];
  }

  lemma JoinBegins(parts: seq<string>, sep: string)
    requires |parts| >= 1
    ensures parts[0] <= Join(parts, sep)
  {
    if |parts| > 1 {
      assert Join(parts, sep) == parts[0] + (sep + Join(parts[1..], sep));
    }
  }

  /** A coordinate id "group:artifact:version" (any number of non-empty
      parts without '/' or ':') is extracted one directory level per part,
      strictly inside the scratch directory. */
  lemma ExtractDirOfCoordinates(nodeModulesDir: JPaths.JPath, parts: seq<string>)
    requires |parts| >= 1
    requires forall i :: 0 <= i < |parts| ==> parts[i] != "" && ':' !in parts[i] && '/' !in parts[i]
    ensures ExtractDir(nodeModulesDir, Join(parts, ":")) ==
      JPaths.JPath(nodeModulesDir.absolute, nodeModulesDir.names + [MvnpmDir, "tmp"] + parts)
    ensures JPaths.StartsWith(ExtractDir(nodeModulesDir, Join(parts, ":")), Tmp(nodeModulesDir))
  {
    ReplaceCharJoin(parts, ':', '/');
    ParseJoined(parts);
    var t := Tmp(nodeModulesDir);
    assert ExtractDir(nodeModulesDir, Join(parts, ":")).names[..|t.names|] == t.names;
  }

  // ---------------------------------------------------------------------
  // The record file

  /** `readMvnpmInfo`: the records and the file as it is afterwards. A
      missing file reads as no records; a file that does not parse is
      deleted and also reads as no records. */
  function ReadInfo(f: InfoFile): (r: (seq<Record>, InfoFile))
    ensures r.1 == (if f.Unparsable? then Missing else f)
    ensures r.0 == (if f.Stored? then f.records else [])
  {
    match f
    case Missing => ([], Missing)
    case Unparsable => ([], Missing)
    case Stored(records) => (records, f)
  }

  /** Reading is stable: a second read finds what the first returned and
      changes the file no further. */
  lemma ReadInfoStable(f: InfoFile)
    ensures ReadInfo(ReadInfo(f).1) == ReadInfo(f)
    ensures !ReadInfo(f).1.Unparsable?
  {
  }

  /** The first record with the given id (`stream().filter(…).findFirst()`). */
  function FirstWithId(records: seq<Record>, id: string): (r: Option<nat>)
    ensures r.Some? ==> r.value < |records| && records[r.value].id == id
    ensures r.Some? ==> forall j :: 0 <= j < r.value ==> records[j].id != id
    ensures r.None? <==> forall j :: 0 <= j < |records| ==> records[j].id != id
  {
    if records == [] then None
    else if records[0].id == id then Some(0)
    else match FirstWithId(records[1..], id)
      case Some(k) => Some(k + 1)
      case None => None
  }

  /** Every directory some record lists. */
  function DirsOf(records: seq<Record>): set<string> {
    set x, d | x in records && d in x.dirs :: d
  }

  function Names(s: seq<string>): set<string> {
    set n | n in s
  }

  /** Every directory the record file lists is present: the state a
      successful install leaves behind. */
  predicate Consistent(disk: Disk) {
    disk.info.Stored? ==> DirsOf(disk.info.records) <= disk.packages
  }

  // ---------------------------------------------------------------------
  // The dependency loop

  /** What one dependency adds to the new record set: the old record with
      its id when there is one, a fresh record when its extraction yields
      package names, nothing otherwise. */
  function Contribution(prior: seq<Record>, found: WebDependency -> seq<string>, dep: WebDependency): (r: Option<Record>)
    ensures r.Some? ==> r.value.id == dep.id
    ensures r.None? <==> FirstWithId(prior, dep.id).None? && found(dep) == []
  {
    match FirstWithId(prior, dep.id)
    case Some(k) => Some(prior[k])
    case None => if found(dep) == [] then None else Some(Record(dep.id, found(dep)))
  }

  /** `HashSet.add`. */
  function AddOnce(s: seq<Record>, x: Record): (r: seq<Record>)
    ensures forall y :: y in r <==> y in s || y == x
  {
    if x in s then s else s + [x]
  }

  datatype Progress = Progress(packages: set<string>, installed: seq<Record>, changed: bool)

  /** One iteration: a recorded dependency is skipped and its record
      carried over; any other is extracted, its packages moved into
      node_modules, and recorded when it had any. */
  function Advance(dep: WebDependency, prior: seq<Record>, found: WebDependency -> seq<string>, p: Progress): Progress {
    var isNew := FirstWithId(prior, dep.id).None?;
    Progress(
      if isNew then p.packages + Names(found(dep)) else p.packages,
      match Contribution(prior, found, dep)
      case Some(x) => AddOnce(p.installed, x)
      case None => p.installed,
      p.changed || isNew)
  }

  /** The loop over the dependencies. */
  function Process(deps: seq<WebDependency>, prior: seq<Record>, found: WebDependency -> seq<string>, p: Progress): (r: Progress)
    ensures p.packages <= r.packages
    ensures p.changed ==> r.changed
    ensures forall x :: x in p.installed ==> x in r.installed
    decreases |deps|
  {
    if deps == [] then p
    else Process(deps[1..], prior, found, Advance(deps[0], prior, found, p))
  }

  /** Some dependency has no record. */
  predicate Unrecorded(deps: seq<WebDependency>, prior: seq<Record>) {
    exists i :: 0 <= i < |deps| && FirstWithId(prior, deps[i].id).None?
  }

  /** Directory `d` comes out of the extraction of an unrecorded dependency. */
  predicate Extracted(deps: seq<WebDependency>, prior: seq<Record>, found: WebDependency -> seq<string>, d: string) {
    exists i :: 0 <= i < |deps| && ExtractedBy(deps[i], prior, found, d)
  }

  /** Directory `d` comes out of the extraction of `dep`, which has no record. */
  predicate ExtractedBy(dep: WebDependency, prior: seq<Record>, found: WebDependency -> seq<string>, d: string) {
    FirstWithId(prior, dep.id).None? && d in found(dep)
  }

  /** Record `x` is the contribution of some dependency. */
  predicate Contributed(deps: seq<WebDependency>, prior: seq<Record>, found: WebDependency -> seq<string>, x: Record) {
    exists i :: 0 <= i < |deps| && Contribution(prior, found, deps[i]) == Some(x)
  }

  /** The loop reports a change exactly when some dependency had no record. */
  lemma {:induction false} ProcessChanged(deps: seq<WebDependency>, prior: seq<Record>, found: WebDependency -> seq<string>, p: Progress)
    ensures Process(deps, prior, found, p).changed <==> p.changed || Unrecorded(deps, prior)
    decreases |deps|
  {
    if deps != [] {
      var next := Advance(deps[0], prior, found, p);
      ProcessChanged(deps[1..], prior, found, next);
      if Unrecorded(deps[1..], prior) {
        var i :| 0 <= i < |deps[1..]| && FirstWithId(prior, deps[1..][i].id).None?;
        assert FirstWithId(prior, deps[i + 1].id).None?;
      }
      if Unrecorded(deps, prior) && FirstWithId(prior, deps[0].id).Some? {
        var i :| 0 <= i < |deps| && FirstWithId(prior, deps[i].id).None?;
        assert deps[1..][i - 1] == deps[i];
      }
    }
  }

  /** The loop adds exactly the packages of the unrecorded dependencies. */
  lemma {:induction false} ProcessPackages(deps: seq<WebDependency>, prior: seq<Record>, found: WebDependency -> seq<string>, p: Progress, d: string)
    ensures d in Process(deps, prior, found, p).packages <==> d in p.packages || Extracted(deps, prior, found, d)
    decreases |deps|
  {
    if deps != [] {
      var next := Advance(deps[0], prior, found, p);
      ProcessPackages(deps[1..], prior, found, next, d);
      if Extracted(deps[1..], prior, found, d) {
        var i :| 0 <= i < |deps[1..]| && ExtractedBy(deps[1..][i], prior, found, d);
        assert deps[1..][i] == deps[i + 1];
      }
      if Extracted(deps, prior, found, d) && !ExtractedBy(deps[0], prior, found, d) {
        var i :| 0 <= i < |deps| && ExtractedBy(deps[i], prior, found, d);
        assert deps[1..][i - 1] == deps[i];
      }
      if ExtractedBy(deps[0], prior, found, d) {
        assert d in Names(found(deps[0]));
      }
    }
  }

  /** The loop records exactly the contributions of the dependencies. */
  lemma {:induction false} ProcessRecords(deps: seq<WebDependency>, prior: seq<Record>, found: WebDependency -> seq<string>, p: Progress, x: Record)
    ensures x in Process(deps, prior, found, p).installed <==> x in p.installed || Contributed(deps, prior, found, x)
    decreases |deps|
  {
    if deps != [] {
      var next := Advance(deps[0], prior, found, p);
      ProcessRecords(deps[1..], prior, found, next, x);
      if Contributed(deps[1..], prior, found, x) {
        var i :| 0 <= i < |deps[1..]| && Contribution(prior, found, deps[1..][i]) == Some(x);
        assert deps[1..][i] == deps[i + 1];
      }
      if Contributed(deps, prior, found, x) && Contribution(prior, found, deps[0]) != Some(x) {
        var i :| 0 <= i < |deps| && Contribution(prior, found, deps[i]) == Some(x);
        assert deps[1..][i - 1] == deps[i];
      }
    }
  }

  /** The records the loop writes depend only on the dependencies'
      contributions. */
  lemma {:induction false} ProcessCongruent(deps: seq<WebDependency>, old1: seq<Record>, old2: seq<Record>,
                                           found: WebDependency -> seq<string>, p1: Progress, p2: Progress)
    requires p1.installed == p2.installed
    requires forall i :: 0 <= i < |deps| ==> Contribution(old1, found, deps[i]) == Contribution(old2, found, deps[i])
    ensures Process(deps, old1, found, p1).installed == Process(deps, old2, found, p2).installed
    decreases |deps|
  {
    if deps != [] {
      assert Contribution(old1, found, deps[0]) == Contribution(old2, found, deps[0]);
      ProcessCongruent(deps[1..], old1, old2, found, Advance(deps[0], old1, found, p1), Advance(deps[0], old2, found, p2));
    }
  }

  // ---------------------------------------------------------------------
  // install

  /** `install`: whether anything changed, and node_modules afterwards.
      With no record or no dependency node_modules is wiped first; with no
      dependency nothing else happens. After the loop, a previously listed
      directory that no new record lists is removed, and the new records
      are written. */
  function Install(disk: Disk, deps: seq<WebDependency>, found: WebDependency -> seq<string>): (r: (bool, Disk))
    ensures deps == [] ==> r == (true, Disk({}, Missing))
    ensures deps != [] ==> r.1.info.Stored?
  {
    var prior := ReadInfo(disk.info).0;
    var start := if prior == [] then {} else disk.packages;
    if deps == [] then (true, Disk({}, Missing))
    else
      var p := Process(deps, prior, found, Progress(start, [], false));
      var removed := DirsOf(prior) - DirsOf(p.installed);
      (p.changed || removed != {}, Disk(p.packages - removed, Stored(p.installed)))
  }

  /** The written record set holds exactly one contribution per dependency:
      the old record of each recorded one, a fresh record for each other
      one that yielded packages. */
  lemma InstallWritesContributions(disk: Disk, deps: seq<WebDependency>, found: WebDependency -> seq<string>, x: Record)
    requires deps != []
    ensures x in Install(disk, deps, found).1.info.records <==> Contributed(deps, ReadInfo(disk.info).0, found, x)
  {
    var prior := ReadInfo(disk.info).0;
    var start := if prior == [] then {} else disk.packages;
    ProcessRecords(deps, prior, found, Progress(start, [], false), x);
  }

  /** The result reports a change exactly when there are no dependencies,
      some dependency had no record, or some previously listed directory is
      listed no more. */
  lemma InstallChanged(disk: Disk, deps: seq<WebDependency>, found: WebDependency -> seq<string>)
    ensures var r := Install(disk, deps, found);
      r.0 <==> deps == [] || Unrecorded(deps, ReadInfo(disk.info).0)
                || !(DirsOf(ReadInfo(disk.info).0) <= DirsOf(r.1.info.records))
  {
    var prior := ReadInfo(disk.info).0;
    var start := if prior == [] then {} else disk.packages;
    if deps != [] {
      var p := Process(deps, prior, found, Progress(start, [], false));
      ProcessChanged(deps, prior, found, Progress(start, [], false));
      var removed := DirsOf(prior) - DirsOf(p.installed);
      assert Install(disk, deps, found).0 == (p.changed || removed != {});
      if removed == {} {
        forall x | x in DirsOf(prior)
          ensures x in DirsOf(p.installed)
        {
          assert x !in removed;
        }
      } else {
        var x :| x in removed;
      }
    }
  }

  /** After an install with dependencies, a directory is present exactly
      when it was present before (and node_modules was not wiped for lack
      of records) or came out of an extraction, and it is not a previously
      listed directory that no new record lists. */
  lemma InstallPackages(disk: Disk, deps: seq<WebDependency>, found: WebDependency -> seq<string>, d: string)
    requires deps != []
    ensures var prior := ReadInfo(disk.info).0;
      var r := Install(disk, deps, found);
      d in r.1.packages <==>
        ((d in disk.packages && prior != []) || Extracted(deps, prior, found, d))
        && (d !in DirsOf(prior) || d in DirsOf(r.1.info.records))
  {
    var prior := ReadInfo(disk.info).0;
    var start := if prior == [] then {} else disk.packages;
    ProcessPackages(deps, prior, found, Progress(start, [], false), d);
  }

  /** Every directory the written record file lists is present afterwards,
      provided that held before: directories shared between an old record
      and a new one (a version or classifier change of the same package)
      survive the clean-up. */
  lemma InstallConsistent(disk: Disk, deps: seq<WebDependency>, found: WebDependency -> seq<string>)
    requires Consistent(disk)
    ensures Consistent(Install(disk, deps, found).1)
  {
    if deps != [] {
      var prior := ReadInfo(disk.info).0;
      var start := if prior == [] then {} else disk.packages;
      var p := Process(deps, prior, found, Progress(start, [], false));
      var r := Install(disk, deps, found);
      assert r.1.info.records == p.installed;
      forall d | d in DirsOf(p.installed)
        ensures d in r.1.packages
      {
        var x :| x in p.installed && d in x.dirs;
        ProcessRecords(deps, prior, found, Progress(start, [], false), x);
        var i :| 0 <= i < |deps| && Contribution(prior, found, deps[i]) == Some(x);
        ProcessPackages(deps, prior, found, Progress(start, [], false), d);
        match FirstWithId(prior, deps[i].id)
        case Some(k) =>
          assert x == prior[k];
          assert d in DirsOf(prior);
        case None =>
          assert ExtractedBy(deps[i], prior, found, d);
      }
    }
  }

  /** When every dependency has a record or yields packages, and their ids
      are distinct, the old contributions reappear when the written records
      are read back. */
  lemma ContributionsStable(prior: seq<Record>, deps: seq<WebDependency>, found: WebDependency -> seq<string>, p: Progress, i: nat)
    requires p.installed == []
    requires i < |deps|
    requires forall a, b :: 0 <= a < b < |deps| ==> deps[a].id != deps[b].id
    requires forall j :: 0 <= j < |deps| ==> Contribution(prior, found, deps[j]).Some?
    ensures var written := Process(deps, prior, found, p).installed;
      FirstWithId(written, deps[i].id).Some?
      && Contribution(written, found, deps[i]) == Contribution(prior, found, deps[i])
  {
    var written := Process(deps, prior, found, p).installed;
    var x := Contribution(prior, found, deps[i]).value;
    ProcessRecords(deps, prior, found, p, x);
    assert x in written;
    var k := FirstWithId(written, deps[i].id).value;
    ProcessRecords(deps, prior, found, p, written[k]);
    var j :| 0 <= j < |deps| && Contribution(prior, found, deps[j]) == Some(written[k]);
    assert deps[j].id == deps[i].id;
    assert j == i;
  }

  /** Installing the same dependencies twice: the second run changes
      nothing and reports no change, provided the ids are distinct and every
      dependency was recorded or yielded packages the first time. */
  lemma ReinstallUnchanged(disk: Disk, deps: seq<WebDependency>, found: WebDependency -> seq<string>)
    requires deps != []
    requires forall a, b :: 0 <= a < b < |deps| ==> deps[a].id != deps[b].id
    requires forall j :: 0 <= j < |deps| ==> Contribution(ReadInfo(disk.info).0, found, deps[j]).Some?
    ensures var first := Install(disk, deps, found).1;
      Install(first, deps, found) == (false, first)
  {
    var prior := ReadInfo(disk.info).0;
    var start := if prior == [] then {} else disk.packages;
    var p := Process(deps, prior, found, Progress(start, [], false));
    var first := Install(disk, deps, found).1;
    var written := p.installed;
    assert first.info == Stored(written);
    assert ReadInfo(first.info).0 == written;
    ProcessRecords(deps, prior, found, Progress(start, [], false), Contribution(prior, found, deps[0]).value);
    assert written != [];
    var p2 := Progress(first.packages, [], false);
    forall j | 0 <= j < |deps|
      ensures FirstWithId(written, deps[j].id).Some?
      ensures Contribution(written, found, deps[j]) == Contribution(prior, found, deps[j])
    {
      ContributionsStable(prior, deps, found, Progress(start, [], false), j);
    }
    ProcessCongruent(deps, written, prior, found, p2, Progress(start, [], false));
    ProcessChanged(deps, written, found, p2);
    var q := Process(deps, written, found, p2);
    assert !Unrecorded(deps, written);
    assert !q.changed;
    forall d
      ensures d in q.packages <==> d in first.packages
    {
      ProcessPackages(deps, written, found, p2, d);
      assert !Extracted(deps, written, found, d);
    }
    assert q.packages == first.packages;
    assert q.installed == written;
    assert ReadInfo(first.info).0 != [];
    assert DirsOf(written) - DirsOf(q.installed) == {};
    assert Install(first, deps, found) == (q.changed, Disk(q.packages - {}, Stored(q.installed)));
    assert q.packages - {} == first.packages;
    assert Disk(first.packages, Stored(written)) == first;
  }
}

/** The installer of the legacy module. It differs from the current one in
    two places: the extraction directory is the id itself, as one name, and
    the clean-up removes every directory of every old record that is not
    itself in the new record set. */
module LegacyWebDepsInstallers {
  import opened Strings
  import JPaths
  import opened WebDependencies
  import opened WebDepsInstallers

  /** Where a dependency is extracted: its id, unchanged. */
  function LegacyExtractDir(nodeModulesDir: JPaths.JPath, id: string): JPaths.JPath {
    JPaths.Resolve(Tmp(nodeModulesDir), JPaths.Parse(id))
  }

  /** An id without '/' is one directory level under the scratch
      directory, colons and all. */
  lemma LegacyExtractDirIsOneLevel(nodeModulesDir: JPaths.JPath, id: string)
    requires id != "" && '/' !in id
    ensures LegacyExtractDir(nodeModulesDir, id) ==
      JPaths.JPath(nodeModulesDir.absolute, nodeModulesDir.names + [MvnpmDir, "tmp", id])
  {
    assert Split(id, '/') == [id];
    assert JPaths.NonEmpty([id]) == [id];
  }

  /** Directories of the old records that the new record set does not
      contain, as the legacy clean-up computes them. */
  function DroppedDirs(prior: seq<Record>, installed: seq<Record>): set<string> {
    set x, d | x in prior && x !in installed && d in x.dirs :: d
  }

  /** The legacy `install`, with the record-wise clean-up. */
  function LegacyInstall(disk: Disk, deps: seq<WebDependency>, found: WebDependency -> seq<string>): (r: (bool, Disk))
    ensures deps == [] ==> r == (true, Disk({}, Missing))
    ensures deps != [] ==> r.1.info.Stored?
  {
    var prior := ReadInfo(disk.info).0;
    var start := if prior == [] then {} else disk.packages;
    if deps == [] then (true, Disk({}, Missing))
    else
      var p := Process(deps, prior, found, Progress(start, [], false));
      var dropped := set x | x in prior && x !in p.installed;
      (p.changed || dropped != {}, Disk(p.packages - DroppedDirs(prior, p.installed), Stored(p.installed)))
  }

  /** Every directory of an old record that is not in the new set is gone
      afterwards, whether or not a new record lists it. */
  lemma LegacyRemovesDropped(disk: Disk, deps: seq<WebDependency>, found: WebDependency -> seq<string>, x: Record, d: string)
    requires deps != []
    requires x in ReadInfo(disk.info).0 && d in x.dirs
    requires x !in LegacyInstall(disk, deps, found).1.info.records
    ensures d !in LegacyInstall(disk, deps, found).1.packages
  {
  }

  /** A version bump of a dependency whose package directory keeps its
      name: the old record differs from the new one, so the legacy clean-up
      deletes the directory the new record has just installed, leaving a
      record file that lists a missing directory. */
  lemma LegacyVersionBumpLosesPackage(oldId: string, dep: WebDependency, name: string, found: WebDependency -> seq<string>)
    requires oldId != dep.id
    requires found(dep) == [name]
    ensures var disk := Disk({name}, Stored([Record(oldId, [name])]));
      var r := LegacyInstall(disk, [dep], found);
      Consistent(disk)
      && r.1.info == Stored([Record(dep.id, [name])])
      && name !in r.1.packages
      && !Consistent(r.1)
  {
    var disk := Disk({name}, Stored([Record(oldId, [name])]));
    var prior := [Record(oldId, [name])];
    var p := Process([dep], prior, found, Progress({name}, [], false));
    assert FirstWithId(prior, dep.id).None?;
    var a := Advance(dep, prior, found, Progress({name}, [], false));
    assert [dep][1..] == [];
    assert Process([dep][1..], prior, found, a) == a;
    assert p == a;
    assert p.installed == [Record(dep.id, [name])];
    assert name in DroppedDirs(prior, p.installed);
    assert name in DirsOf(p.installed);
  }

  /** The same version bump under the current clean-up keeps the
      directory. */
  lemma VersionBumpKeepsPackage(oldId: string, dep: WebDependency, name: string, found: WebDependency -> seq<string>)
    requires oldId != dep.id
    requires found(dep) == [name]
    ensures var disk := Disk({name}, Stored([Record(oldId, [name])]));
      var r := Install(disk, [dep], found);
      r.1 == Disk({name}, Stored([Record(dep.id, [name])]))
  {
    var prior := [Record(oldId, [name])];
    var p := Process([dep], prior, found, Progress({name}, [], false));
    assert FirstWithId(prior, dep.id).None?;
    var a := Advance(dep, prior, found, Progress({name}, [], false));
    assert [dep][1..] == [];
    assert Process([dep][1..], prior, found, a) == a;
    assert p == a;
    assert p.installed == [Record(dep.id, [name])];
    assert DirsOf(prior) == {name};
    assert DirsOf(p.installed) == {name};
    assert Names([name]) == {name};
  }
}
