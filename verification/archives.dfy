/** Archive extraction (`Archives`): every entry of a zip or gzipped tar
    archive is written under a target directory, after a guard against
    "zip slip" names that would escape it. The file system is a map from
    paths to nodes; the bytes of a file are carried along unread. */
module Archives {
  import opened Wrappers
  import opened JPaths

  datatype Node = Directory | File(data: seq<bv8>)

  type FileSystem = map<JPath, Node>

  /** One archive entry as the zip and tar readers present it. */
  datatype Entry = Entry(name: string, isDirectory: bool, data: seq<bv8>)

  // ---------------------------------------------------------------------
  // The zip-slip guard

  /** `entrySlipProtect`: the entry name resolved against the target and
      normalized, refused unless the result still lies under the target. */
  function SlipProtect(name: string, target: JPath): (r: Result<JPath>)
    ensures r.Ok? ==> StartsWith(r.value, target)
    ensures r.Err? ==> r.error == "Bad entry: " + name
  {
    var p := Normalize(ResolveStr(target, name));
    if StartsWith(p, target) then Ok(p) else Err("Bad entry: " + name)
  }

  /** What the guard lets through lies under the target and is already
      normal: no ".", and no ".." that could still climb out. */
  lemma SlipProtectSound(name: string, target: JPath)
    requires SlipProtect(name, target).Ok?
    ensures var p := SlipProtect(name, target).value;
      StartsWith(p, target) && Normalize(p) == p
  {
    NormalizeIdempotent(ResolveStr(target, name));
  }

  /** Normalizing a concatenation normalizes the first part and carries
      on with the second. */
  lemma {:induction false} NormalizeNamesAppend(absolute: bool, acc: seq<string>, a: seq<string>, b: seq<string>)
    requires forall i :: 0 <= i < |acc| ==> acc[i] != "."
    requires absolute ==> forall i :: 0 <= i < |acc| ==> acc[i] != ".."
    ensures NormalizeNames(absolute, acc, a + b) == NormalizeNames(absolute, NormalizeNames(absolute, acc, a), b)
    decreases |a|
  {
    if a == [] {
      assert a + b == b;
    } else {
      assert (a + b)[0] == a[0];
      assert (a + b)[1..] == a[1..] + b;
      var n := a[0];
      var acc' :=
        if n == "." then acc
        else if n == ".." then
          (if acc != [] && acc[|acc| - 1] != ".." then acc[..|acc| - 1]
           else if absolute then acc
           else acc + [n])
        else acc + [n];
      assert forall i :: 0 <= i < |acc'| ==> acc'[i] in acc || acc'[i] == n;
      NormalizeNamesAppend(absolute, acc', a[1..], b);
    }
  }

  /** A normal target followed by plain names normalizes to itself
      followed by the names. */
  lemma NormalizeUnderNormal(target: JPath, names: seq<string>)
    requires Normalize(target) == target
    requires forall i :: 0 <= i < |names| ==> names[i] != "." && names[i] != ".."
    ensures Normalize(JPath(target.absolute, target.names + names)) == JPath(target.absolute, target.names + names)
  {
    var t := target.names;
    NormalizeNamesAppend(target.absolute, [], t, names);
    NormalizeIsNormal(target);
    assert IsNormal(t + names) by {
      forall i | 0 < i < |t + names| && (t + names)[i] == ".."
        ensures (t + names)[i - 1] == ".."
      {
        if i < |t| {
          assert (t + names)[i] == t[i] && (t + names)[i - 1] == t[i - 1];
        }
      }
    }
    NormalizeNamesStable(target.absolute, t, names);
  }

  /** A relative name made of plain names is accepted, and lands at the
      target followed by those names. */
  lemma PlainNameAccepted(name: string, target: JPath)
    requires Normalize(target) == target && target != Empty
    requires name == [] || name[0] != '/'
    requires forall i :: 0 <= i < |Parse(name).names| ==> Parse(name).names[i] != "." && Parse(name).names[i] != ".."
    ensures SlipProtect(name, target) == Ok(JPath(target.absolute, target.names + Parse(name).names))
  {
    NormalizeUnderNormal(target, Parse(name).names);
    assert (target.names + Parse(name).names)[..|target.names|] == target.names;
  }

  /** A name that climbs out of the target with a leading ".." and does
      not come back into it through the target's own last name is
      refused. */
  lemma ClimbingNameRefused(name: string, target: JPath, rest: seq<string>)
    requires Normalize(target) == target && target.names != []
    requires target.names[|target.names| - 1] != ".."
    requires name == [] || name[0] != '/'
    requires Parse(name).names == [".."] + rest
    requires forall i :: 0 <= i < |rest| ==> rest[i] != "." && rest[i] != ".."
    requires rest == [] || rest[0] != target.names[|target.names| - 1]
    ensures SlipProtect(name, target) == Err("Bad entry: " + name)
  {
    var t := target.names;
    var p := JPath(target.absolute, t[..|t| - 1] + rest);
    assert ResolveStr(target, name) == JPath(target.absolute, t + ([".."] + rest));
    ClimbNormalizes(target, rest);
    assert !StartsWith(p, target) by {
      if |p.names| >= |t| {
        assert p.names[..|t|][|t| - 1] == rest[0];
      }
    }
  }

  /** A ".." after a normal path removes its last name. */
  lemma ClimbNormalizes(target: JPath, rest: seq<string>)
    requires Normalize(target) == target && target.names != []
    requires target.names[|target.names| - 1] != ".."
    requires forall i :: 0 <= i < |rest| ==> rest[i] != "." && rest[i] != ".."
    ensures var t := target.names;
      NormalizeNames(target.absolute, [], t + ([".."] + rest)) == t[..|t| - 1] + rest
  {
    var abs := target.absolute;
    var t := target.names;
    var up := JPath(abs, t[..|t| - 1]);
    NormalizeNamesAppend(abs, [], t, [".."] + rest);
    ClimbStep(target, rest);
    ParentNormal(target);
    NormalizeUnderNormal(up, rest);
    NormalizeNamesAppend(abs, [], up.names, rest);
  }

  lemma ClimbStep(target: JPath, rest: seq<string>)
    requires Normalize(target) == target && target.names != []
    requires target.names[|target.names| - 1] != ".."
    ensures var t := target.names;
      NormalizeNames(target.absolute, t, [".."] + rest) == NormalizeNames(target.absolute, t[..|t| - 1], rest)
  {
    assert ([".."] + rest)[0] == ".." && ([".."] + rest)[1..] == rest;
  }

  /** Dropping the last name of a normal path leaves a normal path. */
  lemma ParentNormal(target: JPath)
    requires Normalize(target) == target && target.names != []
    ensures var t := target.names;
      Normalize(JPath(target.absolute, t[..|t| - 1])) == JPath(target.absolute, t[..|t| - 1])
  {
    var t := target.names;
    var up := JPath(target.absolute, t[..|t| - 1]);
    assert IsNormal(up.names) by {
      NormalizeIsNormal(target);
    }
    NormalizeNamesStable(target.absolute, [], up.names);
  }

  // ---------------------------------------------------------------------
  // The file system

  /** The root and the working directory always exist. */
  predicate Exists(fs: FileSystem, p: JPath) {
    p.names == [] || p in fs
  }

  /** The path and its ancestors, each with at least one name. */
  function Ancestry(p: JPath): (r: set<JPath>)
    ensures p.names != [] ==> p in r
  {
    assert p.names != [] ==> p.names[..|p.names|] == p.names;
    set k: int | 1 <= k <= |p.names| :: JPath(p.absolute, p.names[..k])
  }

  /** `Files.createDirectories`: the path and every missing ancestor become
      directories; a file anywhere on the way is an error. */
  function CreateDirectories(fs: FileSystem, p: JPath): (r: Result<FileSystem>)
    ensures r.Ok? <==> forall q :: q in Ancestry(p) && q in fs ==> fs[q].Directory?
    ensures r.Ok? ==> r.value.Keys == fs.Keys + Ancestry(p)
    ensures r.Ok? ==> forall q :: q in Ancestry(p) ==> r.value[q] == Directory
    ensures r.Ok? ==> forall q :: q in fs ==> r.value[q] == fs[q]
  {
    if exists q :: q in Ancestry(p) && q in fs && fs[q].File? then Err("FileAlreadyExistsException")
    else Ok(map q | q in fs.Keys + Ancestry(p) :: if q in fs then fs[q] else Directory)
  }

  /** `Files.copy` with `REPLACE_EXISTING`: the parent must be a directory,
      a directory in the way must be empty, and whatever was there is
      replaced by the file. The root and the working directory are taken
      to be directories that are not empty. */
  function Copy(fs: FileSystem, p: JPath, data: seq<bv8>): (r: Result<FileSystem>)
    ensures r.Ok? ==> p.names != [] && r.value == fs[p := File(data)]
    ensures r.Ok? <==>
      p.names != []
      && (Parent(p).Some? ==> Exists(fs, Parent(p).value) && (Parent(p).value in fs ==> fs[Parent(p).value].Directory?))
      && !(p in fs && fs[p].Directory? && exists q :: q in fs && Parent(q) == Some(p))
  {
    if p.names == [] then Err("DirectoryNotEmptyException")
    else if Parent(p).Some? && !Exists(fs, Parent(p).value) then Err("NoSuchFileException")
    else if Parent(p).Some? && Parent(p).value in fs && fs[Parent(p).value].File? then Err("FileSystemException")
    else if p in fs && fs[p].Directory? && exists q :: q in fs && Parent(q) == Some(p) then Err("DirectoryNotEmptyException")
    else Ok(fs[p := File(data)])
  }

  /** `extractEntry`: a directory entry creates its directory; a file entry
      creates its parent when missing and then replaces whatever is at its
      path. */
  function ExtractEntry(fs: FileSystem, target: JPath, e: Entry): (r: Result<FileSystem>)
    ensures SlipProtect(e.name, target).Err? ==> r == Err("Bad entry: " + e.name)
  {
    var p :- SlipProtect(e.name, target);
    if e.isDirectory then CreateDirectories(fs, p)
    else
      var withParent :- (match Parent(p)
        case Some(parent) => if !Exists(fs, parent) then CreateDirectories(fs, parent) else Ok(fs)
        case None => Ok(fs));
      Copy(withParent, p, e.data)
  }

  /** A path changed by the step from `fs` to `fs'`. */
  predicate Changed(fs: FileSystem, fs': FileSystem, q: JPath)
    requires q in fs'
  {
    q !in fs || fs'[q] != fs[q]
  }

  /** A path is touched only if it is the entry's own path or one of its
      ancestors, and nothing is removed. */
  predicate Confined(fs: FileSystem, fs': FileSystem, p: JPath) {
    fs.Keys <= fs'.Keys
    && forall q :: q in fs' && Changed(fs, fs', q) ==> q in Ancestry(p)
  }

  lemma ParentInAncestry(p: JPath, parent: JPath)
    requires Parent(p) == Some(parent)
    ensures Ancestry(parent) <= Ancestry(p)
  {
    forall q | q in Ancestry(parent)
      ensures q in Ancestry(p)
    {
      var k: int :| 1 <= k <= |parent.names| && q == JPath(parent.absolute, parent.names[..k]);
      assert parent.names == p.names[..|p.names| - 1];
      assert parent.names[..k] == p.names[..k];
    }
  }

  /** An accepted entry lands at its guarded path: a directory entry leaves
      a directory there and a file entry its bytes; only that path and its
      ancestors change, and nothing disappears. */
  lemma ExtractEntryEffect(fs: FileSystem, target: JPath, e: Entry)
    requires ExtractEntry(fs, target, e).Ok?
    ensures SlipProtect(e.name, target).Ok?
    ensures var p := SlipProtect(e.name, target).value;
      var fs' := ExtractEntry(fs, target, e).value;
      Confined(fs, fs', p)
      && (e.isDirectory && p.names != [] ==> fs'[p] == Directory)
      && (!e.isDirectory ==> p in fs' && fs'[p] == File(e.data))
  {
    var p := SlipProtect(e.name, target).value;
    var fs' := ExtractEntry(fs, target, e).value;
    if !e.isDirectory {
      match Parent(p)
      case Some(parent) =>
        ParentInAncestry(p, parent);
        if !Exists(fs, parent) {
          var mid := CreateDirectories(fs, parent).value;
          assert fs' == mid[p := File(e.data)];
          assert forall q :: q in fs' && Changed(fs, fs', q) ==> q == p || q in Ancestry(parent);
        }
      case None =>
    }
  }

  /** Within an accepted entry's reach, every touched path lies under the
      target or is one of the target's own ancestors (created when the
      target did not exist yet). */
  lemma AncestryUnderTarget(p: JPath, target: JPath, q: JPath)
    requires StartsWith(p, target) && q in Ancestry(p)
    ensures StartsWith(q, target) || q in Ancestry(target)
  {
    var k: int :| 1 <= k <= |p.names| && q == JPath(p.absolute, p.names[..k]);
    if k >= |target.names| {
      assert q.names[..|target.names|] == target.names;
    } else {
      assert q.names == target.names[..k];
    }
  }

  // ---------------------------------------------------------------------
  // Whole archives

  /** The file system after the entries, and the failure that stopped the
      extraction, if any; entries before the failure stay written. */
  datatype Outcome = Outcome(fs: FileSystem, failure: Option<string>)

  /** `unzip` and `unTgz`: the same extraction applied to every entry in
      archive order, stopping at the first failure. */
  function ExtractAll(fs: FileSystem, target: JPath, entries: seq<Entry>): (r: Outcome)
    ensures entries == [] ==> r == Outcome(fs, None)
    ensures fs.Keys <= r.fs.Keys
    decreases |entries|
  {
    if entries == [] then Outcome(fs, None)
    else
      match ExtractEntry(fs, target, entries[0])
      case Err(e) => Outcome(fs, Some(e))
      case Ok(fs1) =>
        ExtractEntryEffect(fs, target, entries[0]);
        ExtractAll(fs1, target, entries[1..])
  }

  /** Extracting two runs of entries is extracting the first and then,
      unless it failed, the second. */
  lemma {:induction false} ExtractAllAppend(fs: FileSystem, target: JPath, a: seq<Entry>, b: seq<Entry>)
    ensures ExtractAll(fs, target, a + b) ==
      var first := ExtractAll(fs, target, a);
      if first.failure.Some? then first else ExtractAll(first.fs, target, b)
    decreases |a|
  {
    if a == [] {
      assert a + b == b;
    } else {
      assert (a + b)[0] == a[0];
      assert (a + b)[1..] == a[1..] + b;
      match ExtractEntry(fs, target, a[0])
      case Err(e) =>
      case Ok(fs1) => ExtractAllAppend(fs1, target, a[1..], b);
    }
  }

  /** The zip-slip guarantee: whatever the entry names, every path an
      extraction creates or changes lies under the target or is one of
      the target's ancestors, and every file it writes lies under the
      target. */
  lemma {:induction false} ExtractAllConfined(fs: FileSystem, target: JPath, entries: seq<Entry>)
    ensures var r := ExtractAll(fs, target, entries).fs;
      forall q :: q in r && Changed(fs, r, q) ==> StartsWith(q, target) || q in Ancestry(target)
    ensures var r := ExtractAll(fs, target, entries).fs;
      forall q :: q in r && Changed(fs, r, q) && r[q].File? ==> StartsWith(q, target)
    decreases |entries|
  {
    if entries != [] {
      match ExtractEntry(fs, target, entries[0])
      case Err(e) =>
      case Ok(fs1) =>
        var p := SlipProtect(entries[0].name, target).value;
        ExtractEntryEffect(fs, target, entries[0]);
        ExtractAllConfined(fs1, target, entries[1..]);
        var r := ExtractAll(fs1, target, entries[1..]).fs;
        forall q | q in r && Changed(fs, r, q)
          ensures StartsWith(q, target) || q in Ancestry(target)
          ensures r[q].File? ==> StartsWith(q, target)
        {
          if !Changed(fs1, r, q) {
            assert q in fs1 && Changed(fs, fs1, q);
            AncestryUnderTarget(p, target, q);
            if fs1[q].File? {
              FileOnlyAtEntry(fs, target, entries[0], q);
            }
          }
        }
    }
  }

  /** The only path an entry can turn into a file is its own. */
  lemma FileOnlyAtEntry(fs: FileSystem, target: JPath, e: Entry, q: JPath)
    requires ExtractEntry(fs, target, e).Ok?
    requires q in ExtractEntry(fs, target, e).value
    requires Changed(fs, ExtractEntry(fs, target, e).value, q)
    requires ExtractEntry(fs, target, e).value[q].File?
    ensures StartsWith(q, target)
  {
    var p := SlipProtect(e.name, target).value;
    var fs' := ExtractEntry(fs, target, e).value;
    if e.isDirectory {
      assert false;
    } else {
      match Parent(p)
      case Some(parent) =>
        if !Exists(fs, parent) {
          var mid := CreateDirectories(fs, parent).value;
          assert fs' == mid[p := File(e.data)];
        }
      case None =>
    }
  }
}
