/** A model of `java.nio.file.Path` on a Unix file system (and of the POSIX
    `path` helpers of Node.js built on it): a path is its rootedness plus its
    list of name elements. Empty names are never stored, so "a//b/" and
    "a/b" are the same path, and the empty path "" has no names. */
module JPaths {
  import opened Wrappers
  import opened Strings

  datatype JPath = JPath(absolute: bool, names: seq<string>)

  predicate WellFormed(p: JPath) {
    forall i :: 0 <= i < |p.names| ==> p.names[i] != "" && '/' !in p.names[i]
  }

  const Root := JPath(true, [])
  const Empty := JPath(false, [])

  /** The non-empty pieces of a string split at "/". */
  function NonEmpty(pieces: seq<string>): (r: seq<string>)
    ensures forall i :: 0 <= i < |r| ==> r[i] != "" && r[i] in pieces
    ensures forall x :: x in pieces && x != "" ==> x in r
  {
    if pieces == [] then []
    else if pieces[0] == "" then NonEmpty(pieces[1..])
    else [pieces[0]] + NonEmpty(pieces[1..])
  }

  /** `Path.of(s)`. */
  function Parse(s: string): (p: JPath)
    ensures WellFormed(p)
    ensures p.absolute <==> |s| > 0 && s[0] == '/'
  {
    JPath(|s| > 0 && s[0] == '/', NonEmpty(Split(s, '/')))
  }

  /** `Path.toString()`. */
  function Show(p: JPath): string {
    (if p.absolute then "/" else "") + Join(p.names, "/")
  }

  /** `Path.resolve(other)`: an absolute `other` wins, otherwise the names
      are appended. */
  function Resolve(base: JPath, other: JPath): (r: JPath)
    ensures other.absolute ==> r == other
    ensures !other.absolute ==> r.absolute == base.absolute && r.names == base.names + other.names
  {
    if other.absolute then other else JPath(base.absolute, base.names + other.names)
  }

  function ResolveStr(base: JPath, other: string): JPath {
    Resolve(base, Parse(other))
  }

  /** `Path.normalize()`: "." names vanish, ".." removes the preceding name;
      a ".." that has nothing to remove is dropped under the root and kept in
      a relative path. */
  function Normalize(p: JPath): (r: JPath)
    ensures r.absolute == p.absolute
    ensures forall i :: 0 <= i < |r.names| ==> r.names[i] != "."
    ensures r.absolute ==> forall i :: 0 <= i < |r.names| ==> r.names[i] != ".."
    ensures forall i :: 0 <= i < |r.names| ==> r.names[i] in p.names
  {
    JPath(p.absolute, NormalizeNames(p.absolute, [], p.names))
  }

  /** Processes `rest` on top of the already-normalized `acc`. */
  function NormalizeNames(absolute: bool, acc: seq<string>, rest: seq<string>): (r: seq<string>)
    requires forall i :: 0 <= i < |acc| ==> acc[i] != "."
    requires absolute ==> forall i :: 0 <= i < |acc| ==> acc[i] != ".."
    ensures forall i :: 0 <= i < |r| ==> r[i] != "."
    ensures absolute ==> forall i :: 0 <= i < |r| ==> r[i] != ".."
    ensures forall i :: 0 <= i < |r| ==> r[i] in acc || r[i] in rest
    decreases |rest|
  {
    if rest == [] then acc
    else
      var n := rest[0];
      var acc' :=
        if n == "." then acc
        else if n == ".." then
          (if acc != [] && acc[|acc| - 1] != ".." then acc[..|acc| - 1]
           else if absolute then acc
           else acc + [n])
        else acc + [n];
      assert forall i :: 0 <= i < |acc'| ==> acc'[i] in acc || acc'[i] == n;
      NormalizeNames(absolute, acc', rest[1..])
  }

  /** `Path.startsWith(other)`: same rootedness and `other`'s names are a
      prefix of `p`'s; the empty path is a prefix only of itself. */
  predicate StartsWith(p: JPath, other: JPath) {
    p.absolute == other.absolute
    && |other.names| <= |p.names|
    && p.names[..|other.names|] == other.names
    && (other == Empty ==> p == Empty)
  }

  /** `Path.getParent()`: `None` for the root, the empty path and a single
      relative name. */
  function Parent(p: JPath): (r: Option<JPath>)
    ensures r.Some? ==> p.names != [] && r.value.absolute == p.absolute
                        && r.value.names + [p.names[|p.names| - 1]] == p.names
    ensures r.None? <==> p.names == [] || (!p.absolute && |p.names| == 1)
  {
    if p.names == [] || (!p.absolute && |p.names| == 1) then None
    else Some(JPath(p.absolute, p.names[..|p.names| - 1]))
  }

  /** `Path.getFileName()`: the last name; `None` for the root, "" for the
      empty path. */
  function FileName(p: JPath): (r: Option<string>)
    ensures r.None? <==> p == Root
    ensures p.names != [] ==> r == Some(p.names[|p.names| - 1])
  {
    if p.names != [] then Some(p.names[|p.names| - 1])
    else if p.absolute then None
    else Some("")
  }

  /** `Path.toAbsolutePath()` against the process working directory. */
  function ToAbsolute(p: JPath, cwd: JPath): (r: JPath)
    requires cwd.absolute
    ensures r.absolute
  {
    Resolve(cwd, p)
  }

  /** Normalizing twice is normalizing once. */
  lemma NormalizeIdempotent(p: JPath)
    ensures Normalize(Normalize(p)) == Normalize(p)
  {
    NormalizeIsNormal(p);
    NormalizeNamesStable(p.absolute, [], Normalize(p).names);
  }

  /** Re-normalizing a sequence of names that is already normal leaves it
      unchanged. */
  lemma {:induction false} NormalizeNamesStable(absolute: bool, acc: seq<string>, rest: seq<string>)
    requires forall i :: 0 <= i < |acc| ==> acc[i] != "."
    requires forall i :: 0 <= i < |rest| ==> rest[i] != "."
    requires absolute ==> forall i :: 0 <= i < |acc| ==> acc[i] != ".."
    requires absolute ==> forall i :: 0 <= i < |rest| ==> rest[i] != ".."
    requires IsNormal(acc + rest)
    ensures NormalizeNames(absolute, acc, rest) == acc + rest
    decreases |rest|
  {
    if rest != [] {
      assert (acc + rest)[|acc|] == rest[0];
      var n := rest[0];
      if n == ".." && !absolute {
        if acc != [] {
          assert (acc + rest)[|acc| - 1] == acc[|acc| - 1];
          assert acc[|acc| - 1] == "..";
        }
      }
      assert acc + [n] + rest[1..] == acc + rest;
      NormalizeNamesStable(absolute, acc + [n], rest[1..]);
    }
  }

  /** A normal name list: a ".." can only follow another "..". */
  predicate IsNormal(names: seq<string>) {
    forall i :: 0 < i < |names| && names[i] == ".." ==> names[i - 1] == ".."
  }

  lemma {:induction false} NormalizeNamesIsNormal(absolute: bool, acc: seq<string>, rest: seq<string>)
    requires forall i :: 0 <= i < |acc| ==> acc[i] != "."
    requires absolute ==> forall i :: 0 <= i < |acc| ==> acc[i] != ".."
    requires IsNormal(acc)
    ensures IsNormal(NormalizeNames(absolute, acc, rest))
    decreases |rest|
  {
    if rest != [] {
      var n := rest[0];
      var acc' :=
        if n == "." then acc
        else if n == ".." then
          (if acc != [] && acc[|acc| - 1] != ".." then acc[..|acc| - 1]
           else if absolute then acc
           else acc + [n])
        else acc + [n];
      assert IsNormal(acc');
      assert forall i :: 0 <= i < |acc'| ==> acc'[i] in acc || acc'[i] == n;
      NormalizeNamesIsNormal(absolute, acc', rest[1..]);
    }
  }

  lemma NormalizeIsNormal(p: JPath)
    ensures IsNormal(Normalize(p).names)
  {
    NormalizeNamesIsNormal(p.absolute, [], p.names);
  }

  /** The non-empty pieces of two runs of pieces. */
  lemma {:induction false} NonEmptyAppend(a: seq<string>, b: seq<string>)
    ensures NonEmpty(a + b) == NonEmpty(a) + NonEmpty(b)
  {
    if a == [] {
      assert a + b == b;
    } else {
      assert (a + b)[1..] == a[1..] + b;
      NonEmptyAppend(a[1..], b);
    }
  }

  /** The text `Path.of(first, more...)` parses: the non-empty further
      segments appended with a slash, none before the first when the text
      so far is empty. */
  function Glue(acc: string, more: seq<string>): string
    decreases |more|
  {
    if more == [] then acc
    else if more[0] == "" then Glue(acc, more[1..])
    else Glue(if acc == "" then more[0] else acc + "/" + more[0], more[1..])
  }

  /** `Path.of(first, more...)`. */
  function Of(first: string, more: seq<string>): JPath {
    Parse(Glue(first, more))
  }

  lemma {:induction false} GlueLast(acc: string, more: seq<string>, f: string)
    requires f != ""
    ensures Glue(acc, more + [f]) == if Glue(acc, more) == "" then f else Glue(acc, more) + "/" + f
    decreases |more|
  {
    if more == [] {
      assert more + [f] == [f];
      assert [f][1..] == [];
    } else {
      assert (more + [f])[1..] == more[1..] + [f];
      if more[0] == "" {
        GlueLast(acc, more[1..], f);
      } else {
        GlueLast(if acc == "" then more[0] else acc + "/" + more[0], more[1..], f);
      }
    }
  }

  /** A last segment without a slash becomes the last name of the path:
      its `getFileName`. */
  lemma OfLast(first: string, more: seq<string>, f: string)
    requires f != "" && '/' !in f
    ensures Of(first, more + [f]).names == Of(first, more).names + [f]
    ensures FileName(Of(first, more + [f])) == Some(f)
  {
    var g := Glue(first, more);
    GlueLast(first, more, f);
    if g == "" {
      assert Split(f, '/') == [f];
      assert NonEmpty([f]) == [f];
      assert Split(g, '/') == [""];
    } else {
      SplitAppendLast(g, f, '/');
      NonEmptyAppend(Split(g, '/'), [f]);
      assert NonEmpty([f]) == [f];
    }
  }

  /** Dropping empty pieces keeps a list that has none. */
  lemma {:induction false} NonEmptyKeeps(names: seq<string>)
    requires forall i :: 0 <= i < |names| ==> names[i] != ""
    ensures NonEmpty(names) == names
  {
    if names != [] {
      NonEmptyKeeps(names[1..]);
    }
  }

  /** A join of parts starts with its first part. */
  lemma JoinStartsWithFirst(parts: seq<string>, sep: string)
    requires parts != []
    ensures Join(parts, sep)[..|parts[0]|] == parts[0]
  {
  }

  /** `Path.of(p.toString())` gives back a well-formed path. */
  lemma ParseShow(p: JPath)
    requires WellFormed(p)
    ensures Parse(Show(p)) == p
  {
    var s := Show(p);
    if p.names == [] {
      if p.absolute {
        assert Split(s, '/') == [""] + Split("", '/');
      }
    } else {
      var j := Join(p.names, "/");
      SplitJoin(p.names, '/');
      NonEmptyKeeps(p.names);
      JoinStartsWithFirst(p.names, "/");
      assert j[0] == p.names[0][0];
      if p.absolute {
        assert s == "/" + j;
        assert s[1..] == j;
        assert Split(s, '/') == [""] + Split(j, '/');
        assert NonEmpty([""] + p.names) == NonEmpty(p.names);
      } else {
        assert s == j;
      }
    }
  }
}
