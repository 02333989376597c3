/** The breadth-first search for a marker file (`JarInspector.findAny`,
    `PackageJson.findBreadthFirst`): starting at a directory, each visited
    directory is checked for the file, and its subdirectories are queued in
    sorted order, symbolic links left out. The file system is a map from
    paths to what they are. */
module BreadthFirst {
  import opened Wrappers
  import opened Strings
  import opened JPaths

  datatype LinkTarget = ToDirectory | ToFile | Dangling

  datatype Kind = Directory | RegularFile | Link(to: LinkTarget)

  type Tree = map<JPath, Kind>

  const PackageJsonName := "package.json"
  const PomPropertiesName := "pom.properties"

  /** `Files.isDirectory`, which follows links. */
  predicate IsDirectory(fs: Tree, p: JPath) {
    p in fs && (fs[p] == Directory || fs[p] == Link(ToDirectory))
  }

  /** `Files.isRegularFile`, which follows links. */
  predicate IsRegularFile(fs: Tree, p: JPath) {
    p in fs && (fs[p] == RegularFile || fs[p] == Link(ToFile))
  }

  /** `d.resolve(name)` for a single name. */
  function Under(d: JPath, name: string): JPath {
    JPath(d.absolute, d.names + [name])
  }

  /** For a plain name, `Under` is `Path.resolve`. */
  lemma UnderIsResolve(d: JPath, name: string)
    requires name != "" && '/' !in name
    ensures ResolveStr(d, name) == Under(d, name)
  {
    assert Split(name, '/') == [name];
    assert NonEmpty([name]) == [name];
  }

  predicate IsChildOf(q: JPath, d: JPath) {
    q.absolute == d.absolute && q.names != [] && q.names[..|q.names| - 1] == d.names
  }

  function LastName(q: JPath): string
    requires q.names != []
  {
    q.names[|q.names| - 1]
  }

  // ---------------------------------------------------------------------
  // Sorted listing

  /** Lexicographic order by code point. Paths sort as Unix paths compare,
      byte by byte as unsigned values; for names encoded in UTF-8 that is
      the same order as by code point, and sibling paths compare as their
      last names do. */
  predicate Le(a: string, b: string) {
    a == [] || (b != [] && (a[0] < b[0] || (a[0] == b[0] && Le(a[1..], b[1..]))))
  }

  lemma {:induction false} LeTotal(a: string, b: string)
    ensures Le(a, b) || Le(b, a)
  {
    if a != [] && b != [] && a[0] == b[0] {
      LeTotal(a[1..], b[1..]);
    }
  }

  lemma {:induction false} LeTrans(a: string, b: string, c: string)
    requires Le(a, b) && Le(b, c)
    ensures Le(a, c)
  {
    if a != [] && b != [] && c != [] && a[0] == b[0] && b[0] == c[0] {
      LeTrans(a[1..], b[1..], c[1..]);
    }
  }

  lemma {:induction false} LeAntisymmetric(a: string, b: string)
    requires Le(a, b) && Le(b, a)
    ensures a == b
  {
    if a != [] && b != [] {
      LeAntisymmetric(a[1..], b[1..]);
      assert a == [a[0]] + a[1..] && b == [b[0]] + b[1..];
    }
  }

  predicate IsLeast(m: string, s: set<string>) {
    m in s && forall x :: x in s ==> Le(m, x)
  }

  lemma {:induction false} LeastExists(s: set<string>)
    requires s != {}
    ensures exists m :: IsLeast(m, s)
    decreases |s|
  {
    var x :| x in s;
    LeTotal(x, x);
    if s - {x} == {} {
      assert s == {x};
      assert IsLeast(x, s);
    } else {
      LeastExists(s - {x});
      var m :| IsLeast(m, s - {x});
      LeTotal(x, m);
      if Le(x, m) {
        forall y | y in s
          ensures Le(x, y)
        {
          if y != x {
            LeTrans(x, m, y);
          }
        }
        assert IsLeast(x, s);
      } else {
        assert IsLeast(m, s);
      }
    }
  }

  lemma LeastUnique(s: set<string>)
    ensures forall m, n :: IsLeast(m, s) && IsLeast(n, s) ==> m == n
  {
    forall m, n | IsLeast(m, s) && IsLeast(n, s)
      ensures m == n
    {
      LeAntisymmetric(m, n);
    }
  }

  /** `sorted()`: the least name first, then the rest sorted. */
  function SortNames(s: set<string>): seq<string>
    decreases |s|
  {
    if s == {} then []
    else
      LeastExists(s);
      LeastUnique(s);
      var m :| IsLeast(m, s);
      [m] + SortNames(s - {m})
  }

  /** The sorted names are the set's names, each once, in increasing
      order. */
  lemma {:induction false} SortNamesSorted(s: set<string>)
    ensures |SortNames(s)| == |s|
    ensures forall x :: x in SortNames(s) <==> x in s
    ensures forall i, j :: 0 <= i < j < |SortNames(s)| ==> Le(SortNames(s)[i], SortNames(s)[j]) && SortNames(s)[i] != SortNames(s)[j]
    decreases |s|
  {
    if s != {} {
      LeastExists(s);
      LeastUnique(s);
      var m :| IsLeast(m, s);
      var rest := SortNames(s - {m});
      SortNamesSorted(s - {m});
      assert SortNames(s) == [m] + rest;
      LeastBeforeSorted(m, s, rest);
    }
  }

  /** The least name of a set before the rest of it in increasing order
      is the whole set in increasing order. */
  lemma LeastBeforeSorted(m: string, s: set<string>, rest: seq<string>)
    requires IsLeast(m, s)
    requires |rest| == |s - {m}| && forall x :: x in rest <==> x in s - {m}
    requires forall i, j :: 0 <= i < j < |rest| ==> Le(rest[i], rest[j]) && rest[i] != rest[j]
    ensures |[m] + rest| == |s|
    ensures forall x :: x in [m] + rest <==> x in s
    ensures forall i, j :: 0 <= i < j < |[m] + rest| ==> Le(([m] + rest)[i], ([m] + rest)[j]) && ([m] + rest)[i] != ([m] + rest)[j]
  {
    var r := [m] + rest;
    assert |s - {m}| == |s| - 1;
    forall x
      ensures x in r <==> x in s
    {
      assert x in r <==> x == m || x in rest;
    }
    forall i, j | 0 <= i < j < |r|
      ensures Le(r[i], r[j]) && r[i] != r[j]
    {
      assert r[j] == rest[j - 1] && rest[j - 1] in s - {m};
      if i > 0 {
        assert r[i] == rest[i - 1];
      }
    }
  }

  /** The names of the real subdirectories of `d`: `Files.isDirectory`
      and not `Files.isSymbolicLink`. */
  function SubdirNames(fs: Tree, d: JPath): set<string> {
    set q | q in fs.Keys && IsChildOf(q, d) && fs[q] == Directory :: LastName(q)
  }

  /** What `Files.list(d).sorted()` keeps for the queue. */
  function Subdirs(fs: Tree, d: JPath): seq<JPath> {
    var names := SortNames(SubdirNames(fs, d));
    seq(|names|, i requires 0 <= i < |names| => Under(d, names[i]))
  }

  lemma SubdirAt(fs: Tree, d: JPath, i: int)
    requires 0 <= i < |Subdirs(fs, d)|
    ensures |Subdirs(fs, d)| == |SortNames(SubdirNames(fs, d))|
    ensures Subdirs(fs, d)[i] == Under(d, SortNames(SubdirNames(fs, d))[i])
  {
  }

  lemma SubdirsAreChildren(fs: Tree, d: JPath)
    ensures forall i :: 0 <= i < |Subdirs(fs, d)| ==>
      Subdirs(fs, d)[i] in fs && fs[Subdirs(fs, d)[i]] == Directory && IsChildOf(Subdirs(fs, d)[i], d)
  {
    var names := SortNames(SubdirNames(fs, d));
    SortNamesSorted(SubdirNames(fs, d));
    forall i | 0 <= i < |Subdirs(fs, d)|
      ensures Subdirs(fs, d)[i] in fs && fs[Subdirs(fs, d)[i]] == Directory && IsChildOf(Subdirs(fs, d)[i], d)
    {
      SubdirAt(fs, d, i);
      assert names[i] in SubdirNames(fs, d);
      var q :| q in fs.Keys && IsChildOf(q, d) && fs[q] == Directory && LastName(q) == names[i];
      assert q.names == q.names[..|q.names| - 1] + [LastName(q)];
      assert q == Subdirs(fs, d)[i];
    }
  }

  lemma SubdirsComplete(fs: Tree, d: JPath)
    ensures forall q :: q in fs && fs[q] == Directory && IsChildOf(q, d) ==> q in Subdirs(fs, d)
  {
    var names := SortNames(SubdirNames(fs, d));
    SortNamesSorted(SubdirNames(fs, d));
    forall q | q in fs && fs[q] == Directory && IsChildOf(q, d)
      ensures q in Subdirs(fs, d)
    {
      assert LastName(q) in SubdirNames(fs, d);
      var i :| 0 <= i < |names| && names[i] == LastName(q);
      SubdirAt(fs, d, i);
      assert q.names == q.names[..|q.names| - 1] + [LastName(q)];
      assert Subdirs(fs, d)[i] == q;
    }
  }

  lemma SubdirsSorted(fs: Tree, d: JPath)
    ensures forall i, j :: 0 <= i < j < |Subdirs(fs, d)| ==>
      Le(LastName(Subdirs(fs, d)[i]), LastName(Subdirs(fs, d)[j])) && Subdirs(fs, d)[i] != Subdirs(fs, d)[j]
  {
    var names := SortNames(SubdirNames(fs, d));
    SortNamesSorted(SubdirNames(fs, d));
    forall i, j | 0 <= i < j < |Subdirs(fs, d)|
      ensures Le(LastName(Subdirs(fs, d)[i]), LastName(Subdirs(fs, d)[j])) && Subdirs(fs, d)[i] != Subdirs(fs, d)[j]
    {
      SubdirAt(fs, d, i);
      SubdirAt(fs, d, j);
      assert LastName(Subdirs(fs, d)[i]) == names[i];
      assert LastName(Subdirs(fs, d)[j]) == names[j];
    }
  }

  /** The queued subdirectories are exactly the real subdirectories of
      `d`, each once, in increasing order of name. */
  lemma SubdirsListing(fs: Tree, d: JPath)
    ensures forall i :: 0 <= i < |Subdirs(fs, d)| ==>
      Subdirs(fs, d)[i] in fs && fs[Subdirs(fs, d)[i]] == Directory && IsChildOf(Subdirs(fs, d)[i], d)
    ensures forall q :: q in fs && fs[q] == Directory && IsChildOf(q, d) ==> q in Subdirs(fs, d)
    ensures forall i, j :: 0 <= i < j < |Subdirs(fs, d)| ==>
      Le(LastName(Subdirs(fs, d)[i]), LastName(Subdirs(fs, d)[j])) && Subdirs(fs, d)[i] != Subdirs(fs, d)[j]
  {
    SubdirsAreChildren(fs, d);
    SubdirsComplete(fs, d);
    SubdirsSorted(fs, d);
  }

  // ---------------------------------------------------------------------
  // The visiting order

  /** The subdirectories of each directory of `f`, in turn: what the queue
      receives while `f` is polled. */
  function NextLevel(fs: Tree, f: seq<JPath>): seq<JPath> {
    if f == [] then [] else Subdirs(fs, f[0]) + NextLevel(fs, f[1..])
  }

  lemma {:induction false} NextLevelAppend(fs: Tree, a: seq<JPath>, b: seq<JPath>)
    ensures NextLevel(fs, a + b) == NextLevel(fs, a) + NextLevel(fs, b)
  {
    if a == [] {
      assert a + b == b;
    } else {
      assert (a + b)[0] == a[0];
      assert (a + b)[1..] == a[1..] + b;
      NextLevelAppend(fs, a[1..], b);
    }
  }

  /** The next level holds real directories only. */
  lemma {:induction false} NextLevelDirs(fs: Tree, f: seq<JPath>)
    ensures forall i :: 0 <= i < |NextLevel(fs, f)| ==> NextLevel(fs, f)[i] in fs && fs[NextLevel(fs, f)[i]] == Directory
  {
    if f != [] {
      NextLevelDirs(fs, f[1..]);
      SubdirsListing(fs, f[0]);
      var s: seq<JPath> := Subdirs(fs, f[0]);
      var rest: seq<JPath> := NextLevel(fs, f[1..]);
      var all: seq<JPath> := s + rest;
      forall i | 0 <= i < |all|
        ensures all[i] in fs && fs[all[i]] == Directory
      {
        if i >= |s| {
          assert all[i] == rest[i - |s|];
        }
      }
    }
  }

  /** The next level lies one level deeper. */
  lemma {:induction false} NextLevelDepth(fs: Tree, f: seq<JPath>, depth: nat)
    requires AtDepth(f, depth)
    ensures AtDepth(NextLevel(fs, f), depth + 1)
  {
    if f != [] {
      NextLevelDepth(fs, f[1..], depth);
      SubdirsListing(fs, f[0]);
      var s: seq<JPath> := Subdirs(fs, f[0]);
      var rest: seq<JPath> := NextLevel(fs, f[1..]);
      var all: seq<JPath> := s + rest;
      forall i | 0 <= i < |all|
        ensures |all[i].names| == depth + 1
      {
        if i < |s| {
          assert IsChildOf(s[i], f[0]);
        } else {
          assert all[i] == rest[i - |s|];
        }
      }
    }
  }

  /** Every path of `f` has `depth` names. */
  predicate AtDepth(f: seq<JPath>, depth: nat) {
    forall i :: 0 <= i < |f| ==> |f[i].names| == depth
  }

  /** The directories deeper than `depth`. */
  function Deeper(fs: Tree, depth: nat): set<JPath> {
    set q | q in fs.Keys && |q.names| > depth
  }

  /** Level after level, starting with `f`, all at the given depth. */
  function Levels(fs: Tree, f: seq<JPath>, depth: nat): (r: seq<JPath>)
    requires f != []
    requires AtDepth(f, depth)
    decreases Deeper(fs, depth)
  {
    var next := NextLevel(fs, f);
    if next == [] then f
    else
      NextLevelDirs(fs, f);
      NextLevelDepth(fs, f, depth);
      assert next[0] in Deeper(fs, depth) && next[0] !in Deeper(fs, depth + 1);
      f + Levels(fs, next, depth + 1)
  }

  /** The order in which the queue visits directories: the start when it
      is a directory, then level after level. */
  function Order(fs: Tree, root: JPath): seq<JPath> {
    if IsDirectory(fs, root) then Levels(fs, [root], |root.names|) else []
  }

  lemma {:induction false} LevelsNext(fs: Tree, f: seq<JPath>, depth: nat)
    requires f != []
    requires AtDepth(f, depth)
    ensures AtDepth(NextLevel(fs, f), depth + 1)
    ensures var next := NextLevel(fs, f);
      NextLevel(fs, Levels(fs, f, depth)) == if next == [] then [] else Levels(fs, next, depth + 1)
    decreases Deeper(fs, depth)
  {
    NextLevelDepth(fs, f, depth);
    var next := NextLevel(fs, f);
    if next != [] {
      NextLevelDirs(fs, f);
      assert next[0] in Deeper(fs, depth) && next[0] !in Deeper(fs, depth + 1);
      LevelsNext(fs, next, depth + 1);
      LevelsNextStep(fs, f, depth);
    }
  }

  /** The step of `LevelsNext`: the level after all levels from `f` is the
      levels from `f`'s next level without their first. */
  lemma LevelsNextStep(fs: Tree, f: seq<JPath>, depth: nat)
    requires f != [] && AtDepth(f, depth)
    requires NextLevel(fs, f) != []
    requires AtDepth(NextLevel(fs, f), depth + 1)
    requires var next := NextLevel(fs, f);
      AtDepth(NextLevel(fs, next), depth + 2)
    requires var next := NextLevel(fs, f);
      NextLevel(fs, Levels(fs, next, depth + 1))
        == if NextLevel(fs, next) == [] then [] else Levels(fs, NextLevel(fs, next), depth + 2)
    ensures NextLevel(fs, Levels(fs, f, depth)) == Levels(fs, NextLevel(fs, f), depth + 1)
  {
    var next := NextLevel(fs, f);
    var rest := Levels(fs, next, depth + 1);
    LevelsCons(fs, f, depth);
    NextLevelAppend(fs, f, rest);
    LevelsCons(fs, next, depth + 1);
    if NextLevel(fs, next) == [] {
      assert next + [] == next;
    }
  }

  /** One unfolding of `Levels`. */
  lemma LevelsCons(fs: Tree, f: seq<JPath>, depth: nat)
    requires f != [] && AtDepth(f, depth)
    ensures NextLevel(fs, f) == [] ==> Levels(fs, f, depth) == f
    ensures NextLevel(fs, f) != [] ==> Deeper(fs, depth + 1) < Deeper(fs, depth)
    ensures NextLevel(fs, f) != [] ==>
      (AtDepth(NextLevel(fs, f), depth + 1))
      && Levels(fs, f, depth) == f + Levels(fs, NextLevel(fs, f), depth + 1)
  {
    NextLevelDepth(fs, f, depth);
    var next := NextLevel(fs, f);
    if next != [] {
      NextLevelDirs(fs, f);
      assert next[0] in Deeper(fs, depth) && next[0] !in Deeper(fs, depth + 1);
    }
  }

  /** The queue's order is the start followed by the subdirectories of
      every directory in that same order. */
  lemma OrderFixpoint(fs: Tree, root: JPath)
    requires IsDirectory(fs, root)
    ensures Order(fs, root) == [root] + NextLevel(fs, Order(fs, root))
  {
    LevelsNext(fs, [root], |root.names|);
    assert NextLevel(fs, [root]) == Subdirs(fs, root) + NextLevel(fs, []);
  }

  /** While part of a level-order run is visited, what has been queued
      reaches past it. */
  lemma {:induction false} LevelsCovered(fs: Tree, f: seq<JPath>, depth: nat)
    requires f != []
    requires AtDepth(f, depth)
    ensures forall k :: 0 <= k < |Levels(fs, f, depth)| ==> k + 1 <= |f| + |NextLevel(fs, Levels(fs, f, depth)[..k])|
    decreases Deeper(fs, depth)
  {
    var g := Levels(fs, f, depth);
    var next := NextLevel(fs, f);
    if next != [] {
      NextLevelDirs(fs, f);
      NextLevelDepth(fs, f, depth);
      assert next[0] in Deeper(fs, depth) && next[0] !in Deeper(fs, depth + 1);
      var h := Levels(fs, next, depth + 1);
      assert g == f + h;
      LevelsCovered(fs, next, depth + 1);
      forall k | |f| <= k < |g|
        ensures k + 1 <= |f| + |NextLevel(fs, g[..k])|
      {
        var k' := k - |f|;
        assert g[..k] == f + h[..k'];
        NextLevelAppend(fs, f, h[..k']);
      }
    }
  }

  // ---------------------------------------------------------------------
  // Breadth-first facts

  /** Every directory visited after the start is a real directory, never a
      link. */
  lemma OrderSkipsLinks(fs: Tree, root: JPath)
    ensures forall i :: 0 < i < |Order(fs, root)| ==> Order(fs, root)[i] in fs && fs[Order(fs, root)[i]] == Directory
  {
    if IsDirectory(fs, root) {
      OrderFixpoint(fs, root);
      var o := Order(fs, root);
      var n := NextLevel(fs, o);
      NextLevelDirs(fs, o);
      forall i | 0 < i < |o|
        ensures o[i] in fs && fs[o[i]] == Directory
      {
        assert o[i] == n[i - 1];
      }
    }
  }

  /** Every real subdirectory of a visited directory is visited too. */
  lemma OrderClosed(fs: Tree, root: JPath, d: JPath, c: JPath)
    requires d in Order(fs, root)
    requires c in fs && fs[c] == Directory && IsChildOf(c, d)
    ensures c in Order(fs, root)
  {
    OrderFixpoint(fs, root);
    var o := Order(fs, root);
    var i :| 0 <= i < |o| && o[i] == d;
    SubdirsComplete(fs, d);
    SubdirsInNextLevel(fs, o, i, c);
  }

  /** The subdirectories of any directory of a level belong to the next. */
  lemma {:induction false} SubdirsInNextLevel(fs: Tree, f: seq<JPath>, i: nat, c: JPath)
    requires i < |f| && c in Subdirs(fs, f[i])
    ensures c in NextLevel(fs, f)
  {
    if i > 0 {
      SubdirsInNextLevel(fs, f[1..], i - 1, c);
    }
  }

  /** Breadth first: a directory is never visited before a shallower one. */
  lemma {:induction false} LevelsByDepth(fs: Tree, f: seq<JPath>, depth: nat)
    requires f != []
    requires AtDepth(f, depth)
    ensures DepthOrdered(Levels(fs, f, depth), depth)
    decreases Deeper(fs, depth)
  {
    LevelsCons(fs, f, depth);
    var next := NextLevel(fs, f);
    if next != [] {
      LevelsByDepth(fs, next, depth + 1);
      DepthOrderedAppend(f, Levels(fs, next, depth + 1), depth);
    } else {
      DepthOrderedAppend(f, [], depth);
      assert f + [] == f;
    }
  }

  /** All paths of `g` have at least `depth` names, shallower ones first. */
  predicate DepthOrdered(g: seq<JPath>, depth: nat) {
    && (forall i :: 0 <= i < |g| ==> |g[i].names| >= depth)
    && (forall i, j :: 0 <= i < j < |g| ==> |g[i].names| <= |g[j].names|)
  }

  /** A level at `depth` followed by paths ordered by depth, all deeper,
      is ordered by depth. */
  lemma DepthOrderedAppend(f: seq<JPath>, h: seq<JPath>, depth: nat)
    requires AtDepth(f, depth)
    requires DepthOrdered(h, depth + 1)
    ensures DepthOrdered(f + h, depth)
  {
    var g := f + h;
    forall i, j | 0 <= i < j < |g|
      ensures |g[i].names| <= |g[j].names|
    {
      if j >= |f| {
        assert g[j] == h[j - |f|];
        if i >= |f| {
          assert g[i] == h[i - |f|];
        } else {
          assert g[i] == f[i];
        }
      } else {
        assert g[i] == f[i] && g[j] == f[j];
      }
    }
    forall i | 0 <= i < |g|
      ensures |g[i].names| >= depth
    {
      if i >= |f| {
        assert g[i] == h[i - |f|];
      } else {
        assert g[i] == f[i];
      }
    }
  }


  lemma OrderByDepth(fs: Tree, root: JPath)
    ensures forall i, j :: 0 <= i < j < |Order(fs, root)| ==> |Order(fs, root)[i].names| <= |Order(fs, root)[j].names|
  {
    if IsDirectory(fs, root) {
      LevelsByDepth(fs, [root], |root.names|);
    }
  }

  // ---------------------------------------------------------------------
  // The search

  /** The directory holds the marker as a regular file. */
  predicate Marked(fs: Tree, d: JPath, fileName: string) {
    IsRegularFile(fs, Under(d, fileName))
  }

  /** The marker paths of the marked directories, in order. */
  function Matches(fs: Tree, order: seq<JPath>, fileName: string): (r: seq<JPath>)
    ensures forall i :: 0 <= i < |r| ==> IsRegularFile(fs, r[i])
    ensures |r| <= |order|
  {
    if order == [] then []
    else (if Marked(fs, order[0], fileName) then [Under(order[0], fileName)] else []) + Matches(fs, order[1..], fileName)
  }

  lemma {:induction false} MatchesAppend(fs: Tree, a: seq<JPath>, b: seq<JPath>, fileName: string)
    ensures Matches(fs, a + b, fileName) == Matches(fs, a, fileName) + Matches(fs, b, fileName)
  {
    if a == [] {
      assert a + b == b;
    } else {
      assert (a + b)[0] == a[0];
      assert (a + b)[1..] == a[1..] + b;
      MatchesAppend(fs, a[1..], b, fileName);
    }
  }

  /** The first match belongs to the first marked directory of the order,
      and there is none exactly when no directory is marked. */
  lemma {:induction false} MatchesFirst(fs: Tree, order: seq<JPath>, fileName: string)
    ensures Matches(fs, order, fileName) == [] <==> forall i :: 0 <= i < |order| ==> !Marked(fs, order[i], fileName)
    ensures Matches(fs, order, fileName) != [] ==>
      exists i :: 0 <= i < |order| && Marked(fs, order[i], fileName)
        && Matches(fs, order, fileName)[0] == Under(order[i], fileName)
        && forall j :: 0 <= j < i ==> !Marked(fs, order[j], fileName)
  {
    if order != [] {
      MatchesFirst(fs, order[1..], fileName);
      if !Marked(fs, order[0], fileName) {
        if Matches(fs, order[1..], fileName) != [] {
          var i :| 0 <= i < |order[1..]| && Marked(fs, order[1..][i], fileName)
            && Matches(fs, order[1..], fileName)[0] == Under(order[1..][i], fileName)
            && forall j :: 0 <= j < i ==> !Marked(fs, order[1..][j], fileName);
          assert order[1..][i] == order[i + 1];
          forall j | 0 <= j < i + 1
            ensures !Marked(fs, order[j], fileName)
          {
            if j > 0 {
              assert order[j] == order[1..][j - 1];
            }
          }
        } else {
          forall i | 0 <= i < |order|
            ensures !Marked(fs, order[i], fileName)
          {
            if i > 0 {
              assert order[i] == order[1..][i - 1];
            }
          }
        }
      }
    }
  }

  /** Every marker file found, in visiting order. */
  function FindAll(fs: Tree, root: JPath, fileName: string): seq<JPath> {
    Matches(fs, Order(fs, root), fileName)
  }

  /** The first marker file found, if any. */
  function FindFirst(fs: Tree, root: JPath, fileName: string): Option<JPath> {
    var all := FindAll(fs, root, fileName);
    if all == [] then None else Some(all[0])
  }

  /** The first result is the marker of the earliest marked directory in
      visiting order; there is none exactly when no visited directory is
      marked. */
  lemma FindFirstIsEarliest(fs: Tree, root: JPath, fileName: string)
    ensures FindFirst(fs, root, fileName).None? <==>
      forall i :: 0 <= i < |Order(fs, root)| ==> !Marked(fs, Order(fs, root)[i], fileName)
    ensures FindFirst(fs, root, fileName).Some? ==>
      exists i :: 0 <= i < |Order(fs, root)| && Marked(fs, Order(fs, root)[i], fileName)
        && FindFirst(fs, root, fileName).value == Under(Order(fs, root)[i], fileName)
        && forall j :: 0 <= j < i ==> !Marked(fs, Order(fs, root)[j], fileName)
  {
    MatchesFirst(fs, Order(fs, root), fileName);
  }

  /** The start directory is checked before anything below it. */
  lemma RootCheckedFirst(fs: Tree, root: JPath, fileName: string)
    requires IsDirectory(fs, root) && Marked(fs, root, fileName)
    ensures FindFirst(fs, root, fileName) == Some(Under(root, fileName))
  {
    OrderFixpoint(fs, root);
  }

  /** Once the queue is empty every directory of the order has been
      visited. */
  lemma QueueExhausted(fs: Tree, root: JPath, visited: seq<JPath>)
    requires IsDirectory(fs, root)
    requires |visited| <= |Order(fs, root)| && visited == Order(fs, root)[..|visited|]
    requires |[root] + NextLevel(fs, visited)| == |visited|
    ensures visited == Order(fs, root)
  {
    LevelsCovered(fs, [root], |root.names|);
  }

  /** What the queue has received so far is the visiting order up to
      some point. */
  lemma QueuedIsPrefix(fs: Tree, root: JPath, visited: seq<JPath>)
    requires IsDirectory(fs, root)
    requires |visited| <= |Order(fs, root)| && visited == Order(fs, root)[..|visited|]
    ensures var queued := [root] + NextLevel(fs, visited);
      |queued| <= |Order(fs, root)| && queued == Order(fs, root)[..|queued|]
  {
    var o := Order(fs, root);
    OrderFixpoint(fs, root);
    var rest := o[|visited|..];
    PrefixSplit(o, visited, rest);
    NextLevelAppend(fs, visited, rest);
    PrefixOfJoin(o, [root], NextLevel(fs, visited), NextLevel(fs, rest));
  }

  lemma PrefixSplit<T>(o: seq<T>, p: seq<T>, rest: seq<T>)
    requires |p| <= |o| && p == o[..|p|] && rest == o[|p|..]
    ensures o == p + rest
  {
  }

  /** The front of a sequence written as three parts is a prefix of it. */
  lemma PrefixOfJoin<T>(o: seq<T>, a: seq<T>, b: seq<T>, c: seq<T>)
    requires o == a + (b + c)
    ensures |a + b| <= |o| && a + b == o[..|a + b|]
  {
    assert o == (a + b) + c;
  }

  /** The queue after `visited` have been polled: the rest of what has
      been queued so far, the visited directories being the start of the
      visiting order. */
  ghost predicate Visiting(fs: Tree, root: JPath, visited: seq<JPath>, queue: seq<JPath>) {
    IsDirectory(fs, root)
    && |visited| <= |Order(fs, root)| && visited == Order(fs, root)[..|visited|]
    && |visited| <= |[root] + NextLevel(fs, visited)|
    && queue == ([root] + NextLevel(fs, visited))[|visited|..]
  }

  /** Polling the head of the queue visits the next directory of the
      order and queues its subdirectories. */
  lemma VisitStep(fs: Tree, root: JPath, visited: seq<JPath>, queue: seq<JPath>)
    requires Visiting(fs, root, visited, queue) && queue != []
    ensures |visited| < |Order(fs, root)| && queue[0] == Order(fs, root)[|visited|]
    ensures Visiting(fs, root, visited + [queue[0]], queue[1..] + Subdirs(fs, queue[0]))
  {
    QueuedIsPrefix(fs, root, visited);
    var c := queue[0];
    NextLevelAppend(fs, visited, [c]);
    assert NextLevel(fs, [c]) == Subdirs(fs, c) + NextLevel(fs, []);
    var queued := [root] + NextLevel(fs, visited);
    QueueAfterPoll(root, NextLevel(fs, visited), Subdirs(fs, c), |visited|);
  }

  /** Polling the head of the unvisited part of what has been queued and
      queueing more at the back. */
  lemma QueueAfterPoll<T>(root: T, level: seq<T>, more: seq<T>, k: nat)
    requires k < |[root] + level|
    ensures [root] + (level + more) == ([root] + level) + more
    ensures (([root] + level) + more)[k + 1..] == ([root] + level)[k..][1..] + more
  {
  }

  lemma MatchesStep(fs: Tree, visited: seq<JPath>, c: JPath, fileName: string)
    ensures Matches(fs, visited + [c], fileName)
      == Matches(fs, visited, fileName) + (if Marked(fs, c, fileName) then [Under(c, fileName)] else [])
  {
    MatchesAppend(fs, visited, [c], fileName);
  }

  /** A marked directory visited after unmarked ones holds the first
      result. */
  lemma FirstMatchFound(fs: Tree, order: seq<JPath>, k: nat, fileName: string)
    requires k < |order| && Marked(fs, order[k], fileName)
    requires Matches(fs, order[..k], fileName) == []
    ensures Matches(fs, order, fileName) != [] && Matches(fs, order, fileName)[0] == Under(order[k], fileName)
  {
    assert order == order[..k] + ([order[k]] + order[k + 1..]);
    MatchesAppend(fs, order[..k], [order[k]] + order[k + 1..], fileName);
  }

  /** `findAny`: the queue-driven search. With `multiple` every marker
      found, otherwise the first one only; nothing when the start is not a
      directory. */
  method FindAny(fs: Tree, root: JPath, multiple: bool, fileName: string) returns (paths: seq<JPath>)
    ensures !IsDirectory(fs, root) ==> paths == []
    ensures multiple ==> paths == FindAll(fs, root, fileName)
    ensures !multiple ==> paths == (if FindAll(fs, root, fileName) == [] then [] else [FindAll(fs, root, fileName)[0]])
  {
    if !IsDirectory(fs, root) {
      return [];
    }
    paths := [];
    var queue := [root];
    ghost var visited: seq<JPath> := [];
    assert NextLevel(fs, visited) == [];
    while queue != []
      invariant Visiting(fs, root, visited, queue)
      invariant multiple ==> paths == Matches(fs, visited, fileName)
      invariant !multiple ==> paths == [] && Matches(fs, visited, fileName) == []
      decreases |Order(fs, root)| - |visited|
    {
      VisitStep(fs, root, visited, queue);
      var current := queue[0];
      MatchesStep(fs, visited, current, fileName);
      if IsRegularFile(fs, Under(current, fileName)) {
        var found := Under(current, fileName);
        if multiple {
          paths := paths + [found];
        } else {
          FirstMatchFound(fs, Order(fs, root), |visited|, fileName);
          return [found];
        }
      }
      queue := queue[1..] + Subdirs(fs, current);
      visited := visited + [current];
    }
    QueueExhausted(fs, root, visited);
  }

  /** `findPackageJsons`. */
  method FindPackageJsons(fs: Tree, dir: JPath, multiple: bool) returns (paths: seq<JPath>)
    ensures multiple ==> paths == FindAll(fs, dir, PackageJsonName)
    ensures !multiple ==> paths == (if FindAll(fs, dir, PackageJsonName) == [] then [] else [FindAll(fs, dir, PackageJsonName)[0]])
  {
    paths := FindAny(fs, dir, multiple, PackageJsonName);
  }

  /** `findPomProperties`: the first pom.properties found, or none. */
  method FindPomProperties(fs: Tree, dir: JPath) returns (r: Option<JPath>)
    ensures r == FindFirst(fs, dir, PomPropertiesName)
  {
    var found := FindAny(fs, dir, false, PomPropertiesName);
    r := if found == [] then None else Some(found[0]);
  }

  /** `PackageJson.findPackageJson`: nothing unless the start is a
      directory, else the first package.json found. */
  method FindPackageJson(fs: Tree, dir: JPath) returns (r: Option<JPath>)
    ensures !IsDirectory(fs, dir) ==> r == None
    ensures r == FindFirst(fs, dir, PackageJsonName)
  {
    if !IsDirectory(fs, dir) {
      return None;
    }
    var found := FindAny(fs, dir, false, PackageJsonName);
    r := if found == [] then None else Some(found[0]);
  }
}
