/** The POSIX flavour of Node.js `path` helpers used by the Tailwind plugin:
    `basename`, `extname`, `dirname` and `resolve`. Paths are built on the
    name-list model of `JPaths`, so trailing and doubled slashes vanish. */
module NodePaths {
  import opened Strings
  import opened JPaths

  /** The last non-empty segment of `s`, or "" when there is none. */
  function BaseName(s: string): (b: string)
    ensures '/' !in b
  {
    var names := Parse(s).names;
    if names == [] then "" else names[|names| - 1]
  }

  /** `path.extname`: from the last "." of the base name to its end; "" when
      the base name has no dot, starts with its only leading dot, or is "..". */
  function ExtName(s: string): (e: string)
    ensures e == "" || (e[0] == '.' && |e| < |BaseName(s)| && EndsWith(BaseName(s), e))
    ensures e != "" ==> '.' !in e[1..]
  {
    var b := BaseName(s);
    var k := LastIndexOf(b, '.');
    if b == ".." || k <= 0 then ""
    else
      assert b[k..][1..] == b[k + 1..];
      b[k..]
  }

  /** `path.dirname`: the parent directory, "/" for the root and "." for a
      single relative name. The path is normalized first, so repeated and
      trailing slashes are dropped: "a//b" gives "a", where Node keeps the
      slash before the last name and gives "a/". */
  function DirName(s: string): string {
    var p := Parse(s);
    match Parent(p)
    case Some(q) => Show(q)
    case None => if p.absolute then "/" else "."
  }

  /** `path.resolve(s)` against the working directory `cwd`: absolute and
      normalized. */
  function Resolve(cwd: JPath, s: string): (r: JPath)
    requires cwd.absolute
    ensures r.absolute
    ensures forall i :: 0 <= i < |r.names| ==> r.names[i] != "." && r.names[i] != ".."
  {
    Normalize(ToAbsolute(Parse(s), cwd))
  }

  /** `dirname` and `basename` split a path with a parent: parsing the
      directory gives every name but the last, and the base name is the
      last. A single relative name has "." as its directory. */
  lemma DirNameBaseName(s: string)
    requires Parse(s).names != []
    ensures Parse(s).absolute || |Parse(s).names| > 1 ==>
      Parse(DirName(s)).absolute == Parse(s).absolute
      && Parse(DirName(s)).names + [BaseName(s)] == Parse(s).names
    ensures !Parse(s).absolute && |Parse(s).names| == 1 ==> DirName(s) == "."
  {
    var p := Parse(s);
    match Parent(p)
    case Some(q) =>
      assert WellFormed(q) by {
        forall i | 0 <= i < |q.names| ensures q.names[i] != "" && '/' !in q.names[i] {
          assert q.names[i] == (q.names + [p.names[|p.names| - 1]])[i];
        }
      }
      ParseShow(q);
    case None =>
  }
}
