/** The handful of Java `String` and JavaScript string operations the model
    relies on, each written out so that its edge cases are explicit.
    Case mapping is ASCII-only: it is what Java's locale-sensitive
    `toLowerCase`/`toUpperCase` do under a default locale without the
    Turkic rules, which would map 'I' to 'ı' and 'i' to 'İ'. */
module Strings {

  predicate IsUpper(c: char) {
    'A' <= c <= 'Z'
  }

  predicate IsLower(c: char) {
    'a' <= c <= 'z'
  }

  predicate IsDigit(c: char) {
    '0' <= c <= '9'
  }

  function LowerChar(c: char): (r: char)
    ensures !IsUpper(r)
    ensures !IsUpper(c) ==> r == c
  {
    if IsUpper(c) then (c as int + 32) as char else c
  }

  function UpperChar(c: char): (r: char)
    ensures !IsLower(r)
    ensures !IsLower(c) ==> r == c
  {
    if IsLower(c) then (c as int - 32) as char else c
  }

  /** `String.toLowerCase` restricted to ASCII letters. */
  function ToLower(s: string): (r: string)
    ensures |r| == |s|
    ensures forall i :: 0 <= i < |s| ==> r[i] == LowerChar(s[i])
  {
    if s == [] then [] else [LowerChar(s[0])] + ToLower(s[1..])
  }

  /** `String.toUpperCase` restricted to ASCII letters. */
  function ToUpper(s: string): (r: string)
    ensures |r| == |s|
    ensures forall i :: 0 <= i < |s| ==> r[i] == UpperChar(s[i])
  {
    if s == [] then [] else [UpperChar(s[0])] + ToUpper(s[1..])
  }

  predicate HasUpper(s: string) {
    exists i :: 0 <= i < |s| && IsUpper(s[i])
  }

  lemma ToLowerHasNoUpper(s: string)
    ensures !HasUpper(ToLower(s))
  {
  }

  lemma ToLowerIdentity(s: string)
    requires !HasUpper(s)
    ensures ToLower(s) == s
  {
  }

  lemma ToLowerConcat(a: string, b: string)
    ensures ToLower(a + b) == ToLower(a) + ToLower(b)
  {
    var l, r := ToLower(a + b), ToLower(a) + ToLower(b);
    assert |l| == |r|;
    forall i | 0 <= i < |l| ensures l[i] == r[i] {
      if i < |a| { assert (a + b)[i] == a[i]; } else { assert (a + b)[i] == b[i - |a|]; }
    }
  }

  predicate StartsWith(s: string, p: string) {
    |p| <= |s| && s[..|p|] == p
  }

  predicate EndsWith(s: string, p: string) {
    |p| <= |s| && s[|s| - |p|..] == p
  }

  /** `String.contains`: `p` occurs at some position of `s`. */
  predicate Contains(s: string, p: string) {
    exists i :: 0 <= i <= |s| - |p| && OccursAt(s, p, i)
  }

  predicate OccursAt(s: string, p: string, i: int) {
    0 <= i <= |s| - |p| && s[i..i + |p|] == p
  }

  predicate ContainsChar(s: string, c: char) {
    c in s
  }

  /** `String.lastIndexOf(char)`: the last position of `c`, or -1. */
  function LastIndexOf(s: string, c: char): (r: int)
    ensures -1 <= r < |s|
    ensures r >= 0 ==> s[r] == c
    ensures forall i :: r < i < |s| ==> s[i] != c
  {
    if s == [] then -1
    else if s[|s| - 1] == c then |s| - 1
    else LastIndexOf(s[..|s| - 1], c)
  }

  lemma LastIndexOfNone(s: string, c: char)
    ensures LastIndexOf(s, c) == -1 <==> c !in s
  {
  }

  /** `String.replace(char, char)` (and `replaceAll` with a one-character
      literal pattern). */
  function ReplaceChar(s: string, a: char, b: char): (r: string)
    ensures |r| == |s|
    ensures forall i :: 0 <= i < |s| ==> r[i] == (if s[i] == a then b else s[i])
  {
    if s == [] then [] else [if s[0] == a then b else s[0]] + ReplaceChar(s[1..], a, b)
  }

  /** `String.replace(CharSequence, CharSequence)` for a non-empty literal
      target: left to right, non-overlapping. */
  function Replace(s: string, pat: string, rep: string): string
    requires |pat| > 0
    decreases |s|
  {
    if |s| < |pat| then s
    else if s[..|pat|] == pat then rep + Replace(s[|pat|..], pat, rep)
    else [s[0]] + Replace(s[1..], pat, rep)
  }

  lemma {:induction false} ReplaceAbsent(s: string, pat: string, rep: string)
    requires |pat| > 0
    requires !Contains(s, pat)
    ensures Replace(s, pat, rep) == s
    decreases |s|
  {
    if |s| < |pat| {
    } else {
      assert !OccursAt(s, pat, 0);
      assert s[0..|pat|] == s[..|pat|];
      if Contains(s[1..], pat) {
        var i :| 0 <= i <= |s[1..]| - |pat| && OccursAt(s[1..], pat, i);
        assert s[1..][i..i + |pat|] == s[i + 1..i + 1 + |pat|];
        assert OccursAt(s, pat, i + 1);
        assert false;
      }
      ReplaceAbsent(s[1..], pat, rep);
    }
  }

  /** No non-empty proper prefix of `pat` ends `a`: an occurrence of `pat`
      in `a + b` cannot start inside `a` and end past it. */
  predicate NoOverhang(a: string, pat: string) {
    forall k :: 0 < k < |pat| && k <= |a| ==> a[|a| - k..] != pat[..k]
  }

  /** A replacement runs separately over the two halves of a concatenation
      when no occurrence straddles the seam. */
  lemma {:induction false} ReplaceConcat(a: string, b: string, pat: string, rep: string)
    requires |pat| > 0 && NoOverhang(a, pat)
    ensures Replace(a + b, pat, rep) == Replace(a, pat, rep) + Replace(b, pat, rep)
    decreases |a|
  {
    var s := a + b;
    if a == [] {
      assert s == b;
    } else if |s| < |pat| {
    } else if s[..|pat|] == pat {
      if |a| < |pat| {
        ShortNoMatch(a, b, pat);
        assert false;
      }
      assert a[..|pat|] == pat;
      assert s[|pat|..] == a[|pat|..] + b;
      NoOverhangSuffix(a, |pat|, pat);
      ReplaceConcat(a[|pat|..], b, pat, rep);
    } else {
      assert s[1..] == a[1..] + b;
      NoOverhangSuffix(a, 1, pat);
      ReplaceConcat(a[1..], b, pat, rep);
      if |a| >= |pat| {
        assert a[..|pat|] == s[..|pat|];
      }
    }
  }

  lemma ShortNoMatch(a: string, b: string, pat: string)
    requires 0 < |a| < |pat| <= |a + b| && NoOverhang(a, pat)
    ensures (a + b)[..|pat|] != pat
  {
    assert a[|a| - |a|..] == a == (a + b)[..|pat|][..|a|];
  }

  lemma NoOverhangSuffix(a: string, d: nat, pat: string)
    requires d <= |a| && NoOverhang(a, pat)
    ensures NoOverhang(a[d..], pat)
  {
    forall k | 0 < k < |pat| && k <= |a[d..]|
      ensures a[d..][|a[d..]| - k..] != pat[..k]
    {
      assert a[d..][|a[d..]| - k..] == a[|a| - k..];
    }
  }

  /** No overhang when the first letter of `pat` is absent from the end of `a`. */
  lemma NoOverhangByFirst(a: string, pat: string)
    requires |pat| > 0
    requires forall i :: 0 <= i < |a| && |a| - |pat| < i ==> a[i] != pat[0]
    ensures NoOverhang(a, pat)
  {
    forall k | 0 < k < |pat| && k <= |a| ensures a[|a| - k..] != pat[..k] {
      assert a[|a| - k..][0] == a[|a| - k];
    }
  }

  /** No overhang when, near the end of `a`, the first letter of `pat` is
      never followed by its second. */
  lemma NoOverhangByPair(a: string, pat: string)
    requires |pat| >= 2
    requires forall i :: 0 <= i < |a| && |a| - |pat| < i ==>
      a[i] != pat[0] || (i + 1 < |a| && a[i + 1] != pat[1])
    ensures NoOverhang(a, pat)
  {
    forall k | 0 < k < |pat| && k <= |a| ensures a[|a| - k..] != pat[..k] {
      var i := |a| - k;
      assert a[i] != pat[0] || (i + 1 < |a| && a[i + 1] != pat[1]);
      assert a[|a| - k..][0] == a[|a| - k] && pat[..k][0] == pat[0];
      if k >= 2 {
        assert a[|a| - k..][1] == a[|a| - k + 1] && pat[..k][1] == pat[1];
      }
    }
  }

  /** `pat` cannot occur where its first letter never does. */
  lemma AbsentByFirst(s: string, pat: string)
    requires |pat| > 0 && pat[0] !in s
    ensures !Contains(s, pat)
  {
  }

  /** `pat` cannot occur where its first letter is never followed by its
      second. */
  lemma AbsentByPair(s: string, pat: string)
    requires |pat| >= 2
    requires forall i :: 0 <= i < |s| - 1 && s[i] == pat[0] ==> s[i + 1] != pat[1]
    ensures !Contains(s, pat)
  {
    forall i | 0 <= i <= |s| - |pat| ensures !OccursAt(s, pat, i) {
      assert s[i..i + |pat|][0] == s[i] && s[i..i + |pat|][1] == s[i + 1];
    }
  }

  /** A piece without the first letter of `pat` is left alone by the
      replacement and never starts a straddling occurrence. */
  lemma Inert(s: string, pat: string, rep: string)
    requires |pat| > 0 && pat[0] !in s
    ensures NoOverhang(s, pat) && Replace(s, pat, rep) == s
  {
    NoOverhangByFirst(s, pat);
    AbsentByFirst(s, pat);
    ReplaceAbsent(s, pat, rep);
  }

  /** Each piece with `pat` replaced. */
  function ReplaceEach(ps: seq<string>, pat: string, rep: string): (r: seq<string>)
    requires |pat| > 0
    ensures |r| == |ps|
    ensures forall i :: 0 <= i < |ps| ==> r[i] == Replace(ps[i], pat, rep)
  {
    if ps == [] then [] else [Replace(ps[0], pat, rep)] + ReplaceEach(ps[1..], pat, rep)
  }

  /** A replacement over pieces none of which overhangs is the
      concatenation of the pieces' replacements. */
  lemma {:induction false} ReplacePieces(ps: seq<string>, pat: string, rep: string)
    requires |pat| > 0
    requires forall i :: 0 <= i < |ps| ==> NoOverhang(ps[i], pat)
    ensures Replace(Concat(ps), pat, rep) == Concat(ReplaceEach(ps, pat, rep))
  {
    if ps != [] {
      ReplaceConcat(ps[0], Concat(ps[1..]), pat, rep);
      ReplacePieces(ps[1..], pat, rep);
      assert ReplaceEach(ps, pat, rep)[1..] == ReplaceEach(ps[1..], pat, rep);
    }
  }

  /** The pattern itself is replaced whole. */
  lemma ReplaceSelf(pat: string, rep: string)
    requires |pat| > 0
    ensures Replace(pat, pat, rep) == rep
  {
    assert pat[..|pat|] == pat;
    assert pat[|pat|..] == [];
  }

  /** A trailing occurrence is the only one replaced when `s` neither holds
      the pattern nor ends in a proper prefix of it. */
  lemma ReplaceSuffix(s: string, pat: string, rep: string)
    requires |pat| > 0 && !Contains(s, pat) && NoOverhang(s, pat)
    ensures Replace(s + pat, pat, rep) == s + rep
  {
    ReplaceConcat(s, pat, pat, rep);
    ReplaceAbsent(s, pat, rep);
    ReplaceSelf(pat, rep);
  }

  /** Java `Character.isWhitespace` on the ASCII range plus the Unicode
      separators it accepts. */
  predicate IsWhitespace(c: char) {
    c == ' ' || c == '\t' || c == '\n' || c == '\r' || c == '\U{B}' || c == '\U{C}'
    || ('\U{1C}' <= c <= '\U{1F}') || c == '\U{1680}' || ('\U{2000}' <= c <= '\U{2006}')
    || ('\U{2008}' <= c <= '\U{200A}') || c == '\U{2028}' || c == '\U{2029}'
    || c == '\U{205F}' || c == '\U{3000}'
  }

  /** `String.isBlank`. */
  predicate IsBlank(s: string) {
    forall i :: 0 <= i < |s| ==> IsWhitespace(s[i])
  }

  /** The characters `String.trim` removes. */
  predicate IsTrimmable(c: char) {
    c <= ' '
  }

  function TrimStart(s: string): (r: string)
    ensures |r| <= |s| && r == s[|s| - |r|..]
    ensures r == [] || !IsTrimmable(r[0])
    ensures forall i :: 0 <= i < |s| - |r| ==> IsTrimmable(s[i])
  {
    if s != [] && IsTrimmable(s[0]) then TrimStart(s[1..]) else s
  }

  function TrimEnd(s: string): (r: string)
    ensures |r| <= |s| && r == s[..|r|]
    ensures r == [] || !IsTrimmable(r[|r| - 1])
    ensures forall i :: |r| <= i < |s| ==> IsTrimmable(s[i])
  {
    if s != [] && IsTrimmable(s[|s| - 1]) then TrimEnd(s[..|s| - 1]) else s
  }

  /** `String.trim`. */
  function Trim(s: string): (r: string)
    ensures |r| <= |s|
    ensures r == [] || (!IsTrimmable(r[0]) && !IsTrimmable(r[|r| - 1]))
  {
    TrimEnd(TrimStart(s))
  }

  /** `String.join` / `Array.prototype.join`. */
  function Join(parts: seq<string>, sep: string): string {
    if parts == [] then ""
    else if |parts| == 1 then parts[0]
    else parts[0] + sep + Join(parts[1..], sep)
  }

  /** Concatenation of all parts (`Collectors.joining()` with no separator). */
  function Concat(parts: seq<string>): (r: string)
    ensures parts == [] ==> r == ""
  {
    if parts == [] then "" else parts[0] + Concat(parts[1..])
  }

  lemma ConcatCons(x: string, rest: seq<string>)
    ensures Concat([x] + rest) == x + Concat(rest)
  {
    assert ([x] + rest)[1..] == rest;
  }

  lemma ConcatAppend(a: seq<string>, b: seq<string>)
    ensures Concat(a + b) == Concat(a) + Concat(b)
  {
    if a == [] {
      assert a + b == b;
    } else {
      assert (a + b)[1..] == a[1..] + b;
    }
  }

  /** Splits `s` at every occurrence of `sep`, keeping empty pieces. */
  function Split(s: string, sep: char): (r: seq<string>)
    ensures |r| >= 1
    ensures forall i :: 0 <= i < |r| ==> sep !in r[i]
    decreases |s|
  {
    if sep !in s then [s]
    else
      var k := FirstIndex(s, sep);
      [s[..k]] + Split(s[k + 1..], sep)
  }

  function FirstIndex(s: string, c: char): (k: nat)
    requires c in s
    ensures k < |s| && s[k] == c && c !in s[..k]
  {
    if s[0] == c then 0 else 1 + FirstIndex(s[1..], c)
  }

  lemma {:induction false} JoinSplit(s: string, sep: char)
    ensures Join(Split(s, sep), [sep]) == s
    decreases |s|
  {
    if sep in s {
      var k := FirstIndex(s, sep);
      var rest := Split(s[k + 1..], sep);
      JoinSplit(s[k + 1..], sep);
      JoinCons(s[..k], rest, [sep]);
      assert s == s[..k] + [sep] + s[k + 1..];
    }
  }

  lemma JoinCons(x: string, rest: seq<string>, sep: string)
    requires rest != []
    ensures Join([x] + rest, sep) == x + sep + Join(rest, sep)
  {
    assert ([x] + rest)[1..] == rest;
  }

  /** Splitting undoes joining when no part holds the separator. */
  lemma {:induction false} SplitJoin(parts: seq<string>, sep: char)
    requires |parts| >= 1
    requires forall i :: 0 <= i < |parts| ==> sep !in parts[i]
    ensures Split(Join(parts, [sep]), sep) == parts
    decreases |parts|
  {
    if |parts| > 1 {
      var s := Join(parts, [sep]);
      var rest := Join(parts[1..], [sep]);
      assert s == parts[0] + [sep] + rest;
      assert s[|parts[0]|] == sep;
      var k := FirstIndex(s, sep);
      assert s[..k] == parts[0];
      assert s[k + 1..] == rest;
      SplitJoin(parts[1..], sep);
    }
  }

  /** A character in neither the parts nor the separator is not in their
      join. */
  lemma {:induction false} JoinAvoids(parts: seq<string>, sep: string, c: char)
    requires c !in sep
    requires forall i :: 0 <= i < |parts| ==> c !in parts[i]
    ensures c !in Join(parts, sep)
  {
    if |parts| > 1 {
      JoinAvoids(parts[1..], sep, c);
    }
  }

  lemma ReplaceCharConcat(x: string, y: string, a: char, b: char)
    ensures ReplaceChar(x + y, a, b) == ReplaceChar(x, a, b) + ReplaceChar(y, a, b)
  {
  }

  /** Replacing the separator character of a join whose parts do not hold
      it re-joins the parts with the new character. */
  lemma {:induction false} ReplaceCharJoin(parts: seq<string>, a: char, b: char)
    requires forall i :: 0 <= i < |parts| ==> a !in parts[i]
    ensures ReplaceChar(Join(parts, [a]), a, b) == Join(parts, [b])
  {
    if |parts| == 1 {
      assert ReplaceChar(parts[0], a, b) == parts[0];
    } else if |parts| > 1 {
      ReplaceCharJoin(parts[1..], a, b);
      ReplaceCharConcat(parts[0] + [a], Join(parts[1..], [a]), a, b);
      ReplaceCharConcat(parts[0], [a], a, b);
      assert ReplaceChar(parts[0], a, b) == parts[0];
    }
  }

  /** A last piece joined on with the separator becomes the last part. */
  lemma {:induction false} SplitAppendLast(s: string, f: string, sep: char)
    requires sep !in f
    ensures Split(s + [sep] + f, sep) == Split(s, sep) + [f]
    decreases |s|
  {
    var t := s + [sep] + f;
    if sep !in s {
      assert t[..|s|] == s;
      FirstIndexIs(t, sep, |s|);
      assert t[|s| + 1..] == f;
    } else {
      var k := FirstIndex(s, sep);
      assert t[..k] == s[..k];
      FirstIndexIs(t, sep, k);
      assert t[k + 1..] == s[k + 1..] + [sep] + f;
      SplitAppendLast(s[k + 1..], f, sep);
    }
  }

  /** The first occurrence is the one with none before it. */
  lemma FirstIndexIs(t: string, c: char, k: nat)
    requires k < |t| && t[k] == c && c !in t[..k]
    ensures FirstIndex(t, c) == k
  {
  }

  /** Decimal rendering of a natural number. */
  function NatToString(n: nat): (r: string)
    ensures |r| >= 1
    ensures forall i :: 0 <= i < |r| ==> IsDigit(r[i])
  {
    if n < 10 then [('0' as int + n) as char]
    else NatToString(n / 10) + [('0' as int + n % 10) as char]
  }

  /** Decimal rendering of an integer, as `Integer.toString` writes it. */
  function IntToString(n: int): (r: string)
    ensures |r| >= 1
  {
    if n < 0 then "-" + NatToString(-n) else NatToString(n)
  }
}
