/** The log collected from the Deno build script: every non-blank output
    line becomes a message whose level is read from its first `[word]`
    tag (`^.*?\[(\w+)]\s*(.*)$`), falling back to INFO. */
module ScriptLogs {
  import opened Wrappers
  import opened Strings

  /** The JBoss logging levels, the names `Logger.Level.valueOf` accepts. */
  datatype Level = Fatal | Error | Warn | Info | Debug | Trace

  function LevelName(l: Level): string {
    match l
    case Fatal => "FATAL"
    case Error => "ERROR"
    case Warn => "WARN"
    case Info => "INFO"
    case Debug => "DEBUG"
    case Trace => "TRACE"
  }

  /** `Logger.Level.valueOf`: the level with exactly this name, if any. */
  function LevelOf(name: string): (r: Option<Level>)
    ensures r.Some? ==> LevelName(r.value) == name
    ensures r.None? ==> forall l :: LevelName(l) != name
  {
    if name == "FATAL" then Some(Fatal)
    else if name == "ERROR" then Some(Error)
    else if name == "WARN" then Some(Warn)
    else if name == "INFO" then Some(Info)
    else if name == "DEBUG" then Some(Debug)
    else if name == "TRACE" then Some(Trace)
    else None
  }

  // ---------------------------------------------------------------------
  // The pattern ^.*?\[(\w+)]\s*(.*)$ under `Matcher.matches`
  // ---------------------------------------------------------------------

  /** `\w`. */
  predicate IsWordChar(c: char) {
    'a' <= c <= 'z' || 'A' <= c <= 'Z' || '0' <= c <= '9' || c == '_'
  }

  /** `\s`. */
  predicate IsSpaceChar(c: char) {
    c == ' ' || c == '\t' || c == '\n' || c == '\U{B}' || c == '\U{C}' || c == '\r'
  }

  /** The characters `.` does not match. */
  predicate IsLineTerminator(c: char) {
    c == '\n' || c == '\r' || c == '\U{85}' || c == '\U{2028}' || c == '\U{2029}'
  }

  predicate NoTerminator(t: string) {
    forall j :: 0 <= j < |t| ==> !IsLineTerminator(t[j])
  }

  /** The regular expression's meaning: `s` is a terminator-free prefix of
      length `i`, "[", the word `w`, "]", a maximal run of spaces, and the
      terminator-free rest `m`. */
  predicate Decomposes(s: string, i: nat, w: string, m: string) {
    i + |w| + 2 <= |s| - |m|
    && NoTerminator(s[..i])
    && s[i] == '['
    && |w| > 0 && (forall j :: 0 <= j < |w| ==> IsWordChar(w[j]))
    && s[i + 1..i + 1 + |w|] == w
    && s[i + 1 + |w|] == ']'
    && (forall j :: i + 2 + |w| <= j < |s| - |m| ==> IsSpaceChar(s[j]))
    && s[|s| - |m|..] == m
    && NoTerminator(m)
    && (m == [] || !IsSpaceChar(m[0]))
  }

  /** The end of the run of `\w` characters starting at `k`. */
  function WordEnd(s: string, k: nat): (e: nat)
    requires k <= |s|
    ensures k <= e <= |s|
    ensures forall j :: k <= j < e ==> IsWordChar(s[j])
    ensures e < |s| ==> !IsWordChar(s[e])
    decreases |s| - k
  {
    if k < |s| && IsWordChar(s[k]) then WordEnd(s, k + 1) else k
  }

  /** The end of the run of `\s` characters starting at `k`. */
  function SpaceEnd(s: string, k: nat): (e: nat)
    requires k <= |s|
    ensures k <= e <= |s|
    ensures forall j :: k <= j < e ==> IsSpaceChar(s[j])
    ensures e < |s| ==> !IsSpaceChar(s[e])
    decreases |s| - k
  {
    if k < |s| && IsSpaceChar(s[k]) then SpaceEnd(s, k + 1) else k
  }

  /** The pattern succeeds with its "[" at `i`. */
  predicate TagAt(s: string, i: nat) {
    i < |s| && s[i] == '['
    && var e := WordEnd(s, i + 1);
       e > i + 1 && e < |s| && s[e] == ']' && NoTerminator(s[SpaceEnd(s, e + 1)..])
  }

  /** The two groups of the match at `i`. */
  function GroupsAt(s: string, i: nat): (string, string)
    requires TagAt(s, i)
  {
    var e := WordEnd(s, i + 1);
    (s[i + 1..e], s[SpaceEnd(s, e + 1)..])
  }

  /** The lazy `.*?`: the first position from `i` on where the rest of the
      pattern succeeds, never stepping over a line terminator. */
  function FirstTag(s: string, i: nat): (r: Option<nat>)
    requires i <= |s| && NoTerminator(s[..i])
    ensures r.Some? ==> i <= r.value && TagAt(s, r.value) && NoTerminator(s[..r.value])
    ensures forall j :: i <= j < |s| && NoTerminator(s[..j]) && TagAt(s, j) ==> r.Some? && r.value <= j
    decreases |s| - i
  {
    if i == |s| || IsLineTerminator(s[i]) then
      assert forall j :: i < j <= |s| ==> s[..j][i] == s[i];
      None
    else if TagAt(s, i) then Some(i)
    else
      assert s[..i + 1] == s[..i] + [s[i]];
      FirstTag(s, i + 1)
  }

  /** `LOG_PATTERN.matcher(s).matches()` and its groups 1 and 2. */
  function Match(s: string): Option<(string, string)> {
    var r := FirstTag(s, 0);
    if r.Some? then Some(GroupsAt(s, r.value)) else None
  }

  /** The matcher succeeds at `i` exactly when the pattern decomposes `s`
      there, and then with exactly those groups. */
  lemma DecomposesAt(s: string, i: nat, w: string, m: string)
    ensures Decomposes(s, i, w, m) <==> TagAt(s, i) && NoTerminator(s[..i]) && GroupsAt(s, i) == (w, m)
  {
    if Decomposes(s, i, w, m) {
      DecomposesMatches(s, i, w, m);
    }
    if TagAt(s, i) && NoTerminator(s[..i]) && GroupsAt(s, i) == (w, m) {
      MatchDecomposes(s, i, w, m);
    }
  }

  lemma DecomposesMatches(s: string, i: nat, w: string, m: string)
    requires Decomposes(s, i, w, m)
    ensures TagAt(s, i) && GroupsAt(s, i) == (w, m)
  {
    var e := i + 1 + |w|;
    assert forall j :: i + 1 <= j < e ==> s[j] == w[j - i - 1];
    WordRun(s, i + 1, e);
    var k := |s| - |m|;
    SpaceRun(s, e + 1, k);
  }

  lemma MatchDecomposes(s: string, i: nat, w: string, m: string)
    requires TagAt(s, i) && NoTerminator(s[..i]) && GroupsAt(s, i) == (w, m)
    ensures Decomposes(s, i, w, m)
  {
    var e := WordEnd(s, i + 1);
    assert e == i + 1 + |w|;
    var k := SpaceEnd(s, e + 1);
    assert |s| - |m| == k;
  }

  lemma WordRun(s: string, k: nat, e: nat)
    requires k <= e < |s|
    requires forall j :: k <= j < e ==> IsWordChar(s[j])
    requires !IsWordChar(s[e])
    ensures WordEnd(s, k) == e
    decreases e - k
  {
    if k < e {
      WordRun(s, k + 1, e);
    }
  }

  lemma SpaceRun(s: string, k: nat, e: nat)
    requires k <= e <= |s|
    requires forall j :: k <= j < e ==> IsSpaceChar(s[j])
    requires e < |s| ==> !IsSpaceChar(s[e])
    ensures SpaceEnd(s, k) == e
    decreases e - k
  {
    if k < e {
      SpaceRun(s, k + 1, e);
    }
  }

  /** `Match` is the leftmost decomposition, and fails only when there is
      none. */
  lemma MatchIsLeftmost(s: string)
    ensures Match(s).Some? ==>
      exists i :: Decomposes(s, i, Match(s).value.0, Match(s).value.1)
                  && forall j: nat, w, m :: j < i ==> !Decomposes(s, j, w, m)
    ensures Match(s).None? ==> forall i, w, m :: !Decomposes(s, i, w, m)
  {
    var r := FirstTag(s, 0);
    forall j, w, m | Decomposes(s, j, w, m)
      ensures r.Some? && r.value <= j
    {
      DecomposesAt(s, j, w, m);
    }
    if r.Some? {
      var i := r.value;
      var g := GroupsAt(s, i);
      DecomposesAt(s, i, g.0, g.1);
      assert Decomposes(s, i, g.0, g.1);
    }
  }

  // ---------------------------------------------------------------------
  // The log
  // ---------------------------------------------------------------------

  datatype Message = Message(level: Level, text: string)

  type Log = seq<Message>

  const Break := "<br>"

  /** `message.replace("<br>", "\n")`. */
  function Unbreak(s: string): string {
    Replace(s, Break, "\n")
  }

  /** The message one trimmed, non-blank line gives: the level of its first
      tag when that names a level, and the text after the tag; otherwise
      INFO and the whole line. */
  function Classify(line: string): (r: Message)
    ensures Match(line).None? ==> r == Message(Info, Unbreak(line))
  {
    var g := Match(line);
    if g.Some? && LevelOf(ToUpper(g.value.0)).Some? then
      Message(LevelOf(ToUpper(g.value.0)).value, Unbreak(g.value.1))
    else
      Message(Info, Unbreak(line))
  }

  /** `add`: a null or blank line is ignored. */
  function Add(log: Log, raw: Option<string>): (r: Log)
    ensures raw.None? || IsBlank(raw.value) ==> r == log
    ensures raw.Some? && !IsBlank(raw.value) ==> |r| == |log| + 1 && r[..|log|] == log
  {
    if raw.None? || IsBlank(raw.value) then log
    else log + [Classify(Trim(raw.value))]
  }

  /** `errors()`: the texts of the ERROR messages, oldest first. */
  function Errors(log: Log): (r: seq<string>)
    ensures |r| <= |log|
  {
    if log == [] then []
    else (if log[0].level == Error then [log[0].text] else []) + Errors(log[1..])
  }

  /** The number of messages at `level`. */
  function CountLevel(log: Log, level: Level): (n: nat)
    ensures n <= |log|
  {
    if log == [] then 0 else (if log[0].level == level then 1 else 0) + CountLevel(log[1..], level)
  }

  function CountErrors(log: Log): nat {
    CountLevel(log, Error)
  }

  function CountWarnings(log: Log): nat {
    CountLevel(log, Warn)
  }

  function Texts(log: Log): (r: seq<string>)
    ensures |r| == |log| && forall i :: 0 <= i < |log| ==> r[i] == log[i].text
  {
    if log == [] then [] else [log[0].text] + Texts(log[1..])
  }

  /** `toString`: the texts joined with "\n". */
  function Show(log: Log): string {
    Join(Texts(log), "\n")
  }

  const Cleared: Log := []

  predicate IsEmpty(log: Log) {
    log == []
  }

  // ---------------------------------------------------------------------
  // Properties
  // ---------------------------------------------------------------------

  /** When `s` decomposes at `i` and nowhere before, the matcher returns
      exactly that decomposition. */
  lemma MatchOfLeftmost(s: string, i: nat, w: string, m: string)
    requires Decomposes(s, i, w, m)
    requires forall j: nat, w', m' :: j < i ==> !Decomposes(s, j, w', m')
    ensures Match(s) == Some((w, m))
  {
    DecomposesAt(s, i, w, m);
    var r := FirstTag(s, 0);
    var k := r.value;
    var g := GroupsAt(s, k);
    DecomposesAt(s, k, g.0, g.1);
  }

  /** A line whose leftmost tag names a level gets that level and the text
      after the tag. */
  lemma ClassifyTagged(line: string, i: nat, w: string, m: string, l: Level)
    requires Decomposes(line, i, w, m)
    requires forall j: nat, w', m' :: j < i ==> !Decomposes(line, j, w', m')
    requires ToUpper(w) == LevelName(l)
    ensures Classify(line) == Message(l, Unbreak(m))
  {
    MatchOfLeftmost(line, i, w, m);
    LevelOfName(l);
    ClassifyMatched(line, w, m);
  }

  /** A level's name reads back as that level. */
  lemma LevelOfName(l: Level)
    ensures LevelOf(LevelName(l)) == Some(l)
  {
    match l
    case Fatal =>
    case Error =>
    case Warn =>
    case Info =>
    case Debug =>
    case Trace =>
  }

  lemma ClassifyMatched(line: string, w: string, m: string)
    requires Match(line) == Some((w, m)) && LevelOf(ToUpper(w)).Some?
    ensures Classify(line) == Message(LevelOf(ToUpper(w)).value, Unbreak(m))
  {
  }

  /** A line without a tag, or whose leftmost tag names no level (such as
      "[WARNING]"), is INFO with the whole line as its text. */
  lemma ClassifyUntagged(line: string)
    requires forall i, w, m :: Decomposes(line, i, w, m) ==>
      (exists j: nat, w', m' :: j < i && Decomposes(line, j, w', m')) || LevelOf(ToUpper(w)).None?
    ensures Classify(line) == Message(Info, Unbreak(line))
  {
    MatchIsLeftmost(line);
  }

  lemma {:induction false} ReplaceStep(t: string)
    requires t != []
    ensures StartsWith(t, Break) ==> Unbreak(t) == "\n" + Unbreak(t[4..])
    ensures !StartsWith(t, Break) ==> Unbreak(t) == [t[0]] + Unbreak(t[1..])
  {
    if |t| < 4 {
      assert !StartsWith(t, Break);
      assert Unbreak(t[1..]) == t[1..];
      assert t == [t[0]] + t[1..];
    }
  }

  /** A replaced string starts with "br>" only if the original did. */
  lemma {:induction false} KeepsBrTail(t: string)
    requires StartsWith(Unbreak(t), "br>")
    ensures StartsWith(t, "br>")
  {
    var r := Unbreak(t);
    assert r[0] == 'b' && r[1] == 'r' && r[2] == '>';
    assert t != [];
    ReplaceStep(t);
    var t1 := t[1..];
    assert t[0] == 'b' && r[1..] == Unbreak(t1);
    assert t1 != [];
    ReplaceStep(t1);
    var t2 := t1[1..];
    assert t1[0] == 'r' && r[2..] == Unbreak(t2);
    assert t2 != [];
    ReplaceStep(t2);
    assert t2[0] == '>';
    assert t[..3] == [t[0], t1[0], t2[0]];
  }

  /** An occurrence past a prefix is an occurrence in what follows it. */
  lemma ShiftOccurrence(c: string, rest: string, k: int)
    requires OccursAt(c + rest, Break, k) && k >= |c|
    ensures OccursAt(rest, Break, k - |c|)
  {
    var r := c + rest;
    assert r[k..k + |Break|] == rest[k - |c|..k - |c| + |Break|];
  }

  /** No "<br>" survives the replacement. */
  lemma {:induction false} UnbreakLeavesNoBreak(s: string)
    ensures !Contains(Unbreak(s), Break)
    decreases |s|
  {
    var r := Unbreak(s);
    if s == [] {
    } else if StartsWith(s, Break) {
      ReplaceStep(s);
      UnbreakLeavesNoBreak(s[4..]);
      if Contains(r, Break) {
        var k :| 0 <= k <= |r| - |Break| && OccursAt(r, Break, k);
        assert r[k] == Break[0] != r[0];
        ShiftOccurrence("\n", Unbreak(s[4..]), k);
        assert false;
      }
    } else {
      ReplaceStep(s);
      UnbreakLeavesNoBreak(s[1..]);
      var rest := Unbreak(s[1..]);
      if Contains(r, Break) {
        var k :| 0 <= k <= |r| - |Break| && OccursAt(r, Break, k);
        if k == 0 {
          assert rest[..3] == r[1..4] == "br>";
          KeepsBrTail(s[1..]);
          assert false;
        } else {
          ShiftOccurrence([s[0]], rest, k);
          assert false;
        }
      }
    }
  }

  /** Every stored message is free of "<br>". */
  lemma {:induction false} AddStoresNoBreak(log: Log, raw: Option<string>)
    requires forall i :: 0 <= i < |log| ==> !Contains(log[i].text, Break)
    ensures forall i :: 0 <= i < |Add(log, raw)| ==> !Contains(Add(log, raw)[i].text, Break)
  {
    if raw.Some? && !IsBlank(raw.value) {
      var line := Trim(raw.value);
      var g := Match(line);
      if g.Some? {
        UnbreakLeavesNoBreak(g.value.1);
      }
      UnbreakLeavesNoBreak(line);
    }
  }

  lemma {:induction false} ErrorsAppend(a: Log, b: Log)
    ensures Errors(a + b) == Errors(a) + Errors(b)
  {
    if a == [] {
      assert a + b == b;
    } else {
      var head := if a[0].level == Error then [a[0].text] else [];
      assert (a + b)[0] == a[0];
      assert (a + b)[1..] == a[1..] + b;
      ErrorsAppend(a[1..], b);
      calc {
        Errors(a + b);
        head + Errors(a[1..] + b);
        head + (Errors(a[1..]) + Errors(b));
        (head + Errors(a[1..])) + Errors(b);
      }
    }
  }

  lemma {:induction false} CountAppend(a: Log, b: Log, level: Level)
    ensures CountLevel(a + b, level) == CountLevel(a, level) + CountLevel(b, level)
  {
    if a == [] {
      assert a + b == b;
    } else {
      assert (a + b)[1..] == a[1..] + b;
      CountAppend(a[1..], b, level);
    }
  }

  /** `countErrors` counts exactly the messages `errors()` lists. */
  lemma {:induction false} CountErrorsIsErrors(log: Log)
    ensures CountErrors(log) == |Errors(log)|
  {
    if log != [] {
      CountErrorsIsErrors(log[1..]);
    }
  }

  /** Errors and warnings are disjoint parts of the log. */
  lemma {:induction false} ErrorsAndWarnings(log: Log)
    ensures CountErrors(log) + CountWarnings(log) <= |log|
  {
    if log != [] {
      ErrorsAndWarnings(log[1..]);
    }
  }

  /** Adding a line extends `errors()` by its text exactly when it is an
      ERROR, and `toString` by "\n" and its text. */
  lemma AddExtends(log: Log, raw: Option<string>)
    requires raw.Some? && !IsBlank(raw.value)
    ensures var msg := Classify(Trim(raw.value));
      Errors(Add(log, raw)) == Errors(log) + (if msg.level == Error then [msg.text] else [])
      && CountWarnings(Add(log, raw)) == CountWarnings(log) + (if msg.level == Warn then 1 else 0)
      && Show(Add(log, raw)) == if log == [] then msg.text else Show(log) + "\n" + msg.text
  {
    var msg := Classify(Trim(raw.value));
    assert Add(log, raw) == log + [msg];
    ErrorsSnoc(log, msg);
    CountAppend(log, [msg], Warn);
    ShowSnoc(log, msg);
  }

  lemma ErrorsSnoc(log: Log, msg: Message)
    ensures Errors(log + [msg]) == Errors(log) + (if msg.level == Error then [msg.text] else [])
  {
    ErrorsAppend(log, [msg]);
    assert Errors([msg]) == (if msg.level == Error then [msg.text] else []) + Errors([]);
  }

  lemma ShowSnoc(log: Log, msg: Message)
    ensures Show(log + [msg]) == if log == [] then msg.text else Show(log) + "\n" + msg.text
  {
    assert Texts(log + [msg]) == Texts(log) + [msg.text];
    JoinSnoc(Texts(log), msg.text, "\n");
  }

  lemma {:induction false} JoinSnoc(parts: seq<string>, x: string, sep: string)
    ensures Join(parts + [x], sep) == if parts == [] then x else Join(parts, sep) + sep + x
  {
    if |parts| == 1 {
      assert parts + [x] == [parts[0], x];
    } else if |parts| > 1 {
      assert (parts + [x])[1..] == parts[1..] + [x];
      JoinSnoc(parts[1..], x, sep);
    }
  }

  /** `clear` empties the log. */
  lemma ClearEmpties()
    ensures IsEmpty(Cleared) && Errors(Cleared) == [] && CountErrors(Cleared) == 0 && Show(Cleared) == ""
  {
  }

  // ---------------------------------------------------------------------
  // Concrete lines
  // ---------------------------------------------------------------------

  lemma TrimKeeps(s: string)
    requires s != [] && !IsTrimmable(s[0]) && !IsTrimmable(s[|s| - 1])
    ensures Trim(s) == s
  {
  }

  lemma UpperError()
    ensures ToUpper("error") == "ERROR" && ToUpper("ERROR") == "ERROR"
  {
    var a, b := ToUpper("error"), ToUpper("ERROR");
    assert forall i | 0 <= i < 5 :: a[i] == "ERROR"[i] && b[i] == "ERROR"[i];
  }

  lemma UnbreakSample()
    ensures Unbreak("a<br>b") == "a\nb"
  {
    var s := "a<br>b";
    assert s[..4][0] == 'a' != Break[0];
    assert s[1..][..4] == Break;
    assert s[1..][4..] == "b";
    assert Unbreak("b") == "b";
  }

  lemma ErrorLineDecomposes(s: string)
    requires s == "[error] a<br>b"
    ensures Decomposes(s, 0, "error", "a<br>b")
  {
    assert "[" + "error" + "] " + "a<br>b" == s;
    assert forall j | 0 <= j < 5 :: IsWordChar("error"[j]);
    assert forall j | 0 <= j < 6 :: !IsLineTerminator("a<br>b"[j]);
    TagLineDecomposes("error", "a<br>b");
  }

  /** `add("[error] a<br>b")` stores an ERROR "a", newline, "b": the tag is
      matched without regard to case and the marker becomes a newline. */
  lemma ErrorLine(raw: string)
    requires raw == "[error] a<br>b"
    ensures Add([], Some(raw)) == [Message(Error, "a\nb")]
  {
    assert !IsBlank(raw) by {
      assert !IsWhitespace(raw[0]);
    }
    TrimKeeps(raw);
    ErrorLineDecomposes(raw);
    UpperError();
    ClassifyTagged(raw, 0, "error", "a<br>b", Error);
    UnbreakSample();
  }

  lemma WarningLineDecomposes(s: string, w: string, m: string)
    requires s == "[WARNING] careful" && Decomposes(s, 0, w, m)
    ensures w == "WARNING"
  {
    WarningDecomposes(s);
    DecomposesOnce(s, "WARNING", "careful", w, m);
  }

  /** A line has at most one decomposition with its tag at the start. */
  lemma DecomposesOnce(s: string, w: string, m: string, w': string, m': string)
    requires Decomposes(s, 0, w, m) && Decomposes(s, 0, w', m')
    ensures w == w' && m == m'
  {
    DecomposesAt(s, 0, w, m);
    DecomposesAt(s, 0, w', m');
  }

  lemma WarningDecomposes(s: string)
    requires s == "[WARNING] careful"
    ensures Decomposes(s, 0, "WARNING", "careful")
  {
    assert "[" + "WARNING" + "] " + "careful" == s;
    assert forall j | 0 <= j < 7 :: IsWordChar("WARNING"[j]);
    assert forall j | 0 <= j < 7 :: !IsLineTerminator("careful"[j]);
    TagLineDecomposes("WARNING", "careful");
  }

  /** "[w] m" decomposes into `w` and `m` when `w` is a word and `m` a
      single line that does not start with a space. */
  lemma TagLineDecomposes(w: string, m: string)
    requires |w| > 0 && forall j :: 0 <= j < |w| ==> IsWordChar(w[j])
    requires NoTerminator(m) && (m == [] || !IsSpaceChar(m[0]))
    ensures Decomposes("[" + w + "] " + m, 0, w, m)
  {
    var s := "[" + w + "] " + m;
    assert s[..0] == [];
    assert s[1..1 + |w|] == w;
    assert s[|s| - |m|..] == m;
  }

  lemma WarningNotALevel()
    ensures LevelOf(ToUpper("WARNING")).None?
  {
    var u := ToUpper("WARNING");
    assert forall i | 0 <= i < 7 :: u[i] == "WARNING"[i];
  }

  lemma WarningLeftmost(raw: string)
    requires raw == "[WARNING] careful"
    ensures forall i: nat, w, m :: Decomposes(raw, i, w, m) ==>
      (exists j: nat, w', m' :: j < i && Decomposes(raw, j, w', m')) || LevelOf(ToUpper(w)).None?
  {
    forall i: nat, w, m | Decomposes(raw, i, w, m)
      ensures (exists j: nat, w', m' :: j < i && Decomposes(raw, j, w', m')) || LevelOf(ToUpper(w)).None?
    {
      if i == 0 {
        WarningLineDecomposes(raw, w, m);
        WarningNotALevel();
      } else {
        WarningDecomposes(raw);
      }
    }
  }

  /** "[WARNING]" names no level, so the line is INFO, kept whole. */
  lemma WarningLine(raw: string)
    requires raw == "[WARNING] careful"
    ensures Classify(raw) == Message(Info, Unbreak(raw))
  {
    WarningLeftmost(raw);
    ClassifyUntagged(raw);
  }
}
