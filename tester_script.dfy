/** The line-driven interpreter of a gitlet test script: each line is
    substituted (unless it is a comment), classified as one instruction and
    executed; a `>` instruction reads its expected-output block up to a
    `<<<` line, runs the command and compares the output. */
module TesterScript {
  import opened Common
  import opened TesterSubst
  import opened TesterOutput

  const TIMEOUT: real := 5.0

  /** The files of a directory, by name. */
  type Dir = map<string, string>

  /** What running `java gitlet.Main <cmd>` in the test directory gave. */
  datatype ExecOutcome = Finished(out: string) | Exited(code: int) | TimedOut

  /** Environment of a test run: the subject program (with its effect on
      the test directory), Python's float(), `re.match` for expected-output
      patterns, and the `src` directory the script copies files from. */
  datatype Ctx = Ctx(exec: (string, real, Dir) -> (ExecOutcome, Dir),
                     parseFloat: string -> Option<real>,
                     matcher: Matcher,
                     src: Dir)

  /** How the run of one script ends: "OK", an "ERROR (...)" report, a
      ValueError reported as a faulty script, or another exception. */
  datatype Verdict = Passed | Error(reason: string) | Faulty(msg: string) | Crashed(name: string)

  datatype State = State(timeout: real, defns: map<string, string>,
                         lastGroups: Option<seq<Option<string>>>, dir: Dir)

  /** The end of a run, with the capture groups left in the global. */
  datatype Outcome = Outcome(verdict: Verdict, lastGroups: Option<seq<Option<string>>>)

  datatype Instr =
    | Skip
    | SetTimeout(arg: string)
    | Copy(dest: string, src: string)
    | Delete(name: string)
    | Execute(cmd: string)
    | SameFile(name: string, std: string)
    | Absent(name: string)
    | Present(name: string)
    | Define(name: string, value: string)
    | Bad

  // ---------------------------------------------------------------------
  // The fixed instruction patterns.

  /** End of the run of `\s` starting at i. */
  function SkipSpace(s: string, i: nat): (j: nat)
    requires i <= |s|
    ensures i <= j <= |s|
    ensures forall p :: i <= p < j ==> IsSpace(s[p])
    ensures j < |s| ==> !IsSpace(s[j])
    decreases |s| - i
  {
    if i == |s| || !IsSpace(s[i]) then i else SkipSpace(s, i + 1)
  }

  /** End of the run of `\S` starting at i. */
  function RunEnd(s: string, i: nat): (j: nat)
    requires i <= |s|
    ensures i <= j <= |s|
    ensures forall p :: i <= p < j ==> !IsSpace(s[p])
    ensures j < |s| ==> IsSpace(s[j])
    decreases |s| - i
  {
    if i == |s| || IsSpace(s[i]) then i else RunEnd(s, i + 1)
  }

  predicate IsIdStart(c: char) { c == '_' || 'a' <= c <= 'z' || 'A' <= c <= 'Z' }
  predicate IsIdChar(c: char) { IsIdStart(c) || '0' <= c <= '9' }

  /** End of the run of `[a-zA-Z_0-9]` starting at i. */
  function IdEnd(s: string, i: nat): (j: nat)
    requires i <= |s|
    ensures i <= j <= |s|
    ensures forall p :: i <= p < j ==> IsIdChar(s[p])
    ensures j < |s| ==> !IsIdChar(s[j])
    decreases |s| - i
  {
    if i == |s| || !IsIdChar(s[i]) then i else IdEnd(s, i + 1)
  }

  /** `X\s*(\S+)` after the instruction letter: the maximal non-blank word
      after the blanks. */
  function OneArg(s: string): (r: Option<string>)
    requires |s| >= 1
    ensures r.Some? ==> r.value != [] && forall p :: 0 <= p < |r.value| ==> !IsSpace(r.value[p])
  {
    var i := SkipSpace(s, 1);
    var j := RunEnd(s, i);
    if j > i then Some(s[i..j]) else None
  }

  /** `X\s*(\S+)\s+(\S+)`: two blank-separated words. */
  function TwoArgs(s: string): (r: Option<(string, string)>)
    requires |s| >= 1
    ensures r.Some? ==> r.value.0 != [] && r.value.1 != []
  {
    var i := SkipSpace(s, 1);
    var j := RunEnd(s, i);
    var k := SkipSpace(s, j);
    var l := RunEnd(s, k);
    if j > i && k > j && l > k then Some((s[i..j], s[k..l])) else None
  }

  /** `>\s*(.*)`: the rest of the line after the blanks. */
  function CommandArg(s: string): (cmd: string)
    requires |s| >= 1
    ensures '\n' !in cmd
    ensures |cmd| > 0 ==> !IsSpace(cmd[0])
  {
    var i := SkipSpace(s, 1);
    var rest := s[i..];
    var e := FirstNewline(rest);
    assert rest[..e] == s[i..i + e];
    rest[..e]
  }

  /** The last index holding a double quote. */
  function LastQuote(s: string): (p: Option<nat>)
    ensures p.Some? ==> p.value < |s| && s[p.value] == '"' && '"' !in s[p.value + 1..]
    ensures p.None? ==> '"' !in s
  {
    if s == [] then None
    else if s[|s| - 1] == '"' then Some(|s| - 1)
    else
      var p := LastQuote(s[..|s| - 1]);
      assert p.Some? ==> s[p.value + 1..] == s[..|s| - 1][p.value + 1..] + [s[|s| - 1]];
      assert s == s[..|s| - 1] + [s[|s| - 1]];
      p
  }

  /** `D\s*([a-zA-Z_][a-zA-Z_0-9]*)\s*"(.*)"\s*$`: a name, and the text from
      the first quote after it to the last quote, which only blanks may
      follow, all on one line. */
  function DefineArgs(s: string): (r: Option<(string, string)>)
    requires |s| >= 1
    ensures r.Some? ==> r.value.0 != [] && IsIdStart(r.value.0[0]) && '\n' !in r.value.1
  {
    var i := SkipSpace(s, 1);
    if i == |s| || !IsIdStart(s[i]) then None
    else
      var j := IdEnd(s, i + 1);
      var q := SkipSpace(s, j);
      if q == |s| || s[q] != '"' then None
      else
        match QuotedValue(s[q + 1..])
        case None => None
        case Some(v) => Some((s[i..j], v))
  }

  /** `(.*)"\s*$` after the opening quote: the text up to the last quote,
      which only blanks may follow, with no newline in it. */
  function QuotedValue(rest: string): (r: Option<string>)
    ensures r.Some? ==> '\n' !in r.value
  {
    match LastQuote(rest)
    case None => None
    case Some(p) =>
      if '\n' !in rest[..p] && (forall x :: p + 1 <= x < |rest| ==> IsSpace(rest[x]))
      then Some(rest[..p])
      else None
  }

  predicate IsComment(s: string) { var i := SkipSpace(s, 0); i < |s| && s[i] == '#' }

  predicate IsBlank(s: string) { |s| >= 1 && forall p :: 0 <= p < |s| ==> IsSpace(s[p]) }

  /** The instruction a (substituted) line denotes: the patterns are tried
      in the order # T + - > = * E D; a line none of them matches is bad. */
  function Classify(s: string): (r: Instr)
    ensures r == Skip <== IsComment(s) || IsBlank(s)
    ensures r == Bad <== s == []
    ensures !r.Skip? && !r.Bad? ==> !IsComment(s) && !IsBlank(s) && |s| >= 1
  {
    if IsComment(s) || IsBlank(s) then Skip
    else if |s| == 0 then Bad
    else if s[0] == 'T' && OneArg(s).Some? then SetTimeout(OneArg(s).value)
    else if s[0] == '+' && TwoArgs(s).Some? then Copy(TwoArgs(s).value.0, TwoArgs(s).value.1)
    else if s[0] == '-' && OneArg(s).Some? then Delete(OneArg(s).value)
    else if s[0] == '>' then Execute(CommandArg(s))
    else if s[0] == '=' && TwoArgs(s).Some? then SameFile(TwoArgs(s).value.0, TwoArgs(s).value.1)
    else if s[0] == '*' && OneArg(s).Some? then Absent(OneArg(s).value)
    else if s[0] == 'E' && OneArg(s).Some? then Present(OneArg(s).value)
    else if s[0] == 'D' && DefineArgs(s).Some? then Define(DefineArgs(s).value.0, DefineArgs(s).value.1)
    else Bad
  }

  /** `<<<(\*?)` anchored at the start of the (right-stripped) line. */
  predicate IsTerminator(s: string) { |s| >= 3 && s[..3] == "<<<" }

  predicate IsRegexpTerminator(s: string) { IsTerminator(s) && |s| > 3 && s[3] == '*' }

  // ---------------------------------------------------------------------
  // File helpers.

  /** canonicalize: carriage returns removed. */
  function RemoveCR(s: string): (r: string)
    ensures '\r' !in r
    ensures '\r' !in s ==> r == s
  {
    if s == [] then []
    else
      var r := RemoveCR(s[..|s| - 1]);
      assert s == s[..|s| - 1] + [s[|s| - 1]];
      if s[|s| - 1] == '\r' then r else r + [s[|s| - 1]]
  }

  function Contents(d: Dir, name: string): Option<string>
  {
    if name in d then Some(d[name]) else None
  }

  function Canonical(c: Option<string>): Option<string>
  {
    if c.Some? then Some(RemoveCR(c.value)) else None
  }

  function ExcVerdict(e: Exc): Verdict
  {
    match e
    case ValueError(msg) => Faulty(msg)
    case NameError(name) => Crashed(name)
  }

  function ExecMessage(o: ExecOutcome): string
  {
    match o
    case Finished(_) => "OK"
    case Exited(code) => "java gitlet.Main exited with code " + IntToString(code)
    case TimedOut => "timeout"
  }

  // ---------------------------------------------------------------------
  // The interpreter as a function of the script and the state.

  /** The expected-output block from line k on: each right-stripped line is
      substituted, up to the first line starting with `<<<`. Gives the block,
      whether it is in regular-expression mode, and the index of the line
      after the terminator. */
  function ReadBlock(lines: seq<string>, k: nat, env: Env, acc: seq<string>, cmdLine: string)
    : (r: Res<(seq<string>, bool, nat)>)
    requires k <= |lines|
    ensures r.Done? ==> k < r.value.2 <= |lines|
    decreases |lines| - k
  {
    if k == |lines| then Raise(ValueError("unterminated command: " + cmdLine))
    else
      var l := RStrip(lines[k]);
      if IsTerminator(l) then Done((acc, IsRegexpTerminator(l), k + 1))
      else
        match Iterate(l, env, MAX_PASSES)
        case Raise(e) => Raise(e)
        case Done(x) => ReadBlock(lines, k + 1, env, acc + [x], cmdLine)
  }

  function Initial(lastGroups: Option<seq<Option<string>>>): State
  {
    State(TIMEOUT, map[], lastGroups, map[])
  }

  /** The line as the interpreter sees it: substituted unless it is a
      comment. */
  function Substituted(raw: string, st: State): Res<string>
  {
    if IsComment(raw) then Done(raw) else Iterate(raw, Env(st.lastGroups, st.defns), MAX_PASSES)
  }

  /** What one instruction line leads to: the next line to read and the
      new state, or the end of the run. */
  datatype Next = Continue(k: nat, st: State) | Stop(outcome: Outcome)

  /** The effect of the line at index k (0-based, so line number k + 1)
      and, for a `>` line, of its block. */
  function Step(lines: seq<string>, k: nat, st: State, ctx: Ctx): (r: Next)
    requires k < |lines|
    ensures r.Continue? ==> k < r.k <= |lines|
  {
    match Substituted(lines[k], st)
    case Raise(e) => Stop(Outcome(ExcVerdict(e), st.lastGroups))
    case Done(line) => Dispatch(lines, k, st, ctx, line, Classify(line))
  }

  /** The effect of the substituted line `line`, found at index k, which
      denotes the instruction `instr`. */
  function Dispatch(lines: seq<string>, k: nat, st: State, ctx: Ctx, line: string, instr: Instr): (r: Next)
    requires k < |lines|
    ensures r.Continue? ==> k < r.k <= |lines|
  {
    match instr
    case Skip => Continue(k + 1, st)
    case SetTimeout(arg) =>
      var t := ctx.parseFloat(arg);
      Continue(k + 1, if t.Some? then st.(timeout := t.value) else st)
    case Copy(dest, src) =>
      if src in ctx.src then Continue(k + 1, st.(dir := st.dir[dest := ctx.src[src]]))
      else Stop(Outcome(Faulty("file " + src + " could not be copied to " + dest), st.lastGroups))
    case Delete(name) => Continue(k + 1, st.(dir := st.dir - {name}))
    case Execute(cmd) => Command(lines, k, st, ctx, line, cmd)
    case SameFile(name, std) =>
      if Canonical(Contents(st.dir, name)) == Canonical(Contents(ctx.src, std)) then Continue(k + 1, st)
      else Stop(Outcome(Error("file " + name + " has incorrect content"), st.lastGroups))
    case Absent(name) =>
      if name in st.dir then Stop(Outcome(Error("file " + name + " present"), st.lastGroups))
      else Continue(k + 1, st)
    case Present(name) =>
      if name !in st.dir then Stop(Outcome(Error("file or directory " + name + " not present"), st.lastGroups))
      else Continue(k + 1, st)
    case Define(name, value) => Continue(k + 1, st.(defns := st.defns[name := value]))
    case Bad => Stop(Outcome(Faulty("FAILED (bad test line: " + NatToString(k + 1) + ")"), st.lastGroups))
  }

  /** A `>` line at index k: its block is read, the command run and its
      output compared; the test goes on after the block only when the
      command finished with output close enough to the block. */
  function Command(lines: seq<string>, k: nat, st: State, ctx: Ctx, line: string, cmd: string): (r: Next)
    requires k < |lines|
    ensures r.Continue? ==> k < r.k <= |lines|
  {
    var block := ReadBlock(lines, k + 1, Env(st.lastGroups, st.defns), [], line);
    if block.Raise? then Stop(Outcome(ExcVerdict(block.exc), st.lastGroups))
    else
      var res := ctx.exec(cmd, st.timeout, st.dir);
      if res.0.Finished? then
        var cmp := CompareOutput(block.value.0, res.0.out, block.value.1, ctx.matcher);
        if cmp.0 then Continue(block.value.2, st.(lastGroups := Some(cmp.1), dir := res.1))
        else Stop(Outcome(Error("incorrect output"), Some(cmp.1)))
      else Stop(Outcome(Error(ExecMessage(res.0)), st.lastGroups))
  }

  /** The run of the script from line k (0-based) on. */
  function Run(lines: seq<string>, k: nat, st: State, ctx: Ctx): Outcome
    requires k <= |lines|
    decreases |lines| - k
  {
    if k == |lines| then Outcome(Passed, st.lastGroups)
    else
      match Step(lines, k, st, ctx)
      case Continue(k', st') => Run(lines, k', st', ctx)
      case Stop(o) => o
  }

  // ---------------------------------------------------------------------
  // The interpreter as the loops the script runner executes.

  /** Reads the expected-output block that starts at line index `start`. */
  method ReadExpected(lines: seq<string>, start: nat, env: Env, cmdLine: string)
    returns (r: Res<(seq<string>, bool, nat)>)
    requires start <= |lines|
    ensures r == ReadBlock(lines, start, env, [], cmdLine)
  {
    var n := start;
    var expected: seq<string> := [];
    while true
      invariant start <= n <= |lines|
      invariant ReadBlock(lines, start, env, [], cmdLine) == ReadBlock(lines, n, env, expected, cmdLine)
      decreases |lines| - n
    {
      n := n + 1;
      if n > |lines| {
        return Raise(ValueError("unterminated command: " + cmdLine));
      }
      var l := RStrip(lines[n - 1]);
      if IsTerminator(l) {
        return Done((expected, IsRegexpTerminator(l), n));
      }
      var x := DoSubsts(l, env);
      if x.Raise? {
        return Raise(x.exc);
      }
      expected := expected + [x.value];
    }
  }

  /** One pass of the interpreter's main loop: the line at index n. */
  method ExecuteLine(lines: seq<string>, n: nat, st: State, ctx: Ctx) returns (next: Next)
    requires n < |lines|
    ensures next == Step(lines, n, st, ctx)
  {
    var line := lines[n];
    if !IsComment(line) {
      var s := DoSubsts(line, Env(st.lastGroups, st.defns));
      if s.Raise? {
        return Stop(Outcome(ExcVerdict(s.exc), st.lastGroups));
      }
      line := s.value;
    }
    next := DispatchLine(lines, n, st, ctx, line, Classify(line));
  }

  /** The if-elif chain over the instruction patterns. */
  method DispatchLine(lines: seq<string>, n: nat, st: State, ctx: Ctx, line: string, instr: Instr)
    returns (next: Next)
    requires n < |lines|
    ensures next == Dispatch(lines, n, st, ctx, line, instr)
  {
    match instr {
      case Skip =>
        next := Continue(n + 1, st);
      case SetTimeout(arg) =>
        var t := ctx.parseFloat(arg);
        next := Continue(n + 1, if t.Some? then st.(timeout := t.value) else st);
      case Copy(dest, src) =>
        if src !in ctx.src {
          return Stop(Outcome(Faulty("file " + src + " could not be copied to " + dest), st.lastGroups));
        }
        next := Continue(n + 1, st.(dir := st.dir[dest := ctx.src[src]]));
      case Delete(name) =>
        next := Continue(n + 1, st.(dir := st.dir - {name}));
      case Execute(cmd) =>
        next := ExecuteCommand(lines, n, st, ctx, line, cmd);
      case SameFile(name, std) =>
        if Canonical(Contents(st.dir, name)) != Canonical(Contents(ctx.src, std)) {
          return Stop(Outcome(Error("file " + name + " has incorrect content"), st.lastGroups));
        }
        next := Continue(n + 1, st);
      case Absent(name) =>
        if name in st.dir {
          return Stop(Outcome(Error("file " + name + " present"), st.lastGroups));
        }
        next := Continue(n + 1, st);
      case Present(name) =>
        if name !in st.dir {
          return Stop(Outcome(Error("file or directory " + name + " not present"), st.lastGroups));
        }
        next := Continue(n + 1, st);
      case Define(name, value) =>
        next := Continue(n + 1, st.(defns := st.defns[name := value]));
      case Bad =>
        next := Stop(Outcome(Faulty("FAILED (bad test line: " + NatToString(n + 1) + ")"), st.lastGroups));
    }
  }

  /** The `>` branch: read the block, run the command, compare. */
  method ExecuteCommand(lines: seq<string>, n: nat, st: State, ctx: Ctx, line: string, cmd: string)
    returns (next: Next)
    requires n < |lines|
    ensures next == Command(lines, n, st, ctx, line, cmd)
  {
    var block := ReadExpected(lines, n + 1, Env(st.lastGroups, st.defns), line);
    if block.Raise? {
      return Stop(Outcome(ExcVerdict(block.exc), st.lastGroups));
    }
    var res := ctx.exec(cmd, st.timeout, st.dir);
    var msg := ExecMessage(res.0);
    var lastGroups := st.lastGroups;
    if res.0.Finished? {
      var ok, groups := CorrectProgramOutput(block.value.0, res.0.out, block.value.1, ctx.matcher);
      lastGroups := Some(groups);
      if !ok {
        msg := "incorrect output";
      }
    }
    if msg != "OK" {
      return Stop(Outcome(Error(msg), lastGroups));
    }
    next := Continue(block.value.2, st.(lastGroups := lastGroups, dir := res.1));
  }

  /** doTest on the lines of a script, given the capture groups left by the
      previous script. */
  method DoTest(lines: seq<string>, lastGroups0: Option<seq<Option<string>>>, ctx: Ctx)
    returns (verdict: Verdict, lastGroups: Option<seq<Option<string>>>)
    ensures Outcome(verdict, lastGroups) == Run(lines, 0, Initial(lastGroups0), ctx)
  {
    var st := Initial(lastGroups0);
    var n := 0;
    while n < |lines|
      invariant n <= |lines|
      invariant Run(lines, 0, Initial(lastGroups0), ctx) == Run(lines, n, st, ctx)
      decreases |lines| - n
    {
      var next := ExecuteLine(lines, n, st, ctx);
      if next.Stop? {
        return next.outcome.verdict, next.outcome.lastGroups;
      }
      n, st := next.k, next.st;
    }
    return Passed, st.lastGroups;
  }

  // ---------------------------------------------------------------------
  // Properties of the interpreter.

  /** Reaching the end of the script passes the test. */
  lemma EndPasses(lines: seq<string>, st: State, ctx: Ctx)
    ensures Run(lines, |lines|, st, ctx) == Outcome(Passed, st.lastGroups)
  {
  }

  /** A comment line is skipped without substitution, so an undefined
      `${...}` inside it does no harm. */
  lemma CommentSkipped(lines: seq<string>, k: nat, st: State, ctx: Ctx)
    requires k < |lines| && IsComment(lines[k])
    ensures Run(lines, k, st, ctx) == Run(lines, k + 1, st, ctx)
  {
  }

  /** A `T` line whose argument float() rejects leaves the timeout, and all
      other state, as it was. */
  lemma BadTimeoutIgnored(lines: seq<string>, k: nat, st: State, ctx: Ctx, arg: string)
    requires k < |lines| && Substituted(lines[k], st) == Done(lines[k])
    requires Classify(lines[k]) == SetTimeout(arg) && ctx.parseFloat(arg).None?
    ensures Run(lines, k, st, ctx) == Run(lines, k + 1, st, ctx)
  {
  }

  /** A (substituted) line matching no instruction is reported as a bad
      test line, with its 1-based number. */
  lemma BadLineFaulty(lines: seq<string>, k: nat, st: State, ctx: Ctx, line: string)
    requires k < |lines| && Substituted(lines[k], st) == Done(line) && Classify(line) == Bad
    ensures Run(lines, k, st, ctx).verdict == Faulty("FAILED (bad test line: " + NatToString(k + 1) + ")")
  {
  }

  /** A `>` line with no `<<<` line after it is an unterminated command,
      unless a substitution in the block fails first. */
  lemma {:induction false} UnterminatedBlock(lines: seq<string>, k: nat, env: Env, acc: seq<string>, cmdLine: string)
    requires k <= |lines|
    requires forall i :: k <= i < |lines| ==> !IsTerminator(RStrip(lines[i]))
    ensures ReadBlock(lines, k, env, acc, cmdLine).Raise?
    ensures (forall i :: k <= i < |lines| ==> Iterate(RStrip(lines[i]), env, MAX_PASSES).Done?)
            ==> ReadBlock(lines, k, env, acc, cmdLine) == Raise(ValueError("unterminated command: " + cmdLine))
    decreases |lines| - k
  {
    if k < |lines| {
      var l := RStrip(lines[k]);
      if Iterate(l, env, MAX_PASSES).Done? {
        UnterminatedBlock(lines, k + 1, env, acc + [Iterate(l, env, MAX_PASSES).value], cmdLine);
      }
    }
  }

  /** `\s*` from i ends exactly at j when s[i..j) is blank and s[j] is not. */
  lemma SkipSpaceAt(s: string, i: nat, j: nat)
    requires i <= j <= |s|
    requires forall p :: i <= p < j ==> IsSpace(s[p])
    requires j == |s| || !IsSpace(s[j])
    ensures SkipSpace(s, i) == j
  {
  }

  /** `\S+` from i ends exactly at j when s[i..j) has no blank and s[j] is
      one. */
  lemma RunEndAt(s: string, i: nat, j: nat)
    requires i <= j <= |s|
    requires forall p :: i <= p < j ==> !IsSpace(s[p])
    requires j == |s| || IsSpace(s[j])
    ensures RunEnd(s, i) == j
  {
  }

  /** A line starting with a non-blank other than '#' is no comment and not
      blank. */
  lemma NotSkipped(s: string)
    requires s != [] && !IsSpace(s[0]) && s[0] != '#'
    ensures !IsComment(s) && !IsBlank(s)
  {
    SkipSpaceAt(s, 0, 0);
  }

  /** A line that starts with none of the instruction letters (nor a blank)
      is a bad line. */
  lemma ClassifyBad(s: string)
    requires s != [] && !IsSpace(s[0]) && s[0] !in "#T+->=*ED"
    ensures Classify(s) == Bad
  {
    NotSkipped(s);
  }

  /** `T\s*(\S+)`: T, optional blanks, then a word; the word is the
      argument even with no blank before it, so "Test" sets the timeout to
      "est". */
  lemma ClassifyTimeout(s: string, i: nat, j: nat)
    requires |s| >= 1 && s[0] == 'T' && 1 <= i < j <= |s|
    requires forall p :: 1 <= p < i ==> IsSpace(s[p])
    requires forall p :: i <= p < j ==> !IsSpace(s[p])
    requires j == |s| || IsSpace(s[j])
    ensures Classify(s) == SetTimeout(s[i..j])
  {
    NotSkipped(s);
    SkipSpaceAt(s, 1, i);
    RunEndAt(s, i, j);
  }

  /** A T followed only by blanks has no argument and is a bad line. */
  lemma ClassifyLoneT(s: string)
    requires |s| >= 1 && s[0] == 'T' && forall p :: 1 <= p < |s| ==> IsSpace(s[p])
    ensures Classify(s) == Bad
  {
    NotSkipped(s);
    SkipSpaceAt(s, 1, |s|);
    RunEndAt(s, |s|, |s|);
  }

  /** `+\s*(\S+)\s+(\S+)`: the destination and the source word. */
  lemma ClassifyCopy(s: string, i: nat, j: nat, k: nat, l: nat)
    requires |s| >= 1 && s[0] == '+' && 1 <= i < j < k < l <= |s|
    requires forall p :: 1 <= p < i ==> IsSpace(s[p])
    requires forall p :: i <= p < j ==> !IsSpace(s[p])
    requires forall p :: j <= p < k ==> IsSpace(s[p])
    requires forall p :: k <= p < l ==> !IsSpace(s[p])
    requires l == |s| || IsSpace(s[l])
    ensures Classify(s) == Copy(s[i..j], s[k..l])
  {
    NotSkipped(s);
    SkipSpaceAt(s, 1, i);
    RunEndAt(s, i, j);
    SkipSpaceAt(s, j, k);
    RunEndAt(s, k, l);
  }

  /** `>\s*(.*)`: the command is the rest of the line after the blanks, up
      to the newline; it may be empty. */
  lemma ClassifyExecute(s: string, i: nat, e: nat)
    requires |s| >= 1 && s[0] == '>' && 1 <= i <= e <= |s|
    requires forall p :: 1 <= p < i ==> IsSpace(s[p])
    requires i == |s| || !IsSpace(s[i])
    requires forall p :: i <= p < e ==> s[p] != '\n'
    requires e == |s| || s[e] == '\n'
    ensures Classify(s) == Execute(s[i..e])
  {
    NotSkipped(s);
    SkipSpaceAt(s, 1, i);
    var rest := s[i..];
    assert rest[..e - i] == s[i..e];
  }

  /** The last quote of a string is the one at p when only blanks follow
      it. */
  lemma LastQuoteAt(s: string, p: nat)
    requires p < |s| && s[p] == '"' && forall x :: p < x < |s| ==> IsSpace(s[x])
    ensures LastQuote(s) == Some(p)
  {
  }

  /** The name ends exactly at j when s[i..j) is made of identifier
      characters and s[j] is not one. */
  lemma IdEndAt(s: string, i: nat, j: nat)
    requires i <= j < |s|
    requires forall x :: i <= x < j ==> IsIdChar(s[x])
    requires !IsIdChar(s[j])
    ensures IdEnd(s, i) == j
  {
  }

  /** `D\s*([a-zA-Z_][a-zA-Z_0-9]*)\s*"(.*)"\s*$`: the value runs from the
      first quote after the name to the last quote of the line, so it may
      itself hold quotes. */
  lemma ClassifyDefine(s: string, i: nat, j: nat, q: nat, p: nat)
    requires |s| >= 1 && s[0] == 'D' && 1 <= i < j <= q < p < |s|
    requires forall x :: 1 <= x < i ==> IsSpace(s[x])
    requires IsIdStart(s[i]) && forall x :: i < x < j ==> IsIdChar(s[x])
    requires !IsIdChar(s[j])
    requires forall x :: j <= x < q ==> IsSpace(s[x])
    requires s[q] == '"' && s[p] == '"'
    requires forall x :: q < x < p ==> s[x] != '\n'
    requires forall x :: p < x < |s| ==> IsSpace(s[x])
    ensures Classify(s) == Define(s[i..j], s[q + 1..p])
  {
    NotSkipped(s);
    DefineArgsAt(s, i, j, q, p);
  }

  /** The name and the value of a well-formed D line. */
  lemma DefineArgsAt(s: string, i: nat, j: nat, q: nat, p: nat)
    requires |s| >= 1 && 1 <= i < j <= q < p < |s|
    requires forall x :: 1 <= x < i ==> IsSpace(s[x])
    requires IsIdStart(s[i]) && forall x :: i < x < j ==> IsIdChar(s[x])
    requires !IsIdChar(s[j])
    requires forall x :: j <= x < q ==> IsSpace(s[x])
    requires s[q] == '"' && s[p] == '"'
    requires forall x :: q < x < p ==> s[x] != '\n'
    requires forall x :: p < x < |s| ==> IsSpace(s[x])
    ensures DefineArgs(s) == Some((s[i..j], s[q + 1..p]))
  {
    SkipSpaceAt(s, 1, i);
    IdEndAt(s, i + 1, j);
    SkipSpaceAt(s, j, q);
    QuotedValueAt(s, q, p);
    DefineArgsFrom(s, i, j, q, s[q + 1..p]);
  }

  /** DefineArgs in terms of where each of its scans ends. */
  lemma DefineArgsFrom(s: string, i: nat, j: nat, q: nat, v: string)
    requires |s| >= 1 && SkipSpace(s, 1) == i && i < |s| && IsIdStart(s[i])
    requires IdEnd(s, i + 1) == j && SkipSpace(s, j) == q && q < |s| && s[q] == '"'
    requires QuotedValue(s[q + 1..]) == Some(v)
    ensures DefineArgs(s) == Some((s[i..j], v))
  {
  }

  /** The value between the quote at q and the last quote, at p. */
  lemma QuotedValueAt(s: string, q: nat, p: nat)
    requires q < p < |s| && s[p] == '"'
    requires forall x :: q < x < p ==> s[x] != '\n'
    requires forall x :: p < x < |s| ==> IsSpace(s[x])
    ensures QuotedValue(s[q + 1..]) == Some(s[q + 1..p])
  {
    var rest := s[q + 1..];
    var value := s[q + 1..p];
    assert rest[..p - q - 1] == value;
    assert '\n' !in value by {
      forall x | 0 <= x < |value| ensures value[x] != '\n' {
        assert value[x] == s[q + 1 + x];
      }
    }
    assert forall x :: p - q <= x < |rest| ==> IsSpace(rest[x]) by {
      forall x | p - q <= x < |rest| ensures IsSpace(rest[x]) {
        assert rest[x] == s[q + 1 + x];
      }
    }
    LastQuoteAt(rest, p - q - 1);
  }
}
