/** The `${...}` rewriting of test-script lines: one pass replaces every
    token, and up to ten passes run until a pass changes nothing. */
module TesterSubst {
  import opened Common

  /** A Python exception escaping the interpreter: ValueError is reported
      as a faulty test script, anything else aborts the run. */
  datatype Exc = ValueError(msg: string) | NameError(name: string)

  datatype Res<T> = Done(value: T) | Raise(exc: Exc)

  /** The capture groups of the last compared output: `None` before any
      command has been compared (the global is not yet bound); an unmatched
      optional group is `None` and substitutes as the empty string. */
  datatype Env = Env(lastGroups: Option<seq<Option<string>>>, defns: map<string, string>)

  const MAX_PASSES: nat := 10

  /** A digit of `\d`, restricted to ASCII: in a str pattern Python's `\d`
      also matches the decimal digits of other scripts, which this model
      does not. */
  predicate IsDigit(c: char) { '0' <= c <= '9' }

  predicate IsDigits(s: string) { |s| > 0 && forall i :: 0 <= i < |s| ==> IsDigit(s[i]) }

  /** The replacement text for `${key}`. */
  function SubstVar(key: string, env: Env): (r: Res<string>)
    ensures IsDigits(key) && env.lastGroups.Some? && DigitsValue(key) >= |env.lastGroups.value|
            ==> r == Raise(ValueError("FAILED (nonexistent group: {" + key + "})"))
    ensures !IsDigits(key) && key !in env.defns ==> r == Raise(ValueError("undefined substitution: ${" + key + "}"))
    ensures !IsDigits(key) && key in env.defns ==> r == Done(env.defns[key])
    ensures IsDigits(key) && env.lastGroups.None? ==> r.Raise? && r.exc.NameError?
  {
    if IsDigits(key) then
      match env.lastGroups
      case None => Raise(NameError("last_groups"))
      case Some(groups) =>
        var k := DigitsValue(key);
        if k < |groups| then Done(if groups[k].Some? then groups[k].value else "")
        else Raise(ValueError("FAILED (nonexistent group: {" + key + "})"))
    else if key in env.defns then Done(env.defns[key])
    else Raise(ValueError("undefined substitution: ${" + key + "}"))
  }


  /** The index of the first `}` at or after i with no newline before it:
      where the lazy `(.*?)` of the token pattern stops. */
  function CloseBrace(s: string, i: nat): (k: Option<nat>)
    requires i <= |s|
    ensures k.Some? ==> i <= k.value < |s| && s[k.value] == '}' && '\n' !in s[i..k.value] && '}' !in s[i..k.value]
    ensures k.None? ==> forall p :: i <= p < |s| && s[p] == '}' ==> '\n' in s[i..p]
    decreases |s| - i
  {
    if i == |s| || s[i] == '\n' then None
    else if s[i] == '}' then Some(i)
    else
      var k := CloseBrace(s, i + 1);
      assert k.Some? ==> s[i..k.value] == [s[i]] + s[i + 1..k.value];
      assert forall p :: i + 1 < p <= |s| ==> s[i..p] == [s[i]] + s[i + 1..p];
      k
  }

  /** True when s contains the two characters `${` at some position. */
  predicate HasTokenStart(s: string) { exists i :: 0 <= i < |s| - 1 && s[i] == '$' && s[i + 1] == '{' }

  /** One left-to-right pass of the token rewrite; replacements are not
      rescanned within the pass, and the first failing lookup aborts it. */
  function Pass(s: string, env: Env): (r: Res<string>)
    ensures !HasTokenStart(s) ==> r == Done(s)
    decreases |s|
  {
    if |s| < 2 then Done(s)
    else if s[0] == '$' && s[1] == '{' && CloseBrace(s, 2).Some? then
      var k := CloseBrace(s, 2).value;
      match SubstVar(s[2..k], env)
      case Raise(e) => Raise(e)
      case Done(v) =>
        match Pass(s[k + 1..], env)
        case Raise(e) => Raise(e)
        case Done(rest) => Done(v + rest)
    else
      assert !HasTokenStart(s) ==> !HasTokenStart(s[1..]) by {
        if HasTokenStart(s[1..]) {
          var i :| 0 <= i < |s[1..]| - 1 && s[1..][i] == '$' && s[1..][i + 1] == '{';
          assert s[i + 1] == '$' && s[i + 2] == '{';
        }
      }
      assert [s[0]] + s[1..] == s;
      match Pass(s[1..], env)
      case Raise(e) => Raise(e)
      case Done(rest) => Done([s[0]] + rest)
  }

  /** At most `passes` passes, stopping as soon as one changes nothing. */
  function Iterate(s: string, env: Env, passes: nat): Res<string>
    decreases passes
  {
    if passes == 0 then Done(s)
    else match Pass(s, env)
      case Raise(e) => Raise(e)
      case Done(t) => if t == s then Done(t) else Iterate(t, env, passes - 1)
  }

  /** do_substs: the bounded rewriting loop. */
  method DoSubsts(line: string, env: Env) returns (r: Res<string>)
    ensures r == Iterate(line, env, MAX_PASSES)
  {
    var c := 0;
    var prev: Option<string> := None;
    var cur := line;
    while prev != Some(cur) && c < MAX_PASSES
      invariant 0 <= c <= MAX_PASSES
      invariant c == 0 <==> prev == None
      invariant prev == Some(cur) ==> Iterate(line, env, MAX_PASSES) == Done(cur)
      invariant prev != Some(cur) ==> Iterate(line, env, MAX_PASSES) == Iterate(cur, env, MAX_PASSES - c)
      decreases MAX_PASSES - c
    {
      c := c + 1;
      prev := Some(cur);
      var p := Pass(cur, env);
      if p.Raise? {
        return Raise(p.exc);
      }
      cur := p.value;
    }
    r := Done(cur);
  }

  /** Once a pass leaves the text unchanged, further passes change nothing. */
  lemma {:induction false} IterateFixedPoint(s: string, env: Env, passes: nat)
    requires Pass(s, env) == Done(s)
    ensures Iterate(s, env, passes) == Done(s)
  {
  }

  /** The rewriting is the result of some number of passes, at most ten; it
      stops early only at a text the next pass leaves unchanged. */
  lemma {:induction false} IterateIsBoundedPasses(s: string, env: Env, passes: nat)
    requires Iterate(s, env, passes).Done?
    ensures exists k :: 0 <= k <= passes && PassesOk(s, env, k, Iterate(s, env, passes).value)
    decreases passes
  {
    if passes > 0 {
      var t := Pass(s, env).value;
      if t == s {
        assert PassesOk(s, env, 1, t);
      } else {
        IterateIsBoundedPasses(t, env, passes - 1);
        var k :| 0 <= k <= passes - 1 && PassesOk(t, env, k, Iterate(t, env, passes - 1).value);
        assert PassesOk(s, env, k + 1, Iterate(s, env, passes).value);
      }
    } else {
      assert PassesOk(s, env, 0, s);
    }
  }

  /** Exactly k successful passes lead from s to t. */
  predicate PassesOk(s: string, env: Env, k: nat, t: string)
    decreases k
  {
    if k == 0 then s == t
    else Pass(s, env).Done? && PassesOk(Pass(s, env).value, env, k - 1, t)
  }

  /** A line without any `${` is left as it is. */
  lemma NoTokenUnchanged(s: string, env: Env)
    requires !HasTokenStart(s)
    ensures Iterate(s, env, MAX_PASSES) == Done(s)
  {
    IterateFixedPoint(s, env, MAX_PASSES);
  }

  /** A defined name whose value contains no token is replaced by its value. */
  lemma {:induction false} DefinedToken(key: string, env: Env)
    requires key in env.defns && !IsDigits(key) && '}' !in key && '\n' !in key
    requires !HasTokenStart(env.defns[key])
    ensures Iterate("${" + key + "}", env, MAX_PASSES) == Done(env.defns[key])
  {
    var s := "${" + key + "}";
    CloseBraceAtEnd(key);
    assert s[2..2 + |key|] == key;
    assert s[2 + |key| + 1..] == "";
    assert Pass(s, env) == Done(env.defns[key] + "");
    assert env.defns[key] + "" == env.defns[key];
    var v := env.defns[key];
    if v != s {
      NoTokenUnchanged(v, env);
      IterateFixedPoint(v, env, MAX_PASSES - 1);
    }
  }

  lemma {:induction false} CloseBraceAtEnd(key: string)
    requires '}' !in key && '\n' !in key
    ensures CloseBrace("${" + key + "}", 2) == Some(2 + |key|)
  {
    var s := "${" + key + "}";
    var i := 2 + |key|;
    while i > 2
      invariant 2 <= i <= 2 + |key|
      invariant CloseBrace(s, i) == Some(2 + |key|)
    {
      i := i - 1;
      assert s[i] == key[i - 2];
    }
  }

  /** `${N}` for a group number past the recorded groups fails with
      "nonexistent group". */
  lemma NonexistentGroupToken(key: string, env: Env)
    requires IsDigits(key) && env.lastGroups.Some? && DigitsValue(key) >= |env.lastGroups.value|
    ensures Iterate("${" + key + "}", env, MAX_PASSES) == Raise(ValueError("FAILED (nonexistent group: {" + key + "})"))
  {
    var s := "${" + key + "}";
    assert forall i :: 0 <= i < |key| ==> key[i] != '}' && key[i] != '\n';
    CloseBraceAtEnd(key);
    assert s[2..2 + |key|] == key;
  }

  /** `${name}` for a name that is neither a number nor defined fails with
      "undefined substitution". */
  lemma UndefinedToken(key: string, env: Env)
    requires !IsDigits(key) && key !in env.defns && '}' !in key && '\n' !in key
    ensures Iterate("${" + key + "}", env, MAX_PASSES) == Raise(ValueError("undefined substitution: ${" + key + "}"))
  {
    var s := "${" + key + "}";
    CloseBraceAtEnd(key);
    assert s[2..2 + |key|] == key;
  }
}
