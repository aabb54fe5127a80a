/** Comparison of a command's standard output with the expected block of a
    test script: fuzzy (edit distance at most two per line) or by regular
    expressions, recording the capture groups for later `${N}` tokens. */
module TesterOutput {
  import opened Common
  import opened TesterEditDistance

  const OUTPUT_TOLERANCE: nat := 2

  /** `re.match(pattern, subject)` as an oracle: the groups 1..n of a
      match (None for a group that did not take part), or None. */
  type Matcher = (string, string) -> Option<seq<Option<string>>>

  function FirstNewline(s: string): (i: nat)
    ensures i <= |s| && '\n' !in s[..i]
    ensures i < |s| ==> s[i] == '\n'
  {
    if s == [] || s[0] == '\n' then 0
    else
      var i := FirstNewline(s[1..]);
      assert s[..i + 1] == [s[0]] + s[1..][..i];
      i + 1
  }

  /** `re.split(r'\n\r?', s)`: pieces between newlines, a carriage return
      right after a newline belonging to the separator. */
  function SplitLines(s: string): (r: seq<string>)
    ensures |r| >= 1
    ensures forall k :: 0 <= k < |r| ==> '\n' !in r[k]
    ensures '\n' !in s ==> r == [s]
    decreases |s|
  {
    var i := FirstNewline(s);
    if i == |s| then
      assert s[..i] == s;
      [s]
    else
      var rest := if i + 1 < |s| && s[i + 1] == '\r' then s[i + 2..] else s[i + 1..];
      [s[..i]] + SplitLines(rest)
  }

  /** The number of lines left once trailing whitespace-only lines are
      dropped. */
  function TrimLen(lines: seq<string>): (n: nat)
    ensures n <= |lines|
    ensures forall i :: n <= i < |lines| ==> AllSpace(lines[i])
    ensures n > 0 ==> !AllSpace(lines[n - 1])
  {
    if lines == [] then 0
    else if AllSpace(lines[|lines| - 1]) then TrimLen(lines[..|lines| - 1])
    else |lines|
  }

  /** The pairwise comparison of equally long line lists; `acc` is the
      capture-group tuple built so far. */
  function ComparePairs(es: seq<string>, as_: seq<string>, regexp: bool, m: Matcher,
                        acc: seq<Option<string>>): (bool, seq<Option<string>>)
    requires |es| == |as_|
    decreases |es|
  {
    if es == [] then (true, acc)
    else if regexp then
      match m(Strip(es[0]) + "$", Strip(as_[0]))
      case None => (false, acc)
      case Some(g) => ComparePairs(es[1..], as_[1..], regexp, m, acc + g)
    else if Lev(Strip(es[0]), Strip(as_[0])) > OUTPUT_TOLERANCE then (false, acc)
    else ComparePairs(es[1..], as_[1..], regexp, m, acc)
  }

  /** The verdict and the new capture-group tuple of one comparison. */
  function CompareOutput(expected: seq<string>, actual: string, regexp: bool, m: Matcher)
    : (bool, seq<Option<string>>)
  {
    var out := RStrip(actual);
    var lines := SplitLines(out);
    var el, al := TrimLen(expected), TrimLen(lines);
    if el != al then (false, [Some(out)])
    else ComparePairs(expected[..el], lines[..al], regexp, m, [Some(out)])
  }

  /** Length of `lines` without its trailing blank lines, counted down
      from the end. */
  method TrimmedLength(lines: seq<string>) returns (len: nat)
    ensures len == TrimLen(lines)
  {
    len := |lines|;
    while len > 0 && AllSpace(lines[len - 1])
      invariant len <= |lines|
      invariant TrimLen(lines) == TrimLen(lines[..len])
    {
      assert lines[..len][..len - 1] == lines[..len - 1];
      len := len - 1;
    }
    assert lines[..len][..|lines[..len]|] == lines[..len];
  }

  /** correctProgramOutput. */
  method CorrectProgramOutput(expected: seq<string>, actual: string, regexp: bool, m: Matcher)
    returns (ok: bool, lastGroups: seq<Option<string>>)
    ensures (ok, lastGroups) == CompareOutput(expected, actual, regexp, m)
  {
    var out := RStrip(actual);
    lastGroups := [Some(out)];
    var lines := SplitLines(out);
    var expectedLen := TrimmedLength(expected);
    var actualLen := TrimmedLength(lines);
    if expectedLen != actualLen {
      return false, lastGroups;
    }
    ghost var es, as_ := expected[..expectedLen], lines[..actualLen];
    var k := 0;
    while k < expectedLen
      invariant 0 <= k <= expectedLen
      invariant CompareOutput(expected, actual, regexp, m) == ComparePairs(es[k..], as_[k..], regexp, m, lastGroups)
    {
      assert es[k..][1..] == es[k + 1..] && as_[k..][1..] == as_[k + 1..];
      var e, a := Strip(expected[k]), Strip(lines[k]);
      if regexp {
        var groups := m(e + "$", a);
        if groups.None? {
          return false, lastGroups;
        }
        lastGroups := lastGroups + groups.value;
      } else {
        var d := EditDistance(e, a);
        if d > OUTPUT_TOLERANCE {
          return false, lastGroups;
        }
      }
      k := k + 1;
    }
    ok := true;
  }

  // ---------------------------------------------------------------------
  // What the comparison means.

  /** Every line pair within the edit-distance tolerance. */
  predicate AllClose(es: seq<string>, as_: seq<string>)
    requires |es| == |as_|
  {
    forall k :: 0 <= k < |es| ==> Lev(Strip(es[k]), Strip(as_[k])) <= OUTPUT_TOLERANCE
  }

  /** Every stripped actual line matched by its stripped expected pattern
      anchored with `$`. */
  predicate AllMatch(es: seq<string>, as_: seq<string>, m: Matcher)
    requires |es| == |as_|
  {
    forall k :: 0 <= k < |es| ==> m(Strip(es[k]) + "$", Strip(as_[k])).Some?
  }

  /** The groups of all line matches, in line order. */
  function AllGroups(es: seq<string>, as_: seq<string>, m: Matcher): seq<Option<string>>
    requires |es| == |as_| && AllMatch(es, as_, m)
    decreases |es|
  {
    if es == [] then []
    else m(Strip(es[0]) + "$", Strip(as_[0])).value + AllGroups(es[1..], as_[1..], m)
  }

  lemma {:induction false} FuzzyPairs(es: seq<string>, as_: seq<string>, m: Matcher, acc: seq<Option<string>>)
    requires |es| == |as_|
    ensures ComparePairs(es, as_, false, m, acc) == (AllClose(es, as_), acc)
    decreases |es|
  {
    if es != [] {
      FuzzyPairs(es[1..], as_[1..], m, acc);
      assert AllClose(es[1..], as_[1..]) <== AllClose(es, as_) by {
        forall k | 0 <= k < |es| - 1 ensures es[1..][k] == es[k + 1] && as_[1..][k] == as_[k + 1] { }
      }
      if Lev(Strip(es[0]), Strip(as_[0])) <= OUTPUT_TOLERANCE && AllClose(es[1..], as_[1..]) {
        forall k | 0 <= k < |es| ensures Lev(Strip(es[k]), Strip(as_[k])) <= OUTPUT_TOLERANCE {
          if k > 0 { assert es[k] == es[1..][k - 1] && as_[k] == as_[1..][k - 1]; }
        }
      }
    }
  }

  lemma {:induction false} RegexPairs(es: seq<string>, as_: seq<string>, m: Matcher, acc: seq<Option<string>>)
    requires |es| == |as_|
    ensures ComparePairs(es, as_, true, m, acc).0 == AllMatch(es, as_, m)
    ensures AllMatch(es, as_, m) ==> ComparePairs(es, as_, true, m, acc).1 == acc + AllGroups(es, as_, m)
    decreases |es|
  {
    if es == [] {
      assert acc + [] == acc;
    } else {
      var g := m(Strip(es[0]) + "$", Strip(as_[0]));
      assert AllMatch(es, as_, m) ==> AllMatch(es[1..], as_[1..], m) by {
        if AllMatch(es, as_, m) {
          forall k | 0 <= k < |es| - 1 ensures m(Strip(es[1..][k]) + "$", Strip(as_[1..][k])).Some? {
            assert es[1..][k] == es[k + 1] && as_[1..][k] == as_[k + 1];
          }
        }
      }
      if g.Some? {
        RegexPairs(es[1..], as_[1..], m, acc + g.value);
        if AllMatch(es[1..], as_[1..], m) {
          forall k | 0 <= k < |es| ensures m(Strip(es[k]) + "$", Strip(as_[k])).Some? {
            if k > 0 { assert es[k] == es[1..][k - 1] && as_[k] == as_[1..][k - 1]; }
          }
          assert acc + g.value + AllGroups(es[1..], as_[1..], m) == acc + (g.value + AllGroups(es[1..], as_[1..], m));
        }
      }
    }
  }

  /** Fuzzy mode passes iff the trimmed line counts agree and every pair of
      stripped lines is within edit distance two; the groups are then just
      the right-stripped output. */
  lemma FuzzyVerdict(expected: seq<string>, actual: string, m: Matcher)
    ensures var lines := SplitLines(RStrip(actual));
            var el, al := TrimLen(expected), TrimLen(lines);
            (CompareOutput(expected, actual, false, m).0 <==> el == al && AllClose(expected[..el], lines[..al]))
    ensures CompareOutput(expected, actual, false, m).1 == [Some(RStrip(actual))]
  {
    var lines := SplitLines(RStrip(actual));
    var el, al := TrimLen(expected), TrimLen(lines);
    if el == al {
      FuzzyPairs(expected[..el], lines[..al], m, [Some(RStrip(actual))]);
    }
  }

  /** Regular-expression mode passes iff the trimmed line counts agree and
      every pattern matches its line; the groups are then the
      right-stripped output followed by the groups of every line. */
  lemma RegexVerdict(expected: seq<string>, actual: string, m: Matcher)
    ensures var lines := SplitLines(RStrip(actual));
            var el, al := TrimLen(expected), TrimLen(lines);
            && (CompareOutput(expected, actual, true, m).0 <==> el == al && AllMatch(expected[..el], lines[..al], m))
            && (CompareOutput(expected, actual, true, m).0 ==>
                  CompareOutput(expected, actual, true, m).1
                    == [Some(RStrip(actual))] + AllGroups(expected[..el], lines[..al], m))
  {
    var lines := SplitLines(RStrip(actual));
    var el, al := TrimLen(expected), TrimLen(lines);
    if el == al {
      RegexPairs(expected[..el], lines[..al], m, [Some(RStrip(actual))]);
    }
  }

  /** Whatever the verdict, the first recorded group is the right-stripped
      output. */
  lemma {:induction false} FirstGroupIsOutput(expected: seq<string>, actual: string, regexp: bool, m: Matcher)
    ensures var g := CompareOutput(expected, actual, regexp, m).1;
            |g| >= 1 && g[0] == Some(RStrip(actual))
  {
    var lines := SplitLines(RStrip(actual));
    var el, al := TrimLen(expected), TrimLen(lines);
    if el == al {
      PairsExtend(expected[..el], lines[..al], regexp, m, [Some(RStrip(actual))]);
    }
  }

  lemma {:induction false} PairsExtend(es: seq<string>, as_: seq<string>, regexp: bool, m: Matcher, acc: seq<Option<string>>)
    requires |es| == |as_|
    ensures var g := ComparePairs(es, as_, regexp, m, acc).1; |acc| <= |g| && g[..|acc|] == acc
    decreases |es|
  {
    if es != [] {
      if regexp {
        var g := m(Strip(es[0]) + "$", Strip(as_[0]));
        if g.Some? {
          PairsExtend(es[1..], as_[1..], regexp, m, acc + g.value);
          assert (acc + g.value)[..|acc|] == acc;
        }
      } else {
        PairsExtend(es[1..], as_[1..], regexp, m, acc);
      }
    }
  }

  /** Trailing blank lines on either side make no difference. */
  lemma TrailingBlanksIgnored(expected: seq<string>, blanks: seq<string>, actual: string, regexp: bool, m: Matcher)
    requires forall i :: 0 <= i < |blanks| ==> AllSpace(blanks[i])
    ensures CompareOutput(expected + blanks, actual, regexp, m) == CompareOutput(expected, actual, regexp, m)
  {
    TrimLenAppendBlanks(expected, blanks);
    assert (expected + blanks)[..TrimLen(expected)] == expected[..TrimLen(expected)];
  }

  lemma {:induction false} TrimLenAppendBlanks(lines: seq<string>, blanks: seq<string>)
    requires forall i :: 0 <= i < |blanks| ==> AllSpace(blanks[i])
    ensures TrimLen(lines + blanks) == TrimLen(lines)
    decreases |blanks|
  {
    if blanks == [] {
      assert lines + blanks == lines;
    } else {
      var front := blanks[..|blanks| - 1];
      assert (lines + blanks)[..|lines + blanks| - 1] == lines + front;
      TrimLenAppendBlanks(lines, front);
    }
  }
}
