/** Shared vocabulary: optional values, results carrying an error message,
    Java string comparison and hashing, and Python's notion of whitespace. */
module Common {

  datatype Option<T> = None | Some(value: T)

  /** A Java or Python operation that either returns a value or throws an
      exception carrying a message. */
  datatype Result<T> = Ok(value: T) | Err(msg: string)
  {
    predicate IsOk() { Ok? }
  }

  const INT_MIN: int := -0x8000_0000
  const INT_MAX: int := 0x7FFF_FFFF

  predicate IsInt32(x: int) { INT_MIN <= x <= INT_MAX }

  /** Two's-complement reading of a 32-bit word, as a Java `int`. */
  function Signed(b: bv32): (r: int)
    ensures IsInt32(r)
    ensures r >= 0 <==> b as int < 0x8000_0000
  {
    if b as int < 0x8000_0000 then b as int else b as int - 0x1_0000_0000
  }

  // ---------------------------------------------------------------------
  // java.lang.String.compareTo: lexicographic, the difference of the first
  // characters that differ, and on a common prefix the difference of the
  // lengths. Java compares UTF-16 code units; a Dafny char is a Unicode
  // scalar value, so the two agree on text of the Basic Multilingual Plane
  // and this one compares a supplementary character as one code point.

  function CompareTo(a: string, b: string): (r: int)
    ensures r == 0 <==> a == b
    ensures |a| == 0 && |b| == 0 ==> r == 0
  {
    if a == [] || b == [] then |a| - |b|
    else if a[0] != b[0] then a[0] as int - b[0] as int
    else CompareTo(a[1..], b[1..])
  }

  predicate Less(a: string, b: string) { CompareTo(a, b) < 0 }

  lemma {:induction false} CompareToAntisymmetric(a: string, b: string)
    ensures CompareTo(a, b) == -CompareTo(b, a)
  {
    if a != [] && b != [] && a[0] == b[0] {
      CompareToAntisymmetric(a[1..], b[1..]);
    }
  }

  lemma {:induction false} LessTransitive(a: string, b: string, c: string)
    requires Less(a, b) && Less(b, c)
    ensures Less(a, c)
  {
    if a != [] && b != [] && c != [] && a[0] == b[0] && b[0] == c[0] {
      LessTransitive(a[1..], b[1..], c[1..]);
    }
  }

  /** Exactly one of a < b, a == b, b < a holds. */
  lemma LessTrichotomy(a: string, b: string)
    ensures Less(a, b) || a == b || Less(b, a)
    ensures !(Less(a, b) && Less(b, a))
  {
    CompareToAntisymmetric(a, b);
  }

  // ---------------------------------------------------------------------
  // java.lang.String.hashCode: s[0]*31^(n-1) + ... + s[n-1], in 32-bit
  // wrap-around arithmetic. Each char is taken as its low 16 bits, which is
  // its UTF-16 code unit in the Basic Multilingual Plane; a supplementary
  // character, two code units in Java, is not hashed as Java hashes it.

  function CharWord(c: char): bv32 { (c as int % 0x1_0000) as bv32 }

  function HashWord(s: string): bv32
  {
    if s == [] then 0 else HashWord(s[..|s| - 1]) * 31 + CharWord(s[|s| - 1])
  }

  function HashCode(s: string): (h: int)
    ensures IsInt32(h)
    ensures s == [] ==> h == 0
  {
    Signed(HashWord(s))
  }

  // ---------------------------------------------------------------------
  // Python 3's whitespace: the characters str.isspace accepts, which are
  // also those `\s` matches in a str pattern and those str.strip,
  // str.rstrip and str.lstrip remove when given no argument.

  predicate IsSpace(c: char)
  {
    || ('\t' <= c <= '\r') || ('\U{001C}' <= c <= ' ')
    || c == '\U{0085}' || c == '\U{00A0}' || c == '\U{1680}'
    || ('\U{2000}' <= c <= '\U{200A}') || c == '\U{2028}' || c == '\U{2029}'
    || c == '\U{202F}' || c == '\U{205F}' || c == '\U{3000}'
  }

  predicate AllSpace(s: string) { forall i :: 0 <= i < |s| ==> IsSpace(s[i]) }

  /** rstrip(): the string without its trailing whitespace (RStripSpec
      says exactly what goes). */
  function RStrip(s: string): (r: string)
    ensures |r| <= |s|
  {
    if s == [] || !IsSpace(s[|s| - 1]) then s else RStrip(s[..|s| - 1])
  }

  /** lstrip(): the string without its leading whitespace (LStripSpec). */
  function LStrip(s: string): (r: string)
    ensures |r| <= |s|
  {
    if s == [] || !IsSpace(s[0]) then s else LStrip(s[1..])
  }

  function Strip(s: string): string { LStrip(RStrip(s)) }

  /** rstrip removes exactly the trailing whitespace and keeps the rest. */
  lemma {:induction false} RStripSpec(s: string)
    ensures var r := RStrip(s);
            && r == s[..|r|] && AllSpace(s[|r|..])
            && (r == [] || !IsSpace(r[|r| - 1]))
    decreases |s|
  {
    if s != [] && IsSpace(s[|s| - 1]) {
      var t := s[..|s| - 1];
      RStripSpec(t);
      var r := RStrip(t);
      assert t[..|r|] == s[..|r|];
      assert s[|r|..] == t[|r|..] + [s[|s| - 1]];
    }
  }

  /** lstrip removes exactly the leading whitespace and keeps the rest. */
  lemma {:induction false} LStripSpec(s: string)
    ensures var r := LStrip(s);
            && r == s[|s| - |r|..] && AllSpace(s[..|s| - |r|])
            && (r == [] || !IsSpace(r[0]))
    decreases |s|
  {
    if s != [] && IsSpace(s[0]) {
      var t := s[1..];
      LStripSpec(t);
      var r := LStrip(t);
      assert t[|t| - |r|..] == s[|s| - |r|..];
      assert s[..|s| - |r|] == [s[0]] + t[..|t| - |r|];
    }
  }

  /** A Java or Python decimal rendering of a natural number. */
  function NatToString(n: nat): (r: string)
    ensures |r| >= 1
    ensures forall i :: 0 <= i < |r| ==> '0' <= r[i] <= '9'
  {
    if n < 10 then [Digit(n)] else NatToString(n / 10) + [Digit(n % 10)]
  }

  /** The decimal text of n spells n, and starts with '0' only when it is
      "0". */
  lemma {:induction false} NatToStringSpells(n: nat)
    ensures DigitsValue(NatToString(n)) == n
    ensures NatToString(n)[0] == '0' ==> n == 0
  {
    if n >= 10 {
      var s := NatToString(n / 10);
      NatToStringSpells(n / 10);
      assert (s + [Digit(n % 10)])[..|s|] == s;
    }
  }

  function Digit(d: nat): (c: char)
    requires d < 10
    ensures '0' <= c <= '9'
    ensures c as int - '0' as int == d
  {
    ('0' as int + d) as char
  }

  /** The number a string of decimal digits spells, most significant digit
      first ("" spells 0). */
  function DigitsValue(s: string): nat
  {
    if s == [] then 0 else DigitsValue(s[..|s| - 1]) * 10 + (s[|s| - 1] as int - '0' as int) % 10
  }

  /** Integer.toString for any int: a '-' for a negative number, then the
      digits of its magnitude. */
  function IntToString(n: int): (r: string)
    ensures |r| >= 1
    ensures r[0] == '-' <==> n < 0
    ensures forall i :: (if n < 0 then 1 else 0) <= i < |r| ==> '0' <= r[i] <= '9'
  {
    if n < 0 then "-" + NatToString(-n) else NatToString(n)
  }

  /** The text of an int spells it: its digits, after the '-' of a
      negative number, spell its magnitude, with no leading zero except in
      "0". */
  lemma IntToStringSpells(n: int)
    ensures var r := IntToString(n);
            && (n >= 0 ==> DigitsValue(r) == n)
            && (n < 0 ==> |r| >= 2 && DigitsValue(r[1..]) == -n)
            && (r[if n < 0 then 1 else 0] == '0' ==> n == 0)
  {
    if n < 0 {
      NatToStringSpells(-n);
      assert IntToString(n)[1..] == NatToString(-n);
    } else {
      NatToStringSpells(n);
    }
  }

  function Join(parts: seq<string>, sep: string): (r: string)
    ensures parts == [] ==> r == ""
    ensures |parts| == 1 ==> r == parts[0]
  {
    if parts == [] then "" else if |parts| == 1 then parts[0] else Join(parts[..|parts| - 1], sep) + sep + parts[|parts| - 1]
  }
}
