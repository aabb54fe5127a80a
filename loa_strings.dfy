/** The string tools of Lines of Action. */
module LoaStrings {

  /** String.toUpperCase of a one-character string, restricted to ASCII:
      a to z map to A to Z and every other character is kept. Java also
      upper-cases the other lower-case letters of Unicode (à to À), follows
      the default locale, and may lengthen the text (ß to SS); this
      function leaves such characters as they are. */
  function UpperCase(c: char): (u: char)
    ensures 'a' <= c <= 'z' ==> 'A' <= u <= 'Z' && u as int == c as int - 32
    ensures !('a' <= c <= 'z') ==> u == c
  {
    if 'a' <= c <= 'z' then (c as int - 32) as char else c
  }

  /** capitalizeFirstLetter(original): the empty string unchanged, otherwise
      the first character upper-cased and the rest as it was. */
  function CapitalizeFirstLetter(original: string): (r: string)
    ensures |r| == |original|
    ensures original == [] ==> r == original
    ensures original != [] ==> r[0] == UpperCase(original[0]) && r[1..] == original[1..]
  {
    if |original| == 0 then original else [UpperCase(original[0])] + original[1..]
  }

  /** Capitalizing twice capitalizes once, and a string starting with
      anything but a lower-case letter is left unchanged. */
  lemma CapitalizeIdempotent(s: string)
    ensures CapitalizeFirstLetter(CapitalizeFirstLetter(s)) == CapitalizeFirstLetter(s)
    ensures s != [] && !('a' <= s[0] <= 'z') ==> CapitalizeFirstLetter(s) == s
  {
  }

  /** The cases of the unit test: "" stays "", "hi" becomes "Hi", "1isd"
      stays "1isd". */
  lemma CapitalizeExamples()
    ensures CapitalizeFirstLetter("") == ""
    ensures CapitalizeFirstLetter("hi") == "Hi"
    ensures CapitalizeFirstLetter("1isd") == "1isd"
  {
    assert CapitalizeFirstLetter("hi") == ['H'] + "hi"[1..];
    assert CapitalizeFirstLetter("1isd") == ['1'] + "1isd"[1..];
  }
}
