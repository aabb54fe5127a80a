/** Homework 3's translating reader: a Reader whose characters are those
    of a source Reader with each character of `from` replaced by the
    character at the same position in `to`. The source is modelled as a
    java.io.StringReader over the characters it has still to deliver. */
module TrReaders {
  import opened Common

  /** String.indexOf(c): the first index holding c, or -1. */
  function IndexOf(s: string, c: char): (i: int)
    ensures -1 <= i < |s|
    ensures i == -1 <==> c !in s
    ensures i >= 0 ==> s[i] == c && c !in s[..i]
  {
    if s == [] then -1
    else if s[0] == c then 0
    else
      var j := IndexOf(s[1..], c);
      assert j >= 0 ==> s[..j + 1] == [s[0]] + s[1..][..j];
      if j == -1 then -1 else j + 1
  }

  /** map(origin): characters outside `from` pass unchanged; one inside
      goes to the character of `to` at its first position in `from`. */
  function Translate(from: string, to: string, origin: char): (c: char)
    requires |from| == |to|
    ensures origin !in from ==> c == origin
    ensures forall i :: 0 <= i < |from| && from[i] == origin && origin !in from[..i] ==> c == to[i]
  {
    var fromIndex := IndexOf(from, origin);
    if fromIndex == -1 then origin else to[fromIndex]
  }

  predicate Distinct(s: string)
  {
    forall i, j :: 0 <= i < j < |s| ==> s[i] != s[j]
  }

  /** In a string without repetitions, the first index of s[i] is i. */
  lemma IndexOfDistinct(s: string, i: nat)
    requires Distinct(s) && i < |s|
    ensures IndexOf(s, s[i]) == i
  {
  }

  /** Translating by a permutation of the characters and back by the
      reverse translation restores every character. */
  lemma TranslateRoundTrip(from: string, to: string, c: char)
    requires |from| == |to| && Distinct(from) && Distinct(to)
    requires forall x :: x in from <==> x in to
    ensures Translate(to, from, Translate(from, to, c)) == c
  {
    var i := IndexOf(from, c);
    if i >= 0 {
      IndexOfDistinct(to, i);
    }
  }

  class TrReader {
    const from: string
    const to: string
    /** What the source reader has still to deliver. */
    var source: seq<char>

    ghost predicate Valid()
      reads this
    {
      |from| == |to|
    }

    /** new TrReader(str, from, to): the constructor's asserts require
        from and to to have the same length. */
    constructor (str: seq<char>, from: string, to: string)
      requires |from| == |to|
      ensures Valid() && this.from == from && this.to == to && source == str
    {
      this.from := from;
      this.to := to;
      source := str;
    }

    /** read(cbuf, off, len): the source (a StringReader) throws on a bad
        range, returns 0 for len 0 and -1 at its end, and otherwise copies
        min(len, what it has) characters into cbuf at off. Then every
        character of cbuf[off..off + len) is translated, including those
        the source did not overwrite, and min(len, the source's result) is
        returned. */
    method Read(cbuf: array<char>, off: int, len: int) returns (r: Result<int>)
      requires Valid()
      modifies this`source, cbuf
      ensures Valid()
      ensures !(0 <= off && 0 <= len && off + len <= cbuf.Length) ==>
                r == Err("IndexOutOfBoundsException") && cbuf[..] == old(cbuf[..]) && source == old(source)
      ensures 0 <= off && 0 <= len && off + len <= cbuf.Length ==>
                var n := if len < |old(source)| then len else |old(source)|;
                && r == Ok(if len > 0 && old(source) == [] then -1 else n)
                && source == old(source)[n..]
                && cbuf[..off] == old(cbuf[..off]) && cbuf[off + len..] == old(cbuf[off + len..])
                && (forall i :: off <= i < off + n ==> cbuf[i] == Translate(from, to, old(source)[i - off]))
                && (forall i :: off + n <= i < off + len ==> cbuf[i] == Translate(from, to, old(cbuf[i])))
    {
      if !(0 <= off && 0 <= len && off + len <= cbuf.Length) {
        return Err("IndexOutOfBoundsException");
      }
      var readStatus := ReadSource(cbuf, off, len);
      ghost var filled, rest := cbuf[..], source;
      for i := off to off + len
        invariant cbuf[..off] == filled[..off] && cbuf[off + len..] == filled[off + len..]
        invariant forall k :: off <= k < i ==> cbuf[k] == Translate(from, to, filled[k])
        invariant forall k :: i <= k < off + len ==> cbuf[k] == filled[k]
        invariant source == rest
      {
        cbuf[i] := Translate(from, to, cbuf[i]);
      }
      r := Ok(if len < readStatus then len else readStatus);
    }

    /** StringReader.read(cbuf, off, len) on a valid range. */
    method ReadSource(cbuf: array<char>, off: nat, len: nat) returns (status: int)
      requires off + len <= cbuf.Length
      modifies this`source, cbuf
      ensures var n := if len < |old(source)| then len else |old(source)|;
              && status == (if len > 0 && old(source) == [] then -1 else n)
              && source == old(source)[n..]
              && cbuf[..off] == old(cbuf[..off]) && cbuf[off + n..] == old(cbuf[off + n..])
              && forall i :: off <= i < off + n ==> cbuf[i] == old(source)[i - off]
    {
      assert source[0..] == source;
      if len == 0 {
        return 0;
      }
      if source == [] {
        return -1;
      }
      var n := if len < |source| then len else |source|;
      forall i | off <= i < off + n {
        cbuf[i] := source[i - off];
      }
      source := source[n..];
      status := n;
    }
  }
}
