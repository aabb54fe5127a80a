/** A row of a db61b table: its column values, in order. */
module DbRows {
  import opened Common

  datatype Row = Row(data: seq<string>)

  /** size() */
  function Size(r: Row): (n: nat)
    ensures n == |r.data|
  {
    |r.data|
  }

  /** get(k), for 0 <= k < size() as its callers promise. */
  function Get(r: Row, k: nat): (v: string)
    requires k < Size(r)
    ensures v == r.data[k]
  {
    r.data[k]
  }

  /** equals(obj): Arrays.equals on the values, element by element, which
      is equality of the rows. */
  predicate Equals(r: Row, s: Row)
    ensures Equals(r, s) <==> r == s
  {
    var same := |r.data| == |s.data| && forall i :: 0 <= i < |r.data| ==> r.data[i] == s.data[i];
    assert same ==> r.data == s.data;
    same
  }

  /** The loop of toString and toDBFormat: value i is appended, then sep
      when i is not the last position. */
  method JoinLoop(data: seq<string>, sep: char) returns (dbF: string)
    ensures dbF == Join(data, [sep])
  {
    dbF := "";
    for i := 0 to |data|
      invariant dbF == Join(data[..i], [sep]) + (if 0 < i < |data| then [sep] else [])
    {
      assert data[..i + 1][..i] == data[..i];
      dbF := dbF + data[i];
      if i != |data| - 1 {
        dbF := dbF + [sep];
      }
    }
    assert data[..|data|] == data;
  }

  /** toString(): the values separated by single spaces. */
  method ToString(r: Row) returns (s: string)
    ensures s == Join(r.data, " ")
  {
    s := JoinLoop(r.data, ' ');
  }

  /** toDBFormat(): the values separated by commas; "" for an empty row. */
  method ToDBFormat(r: Row) returns (s: string)
    ensures s == Join(r.data, ",")
    ensures r.data == [] ==> s == ""
  {
    s := JoinLoop(r.data, ',');
  }

  /** The pieces of s between occurrences of sep, as String.split(sep)
      finds them before it drops the trailing empty ones. */
  function Pieces(s: string, sep: char): (ps: seq<string>)
    ensures |ps| >= 1
    ensures forall i :: 0 <= i < |ps| ==> sep !in ps[i]
  {
    if s == [] then [""]
    else
      var ps := Pieces(s[..|s| - 1], sep);
      if s[|s| - 1] == sep then ps + [""]
      else ps[..|ps| - 1] + [ps[|ps| - 1] + [s[|s| - 1]]]
  }

  /** The pieces of joined values with no sep in them are the values. */
  lemma {:induction false} PiecesOfJoin(xs: seq<string>, sep: char)
    requires |xs| >= 1 && forall i :: 0 <= i < |xs| ==> sep !in xs[i]
    ensures Pieces(Join(xs, [sep]), sep) == xs
    decreases |xs|, |xs[|xs| - 1]|
  {
    var last := xs[|xs| - 1];
    if |xs| == 1 {
      PiecesOfPlain(last, sep);
    } else {
      var ys := xs[..|xs| - 1];
      PiecesOfJoin(ys, sep);
      PiecesAppend(Join(ys, [sep]), sep, last);
    }
  }

  /** A string without sep is one piece. */
  lemma {:induction false} PiecesOfPlain(s: string, sep: char)
    requires sep !in s
    ensures Pieces(s, sep) == [s]
  {
    if s != [] {
      PiecesOfPlain(s[..|s| - 1], sep);
      assert s[..|s| - 1] + [s[|s| - 1]] == s;
    }
  }

  /** Appending sep and a string without sep adds that string as one more
      piece. */
  lemma {:induction false} PiecesAppend(s: string, sep: char, t: string)
    requires sep !in t
    ensures Pieces(s + [sep] + t, sep) == Pieces(s, sep) + [t]
    decreases |t|
  {
    if t == [] {
      assert s + [sep] + t == s + [sep] && (s + [sep])[..|s|] == s;
    } else {
      var u := t[..|t| - 1];
      assert (s + [sep] + t)[..|s + [sep] + t| - 1] == s + [sep] + u;
      PiecesAppend(s, sep, u);
      assert u + [t[|t| - 1]] == t;
    }
  }

  /** String.split(sep): the pieces with the trailing empty ones dropped,
      unless sep does not occur, in which case s itself. */
  function Split(s: string, sep: char): (r: seq<string>)
    ensures sep !in s ==> r == [s]
    ensures sep in s ==> |r| <= |Pieces(s, sep)| && r == Pieces(s, sep)[..|r|] && (r == [] || r[|r| - 1] != "")
    ensures forall i :: 0 <= i < |r| ==> sep !in r[i]
  {
    if sep !in s then [s] else DropTrailingEmpty(Pieces(s, sep))
  }

  function DropTrailingEmpty(ps: seq<string>): (r: seq<string>)
    ensures |r| <= |ps| && r == ps[..|r|]
    ensures r == [] || r[|r| - 1] != ""
  {
    if ps == [] || ps[|ps| - 1] != "" then ps else DropTrailingEmpty(ps[..|ps| - 1])
  }

  /** A row written by toDBFormat reads back as the same values by
      split(","), when no value contains a comma and the last one is not
      empty. A last value that is empty is lost. */
  lemma SplitToDBFormat(r: Row)
    requires |r.data| >= 1 && r.data[|r.data| - 1] != ""
    requires forall i :: 0 <= i < |r.data| ==> ',' !in r.data[i]
    ensures Split(Join(r.data, ","), ',') == r.data
  {
    PiecesOfJoin(r.data, ',');
    if ',' !in Join(r.data, ",") {
      PiecesOfPlain(Join(r.data, ","), ',');
    }
  }

  lemma LastEmptyIsLost()
    ensures Split(Join(["a", ""], ","), ',') == ["a"]
  {
    var s := Join(["a", ""], ",");
    assert s == "a" + [','] + "";
    assert ',' in s by { assert s[1] == ','; }
    PiecesOfPlain("a", ',');
    PiecesAppend("a", ',', "");
    assert Pieces(s, ',') == ["a", ""];
    assert ["a", ""][..1] == ["a"];
    assert DropTrailingEmpty(["a", ""]) == ["a"];
  }
}
