/** A two-dimensional matrix of bits, one BitSet per row: a row is the
    set of its column indices whose bit is on, and any number of them may
    be on. */
module LoaBitMatrices {

  class BitMatrix {
    /** The rows; the array is made once, each row is changed in place. */
    const rows: array<set<int>>

    /** The positions (i, j) whose bit is on. */
    ghost var bits: set<(int, int)>

    /** bits are exactly the positions the rows hold. */
    ghost predicate Valid()
      reads this, rows
    {
      forall i, j :: (i, j) in bits <==> 0 <= i < rows.Length && j in rows[i]
    }

    /** new BitMatrix(numRows, numColumns): every bit off. The number of
        columns is only a size hint for a row. */
    constructor (numRows: nat, numColumns: nat)
      ensures Valid() && rows.Length == numRows && fresh(rows)
      ensures forall i, j :: 0 <= i < numRows && 0 <= j ==> !Get(i, j)
      ensures bits == {}
    {
      var a := new set<int>[numRows];
      for i := 0 to numRows
        invariant forall k :: 0 <= k < i ==> a[k] == {}
      {
        a[i] := {};
      }
      rows := a;
      bits := {};
    }

    /** get(i, j) */
    function Get(i: int, j: int): (b: bool)
      reads this, rows
      requires Valid() && 0 <= i < rows.Length && 0 <= j
      ensures b <==> (i, j) in bits
    {
      j in rows[i]
    }

    /** set(i, j): bit (i, j) on, every other bit as it was. */
    method Set(i: int, j: int)
      requires Valid() && 0 <= i < rows.Length && 0 <= j
      modifies this, rows
      ensures Valid() && Get(i, j)
      ensures forall i', j' :: 0 <= i' < rows.Length && 0 <= j' && (i', j') != (i, j) ==> Get(i', j') == old(Get(i', j'))
      ensures bits == old(bits) + {(i, j)}
    {
      rows[i] := rows[i] + {j};
      bits := bits + {(i, j)};
    }

    /** clear(i, j): bit (i, j) off, every other bit as it was. */
    method Clear(i: int, j: int)
      requires Valid() && 0 <= i < rows.Length && 0 <= j
      modifies this, rows
      ensures Valid() && !Get(i, j)
      ensures forall i', j' :: 0 <= i' < rows.Length && 0 <= j' && (i', j') != (i, j) ==> Get(i', j') == old(Get(i', j'))
      ensures bits == old(bits) - {(i, j)}
    {
      rows[i] := rows[i] - {j};
      bits := bits - {(i, j)};
    }
  }

  /** Setting the bits of a pattern one by one and reading each back gives
      the pattern; clearing them all then leaves every bit off. */
  method SetGetClear(pattern: seq<seq<bool>>) returns (read: seq<seq<bool>>, cleared: bool)
    requires forall r :: 0 <= r < |pattern| ==> |pattern[r]| == |pattern|
    ensures read == pattern && cleared
  {
    var n := |pattern|;
    var m := new BitMatrix(n, n);
    read := [];
    for row := 0 to n
      invariant m.Valid() && m.rows.Length == n
      invariant read == pattern[..row]
      invariant forall r, c :: row <= r < n && 0 <= c ==> !m.Get(r, c)
    {
      var line: seq<bool> := [];
      for col := 0 to n
        invariant m.Valid() && m.rows.Length == n
        invariant line == pattern[row][..col]
        invariant forall r, c :: (row < r < n || (r == row && col <= c)) && 0 <= c ==> !m.Get(r, c)
        invariant forall c :: 0 <= c < col ==> m.Get(row, c) == pattern[row][c]
      {
        if pattern[row][col] {
          m.Set(row, col);
        }
        line := line + [m.Get(row, col)];
      }
      assert line == pattern[row];
      read := read + [line];
    }
    cleared := true;
    for row := 0 to n
      invariant m.Valid() && m.rows.Length == n && cleared
    {
      for col := 0 to n
        invariant m.Valid() && m.rows.Length == n && cleared
      {
        m.Clear(row, col);
        cleared := cleared && !m.Get(row, col);
      }
    }
  }
}
