/** Nybbles: an array of N integers in -8..7, each held in four bits, eight
    to a 32-bit word. Element k is the k % 8'th nybble, counted from the low
    end, of word k / 8; a negative element is stored as its value plus 16. */
module Nybbles {
  import opened Common

  /** Maximum positive value of a nybble. */
  const MAX_VALUE: int := 7

  /** pos * 4 as a shift distance. */
  function Offset(pos: nat): (b: bv32)
    requires pos < 8
    ensures b <= 28 && b & 3 == 0
  {
    if pos == 0 then 0 else if pos == 1 then 4 else if pos == 2 then 8 else if pos == 3 then 12
    else if pos == 4 then 16 else if pos == 5 then 20 else if pos == 6 then 24 else 28
  }

  lemma OffsetInjective(p: nat, q: nat)
    requires p < 8 && q < 8 && p != q
    ensures Offset(p) != Offset(q)
  {
  }

  /** The four bits of the word at the given position, as get reads them:
      (store >>> pos * 4) & 0b1111. */
  function Field(store: bv32, pos: nat): bv4
    requires pos < 8
  {
    ((store >> Offset(pos)) & 0xF) as bv4
  }

  /** unsetByte(store, pos): store & ~(0b1111 << pos * 4). */
  function Unset(store: bv32, pos: nat): bv32
    requires pos < 8
  {
    store & !(0xF << Offset(pos))
  }

  /** setByte(store, pos, val): store | ((val & 0b1111) << pos * 4); the low
      four bits of a Java int are its value modulo 16. */
  function SetField(store: bv32, pos: nat, val: int): bv32
    requires pos < 8
  {
    store | (((val % 16) as bv4) as bv32 << Offset(pos))
  }

  /** get's reading of four bits: 8..15 stand for -8..-1. */
  function Decode(e: bv4): (v: int)
    ensures -MAX_VALUE - 1 <= v <= MAX_VALUE
  {
    if e >= 8 then e as int - 16 else e as int
  }

  /** set's four-bit form of a value: a negative one has 16 added. */
  function Encode(val: int): int
  {
    if val < 0 then val + 16 else val
  }

  /** Clearing a field and setting it to the value's code makes get read the
      value back. */
  lemma ReadBack(store: bv32, pos: nat, val: int)
    requires pos < 8 && -MAX_VALUE - 1 <= val <= MAX_VALUE
    ensures Decode(Field(SetField(Unset(store, pos), pos, Encode(val)), pos)) == val
  {
    var e := Encode(val);
    FieldOfSet(store, Offset(pos), (e % 16) as bv4);
    LowBits(e);
  }

  /** Clearing and setting one field leaves every other field alone. */
  lemma OtherFields(store: bv32, pos: nat, q: nat, val: int)
    requires pos < 8 && q < 8 && pos != q
    ensures Field(SetField(Unset(store, pos), pos, val), q) == Field(store, q)
  {
    OffsetInjective(pos, q);
    var v := ((val % 16) as bv4) as bv32;
    assert (v & 0xF) == v;
    KeepsOthers(store, v, Offset(q));
  }

  lemma FieldOfSet(w: bv32, k: bv32, b: bv4)
    requires k <= 28
    ensures ((((w & !(0xF << k)) | (b as bv32 << k)) >> k) & 0xF) as bv4 == b
  {
  }

  /** Clearing and setting the field at each offset leaves the fields at
      the other offsets alone. */
  lemma KeepsOthers(w: bv32, v: bv32, j: bv32)
    requires j <= 28 && (j & 3) == 0
    ensures j != 0 ==> ((((w & !(0xF << 0)) | ((v & 0xF) << 0)) >> j) & 0xF) == ((w >> j) & 0xF)
    ensures j != 4 ==> ((((w & !(0xF << 4)) | ((v & 0xF) << 4)) >> j) & 0xF) == ((w >> j) & 0xF)
    ensures j != 8 ==> ((((w & !(0xF << 8)) | ((v & 0xF) << 8)) >> j) & 0xF) == ((w >> j) & 0xF)
    ensures j != 12 ==> ((((w & !(0xF << 12)) | ((v & 0xF) << 12)) >> j) & 0xF) == ((w >> j) & 0xF)
    ensures j != 16 ==> ((((w & !(0xF << 16)) | ((v & 0xF) << 16)) >> j) & 0xF) == ((w >> j) & 0xF)
    ensures j != 20 ==> ((((w & !(0xF << 20)) | ((v & 0xF) << 20)) >> j) & 0xF) == ((w >> j) & 0xF)
    ensures j != 24 ==> ((((w & !(0xF << 24)) | ((v & 0xF) << 24)) >> j) & 0xF) == ((w >> j) & 0xF)
    ensures j != 28 ==> ((((w & !(0xF << 28)) | ((v & 0xF) << 28)) >> j) & 0xF) == ((w >> j) & 0xF)
  {
  }

  lemma LowBits(e: int)
    requires 0 <= e < 16
    ensures ((e % 16) as bv4) as int == e
  {
  }

  /** The length of the word array for N nybbles: Java's (N + 7) / 8,
      which truncates toward zero; N + 7 fits an int. */
  function StoreLength(N: int): (len: nat)
    requires -14 <= N <= 0x7FFF_FFF8
    ensures N > 0 ==> 8 * (len - 1) < N <= 8 * len
    ensures N <= 0 ==> len == 0
  {
    if N + 7 < 0 then 0 else (N + 7) / 8
  }

  class Nybbles {
    var n: int
    var data: array<bv32>
    /** The elements the words stand for. */
    ghost var contents: seq<int>

    ghost predicate Valid()
      reads this, data
    {
      && -14 <= n <= 0x7FFF_FFF8 && data.Length == StoreLength(n)
      && |contents| == (if n < 0 then 0 else n)
      && forall k :: 0 <= k < |contents| ==> Decode(Field(data[k / 8], k % 8)) == contents[k]
    }

    /** new Nybbles(N): N elements, all 0. A size below -14 makes the word
        array's length negative, which Java refuses, and so does a size
        above 2^31 - 8, for which N + 7 wraps to a negative int. */
    constructor (N: int)
      requires -14 <= N <= 0x7FFF_FFF8
      ensures Valid() && fresh(data)
      ensures Size() == N
      ensures |contents| == (if N < 0 then 0 else N)
      ensures forall k :: 0 <= k < |contents| ==> contents[k] == 0
    {
      n := N;
      data := new bv32[StoreLength(N)](_ => 0);
      contents := seq(if N < 0 then 0 else N, _ => 0);
    }

    /** size() */
    function Size(): (r: int)
      reads this
      ensures r == n
    {
      n
    }

    /** get(k): the k'th element, or IndexOutOfBoundsException when k is not
        in 0 .. N - 1. */
    method Get(k: int) returns (r: Result<int>)
      requires Valid()
      ensures r.Err? <==> !(0 <= k < n)
      ensures r.Err? ==> r.msg == "IndexOutOfBoundsException"
      ensures r.Ok? ==> r.value == contents[k] && -MAX_VALUE - 1 <= r.value <= MAX_VALUE
    {
      if k < 0 || k >= n {
        return Err("IndexOutOfBoundsException");
      }
      var index := k / 8;
      var subIndex := k % 8;
      var elem := Field(data[index], subIndex);
      if elem >= 8 {
        r := Ok(elem as int - 16);
      } else {
        r := Ok(elem as int);
      }
    }

    /** set(k, val): the k'th element becomes val. IndexOutOfBoundsException
        when k is not in 0 .. N - 1, else IllegalArgumentException when val is
        not in -8..7; either leaves the elements as they were. */
    method Set(k: int, val: int) returns (r: Result<()>)
      requires Valid()
      modifies this, data
      ensures Valid() && n == old(n) && data == old(data)
      ensures !(0 <= k < n) ==> r == Err("IndexOutOfBoundsException")
      ensures 0 <= k < n && !(-MAX_VALUE - 1 <= val <= MAX_VALUE) ==> r == Err("IllegalArgumentException")
      ensures r.Ok? <==> 0 <= k < n && -MAX_VALUE - 1 <= val <= MAX_VALUE
      ensures r.Ok? ==> contents == old(contents)[k := val]
      ensures r.Err? ==> contents == old(contents) && data[..] == old(data[..])
    {
      if k < 0 || k >= n {
        return Err("IndexOutOfBoundsException");
      }
      if val < -MAX_VALUE - 1 || val > MAX_VALUE {
        return Err("IllegalArgumentException");
      }
      var index := k / 8;
      var subIndex := k % 8;
      ghost var word := data[index];
      data[index] := Unset(data[index], subIndex);
      var elem := val;
      if elem < 0 {
        elem := elem + 16;
      }
      data[index] := SetField(data[index], subIndex, elem);
      contents := contents[k := val];
      forall j | 0 <= j < |contents|
        ensures Decode(Field(data[j / 8], j % 8)) == contents[j]
      {
        if j == k {
          ReadBack(word, subIndex, val);
        } else if j / 8 == index {
          OtherFields(word, subIndex, j % 8, elem);
        }
      }
      r := Ok(());
    }
  }

  /** A set followed by a get of the same element returns the value set. */
  method SetThenGet(a: Nybbles, k: int, val: int) returns (r: Result<int>)
    requires a.Valid() && 0 <= k < a.n && -MAX_VALUE - 1 <= val <= MAX_VALUE
    modifies a, a.data
    ensures r == Ok(val)
  {
    var s := a.Set(k, val);
    r := a.Get(k);
  }
}
