/** IntHeap: a max-heap of Java ints kept in store[0..length), grown by
    doubling, with sift-up on add, sift-down on removeMax and heapify, and
    an exclusive-or swap. */
module BinaryHeap {
  import opened Common
  import opened Sorting
  import opened Heaps

  // Java's `^` on ints: bitwise exclusive or of the two's-complement
  // patterns, written out on naturals.

  function Pow2(k: nat): nat
  {
    if k == 0 then 1 else 2 * Pow2(k - 1)
  }

  /** Exclusive or of the binary digits of a and b. */
  function Xor(a: nat, b: nat): nat
    decreases a + b
  {
    if a == 0 && b == 0 then 0 else 2 * Xor(a / 2, b / 2) + (a + b) % 2
  }

  /** The 32-bit pattern of an int, as an unsigned number. */
  function Pattern(x: int32): (u: nat)
    ensures u < 0x1_0000_0000
  {
    if x >= 0 then x as nat else (x as int + 0x1_0000_0000) as nat
  }

  /** The int a 32-bit pattern stands for. */
  function FromPattern(u: nat): (x: int32)
    requires u < 0x1_0000_0000
    ensures Pattern(x) == u
  {
    if u < 0x8000_0000 then u as int32 else (u - 0x1_0000_0000) as int32
  }

  /** a ^ b on Java ints. */
  function JavaXor(x: int32, y: int32): int32
  {
    Pow2Of32();
    XorBound(Pattern(x), Pattern(y), 32);
    FromPattern(Xor(Pattern(x), Pattern(y)))
  }

  /** (x ^ y) ^ y == x and (x ^ y) ^ x == y: what the exclusive-or swap
      rests on. */
  lemma XorUndo(x: int32, y: int32)
    ensures JavaXor(JavaXor(x, y), y) == x && JavaXor(JavaXor(x, y), x) == y
  {
    var p, q := Pattern(x), Pattern(y);
    XorCancel(p, q);
    XorComm(p, q);
    XorCancel(q, p);
    assert FromPattern(p) == x && FromPattern(q) == y;
  }

  lemma {:induction false} Pow2Add(i: nat, j: nat)
    ensures Pow2(i + j) == Pow2(i) * Pow2(j)
    decreases i
  {
    if i > 0 {
      Pow2Add(i - 1, j);
    }
  }
  lemma Pow2Of32()
    ensures Pow2(32) == 0x1_0000_0000
  {
    assert Pow2(4) == 16;
    Pow2Add(4, 4);
    Pow2Add(8, 8);
    Pow2Add(16, 16);
  }
  lemma Halves(x: nat, r: nat, b: nat)
    requires r < 2
    ensures (2 * x + r) / 2 == x && (2 * x + r + b) % 2 == (r + b) % 2
  {
  }

  lemma {:induction false} XorSelf(a: nat)
    ensures Xor(a, a) == 0
    decreases a
  {
    if a != 0 {
      XorSelf(a / 2);
    }
  }
  lemma Parity(a: nat, b: nat)
    ensures ((a + b) % 2 + b) % 2 == a % 2 && 2 * (a / 2) + a % 2 == a
  {
  }

  /** The defining step of Xor, at zero too. */
  lemma XorStep(a: nat, b: nat)
    ensures Xor(a, b) == 2 * Xor(a / 2, b / 2) + (a + b) % 2
  {
  }

  lemma {:induction false} XorCancel(a: nat, b: nat)
    ensures Xor(Xor(a, b), b) == a
    decreases a + b
  {
    if a != 0 || b != 0 {
      var x, r := Xor(a / 2, b / 2), (a + b) % 2;
      var c := Xor(a, b);
      XorStep(a, b);
      assert c == 2 * x + r;
      XorCancel(a / 2, b / 2);
      Halves(x, r, b);
      Parity(a, b);
      XorStep(c, b);
      calc {
        Xor(c, b);
        2 * Xor(c / 2, b / 2) + (c + b) % 2;
        2 * Xor(x, b / 2) + (r + b) % 2;
        2 * (a / 2) + a % 2;
        a;
      }
    }
  }

  lemma {:induction false} XorComm(a: nat, b: nat)
    ensures Xor(a, b) == Xor(b, a)
    decreases a + b
  {
    if a != 0 || b != 0 {
      XorComm(a / 2, b / 2);
    }
  }
  lemma {:induction false} XorBound(a: nat, b: nat, k: nat)
    requires a < Pow2(k) && b < Pow2(k)
    ensures Xor(a, b) < Pow2(k)
    decreases k
  {
    if a != 0 || b != 0 {
      XorBound(a / 2, b / 2, k - 1);
    }
  }

  /** swap(a, i, j): unless a[i] and a[j] are equal, three assignments of
      exclusive-ors exchange them. */
  method XorSwap(a: array<int32>, i: nat, j: nat)
    requires i < a.Length && j < a.Length
    modifies a
    ensures a[..] == old(a[..])[i := old(a[j])][j := old(a[i])]
  {
    if a[i] != a[j] {
      XorUndo(a[i], a[j]);
      a[i] := JavaXor(a[i], a[j]);
      a[j] := JavaXor(a[i], a[j]);
      a[i] := JavaXor(a[i], a[j]);
    }
  }

  /** The room increaseStore makes as written: twice the capacity. */
  function DoubledAsWritten(capacity: nat): (r: nat)
    ensures capacity > 0 ==> r > capacity
    ensures capacity == 0 ==> r == 0
  {
    capacity * 2
  }

  /** Whether add, as written, finds a slot for its element: a full store
      of the given capacity is first doubled. */
  predicate HasSlotAsWritten(capacity: nat, length: nat)
  {
    length < (if length + 1 > capacity then DoubledAsWritten(capacity) else capacity)
  }

  /** On a store holding at most its capacity, add as written finds a slot
      exactly when the store is not of length 0: doubling a store of length
      0, such as the one of heapify(new int[0], 0), leaves it empty. */
  lemma EmptyStoreStaysFull(capacity: nat, length: nat)
    requires length <= capacity
    ensures HasSlotAsWritten(capacity, length) <==> capacity > 0
  {
  }

  /** The room increaseStore is meant to make: twice the capacity, and at
      least one slot more than before. */
  function NewCapacity(capacity: nat): (c: nat)
    ensures c >= capacity + 1
    ensures capacity > 0 ==> c == DoubledAsWritten(capacity)
  {
    if capacity == 0 then 1 else capacity * 2
  }

  /** Sift-up from pos: the element is exchanged with its parent for as long
      as it is larger than the parent. */
  function UpSeq(s: seq<int32>, pos: nat): (r: seq<int32>)
    requires pos < |s|
    ensures |r| == |s|
    decreases pos
  {
    if pos > 0 && s[pos] > s[Up(pos)] then UpSeq(s[pos := s[Up(pos)]][Up(pos) := s[pos]], Up(pos))
    else s
  }

  /** The state while an element rises at j: the order holds everywhere
      except between j and its parent, and j's parent bounds j's
      children. */
  ghost predicate RisingAt(s: seq<int32>, n: nat, j: nat)
  {
    && (forall c {:trigger Up(c)} :: 0 < c < n && c < |s| && c != j ==> s[Up(c)] >= s[c])
    && (j > 0 && Up(j) < |s| ==>
          forall c {:trigger Up(c)} :: 0 < c < n && c < |s| && Up(c) == j ==> s[Up(j)] >= s[c])
  }

  /** A new element placed right after a heap starts rising there. */
  lemma RiseStart(s: seq<int32>, L: nat, x: int32)
    requires L < |s| && HeapFrom(s, 0, L)
    ensures RisingAt(s[L := x], L + 1, L)
  {
  }

  /** Exchanging j with a smaller parent moves the rising point up. */
  lemma RiseStep(s: seq<int32>, n: nat, j: nat)
    requires 0 < j < n <= |s| && RisingAt(s, n, j) && s[j] > s[Up(j)]
    ensures RisingAt(s[j := s[Up(j)]][Up(j) := s[j]], n, Up(j))
  {
    var p := Up(j);
    var t := s[j := s[p]][p := s[j]];
    forall c | 0 < c < n && c != p
      ensures t[Up(c)] >= t[c]
    {
      if c == j {
      } else if Up(c) == j {
        assert t[c] == s[c];
      } else if Up(c) == p {
        assert s[p] >= s[c];
      } else {
        assert s[Up(c)] >= s[c];
      }
    }
    if p > 0 {
      forall c | 0 < c < n && Up(c) == p
        ensures t[Up(p)] >= t[c]
      {
        assert s[Up(p)] >= s[p];
        if c != j {
          assert s[p] >= s[c];
        }
      }
    }
  }

  /** Rising stops at the root or below a parent that is no smaller. */
  lemma RiseDone(s: seq<int32>, n: nat, j: nat)
    requires j < n <= |s| && RisingAt(s, n, j) && (j == 0 || s[j] <= s[Up(j)])
    ensures HeapFrom(s, 0, n)
  {
  }

  /** Sift-up from a rising point restores the order on s[..n]. */
  lemma {:induction false} UpHeap(s: seq<int32>, n: nat, pos: nat)
    requires pos < n <= |s| && RisingAt(s, n, pos)
    ensures HeapFrom(UpSeq(s, pos), 0, n)
    decreases pos
  {
    if pos > 0 && s[pos] > s[Up(pos)] {
      RiseStep(s, n, pos);
      UpHeap(s[pos := s[Up(pos)]][Up(pos) := s[pos]], n, Up(pos));
    } else {
      RiseDone(s, n, pos);
    }
  }

  /** Sift-up permutes s[..n] for any n past pos and leaves the rest. */
  lemma {:induction false} UpPermutes(s: seq<int32>, n: nat, pos: nat)
    requires pos < n <= |s|
    ensures var r := UpSeq(s, pos);
      multiset(r[..n]) == multiset(s[..n]) && r[n..] == s[n..]
    decreases pos
  {
    if pos > 0 && s[pos] > s[Up(pos)] {
      SwapSlice(s, pos, Up(pos), 0, n);
      UpPermutes(s[pos := s[Up(pos)]][Up(pos) := s[pos]], n, Up(pos));
    }
  }

  /** Placing x after the heap s[..L] and letting it rise makes a heap of
      the L + 1 elements, with x added. */
  lemma AddStep(s: seq<int32>, L: nat, x: int32, m: multiset<int32>)
    requires L < |s| && HeapFrom(s, 0, L) && multiset(s[..L]) == m
    ensures var r := UpSeq(s[L := x], L);
      && HeapFrom(r, 0, L + 1)
      && multiset(r[..L + 1]) == m + multiset{x}
  {
    var t := s[L := x];
    RiseStart(s, L, x);
    UpHeap(t, L + 1, L);
    UpPermutes(t, L + 1, L);
    assert t[..L + 1] == s[..L] + [x];
  }

  /** Overwriting the root of a heap with its last element leaves the
      order below the root on the shorter prefix. */
  lemma DropLast(s: seq<int32>, L: nat)
    requires 0 < L <= |s| && HeapFrom(s, 0, L)
    ensures var t := s[0 := s[L - 1]];
      && HeapFrom(t, 1, L - 1)
      && multiset(t[..L - 1]) == multiset(s[..L]) - multiset{s[0]}
      && t[L - 1..] == s[L - 1..]
  {
    var t := s[0 := s[L - 1]];
    if L > 1 {
      assert t[..L - 1] == s[..L - 1][0 := s[L - 1]];
    }
    assert s[..L] == s[..L - 1] + [s[L - 1]];
  }

  /** The heap order of a prefix depends only on that prefix. */
  lemma SamePrefix(s: seq<int32>, t: seq<int32>, n: nat)
    requires n <= |s| && n <= |t| && s[..n] == t[..n] && HeapFrom(s, 0, n)
    ensures HeapFrom(t, 0, n)
  {
    forall c | 0 < c < n
      ensures t[Up(c)] >= t[c]
    {
      assert s[..n][c] == t[..n][c] && s[..n][Up(c)] == t[..n][Up(c)];
    }
  }

  /** Every element of a heap is at most its root. */
  lemma RootMaxAll(s: seq<int32>, n: nat)
    ensures n <= |s| && HeapFrom(s, 0, n) ==> forall c :: 0 <= c < n ==> s[c] <= s[0]
  {
    if n <= |s| && HeapFrom(s, 0, n) {
      forall c | 0 <= c < n
        ensures s[c] <= s[0]
      {
        RootMax(s, n, c);
      }
    }
  }

  class IntHeap {
    var length: nat
    var store: array<int32>

    /** store[0..length) is in heap order. */
    ghost predicate Valid()
      reads this, store
    {
      length <= store.Length && HeapFrom(store[..], 0, length)
    }

    /** IntHeap(): an empty heap over a store of four. */
    constructor ()
      ensures Valid() && length == 0 && store.Length == 4 && fresh(store)
    {
      store := new int32[4](_ => 0);
      length := 0;
    }

    /** IntHeap(store, length): a heap over the given array. */
    constructor Wrap(a: array<int32>, k: nat)
      requires k <= a.Length
      ensures store == a && length == k
    {
      store := a;
      length := k;
    }

    /** parent(index): -1 for the root, (index - 1) / 2 otherwise. */
    static function Parent(index: int): (p: int)
      ensures index <= 0 ==> p == -1
      ensures index > 0 ==> 0 <= p < index && (index == LeftChild(p) || index == RightChild(p))
    {
      if index > 0 then (index - 1) / 2 else -1
    }

    static function LeftChild(index: int): int
    {
      2 * index + 1
    }

    static function RightChild(index: int): int
    {
      2 * index + 2
    }

    /** Both children of a node have it as their parent. */
    static lemma ChildrenOf(index: nat)
      ensures Parent(LeftChild(index)) == index && Parent(RightChild(index)) == index
      ensures LeftChild(index) < RightChild(index)
    {
    }

    /** size() */
    function Size(): (n: nat)
      reads this, store
      ensures length <= store.Length ==> n == |multiset(store[..length])|
    {
      length
    }

    /** max(): store[0], or IllegalStateException on an empty heap. */
    function Max(): (r: Result<int32>)
      reads this, store
      requires length <= store.Length
      ensures r.Ok? <==> length > 0
      ensures r.Err? ==> r.msg == "Heap empty."
      ensures r.Ok? ==> r.value in multiset(store[..length])
      ensures r.Ok? && HeapFrom(store[..], 0, length) ==> forall i :: 0 <= i < length ==> store[i] <= r.value
    {
      RootMaxAll(store[..], length);
      if length != 0 then
        assert store[..length][0] == store[0];
        Ok(store[0])
      else Err("Heap empty.")
    }

    /** increaseStore(): a new store of twice the length takes over the old
        entries. */
    method IncreaseStore()
      requires Valid()
      modifies this
      ensures Valid() && fresh(store) && length == old(length)
      ensures store.Length == DoubledAsWritten(old(store.Length))
      ensures store[..old(store.Length)] == old(store[..])
    {
      var temp := store;
      ghost var s := temp[..];
      var grown := new int32[DoubledAsWritten(temp.Length)](_ => 0);
      for t := 0 to temp.Length
        invariant temp[..] == s && store == temp && length == old(length)
        invariant forall r :: 0 <= r < t ==> grown[r] == temp[r]
      {
        grown[t] := temp[t];
      }
      assert grown[..temp.Length] == s;
      assert grown[..length] == s[..length];
      SamePrefix(s, grown[..], length);
      store := grown;
    }

    /** propagateUp(pos) */
    method PropagateUp(pos: nat)
      requires pos < store.Length
      modifies store
      ensures store[..] == UpSeq(old(store[..]), pos)
      decreases pos
    {
      var par := Parent(pos);
      if par != -1 && store[pos] > store[par] {
        XorSwap(store, pos, par);
        PropagateUp(par);
      }
    }

    /** add(elem): the element goes after the last one, growing the store
        when it is full, and rises to its place. When the grown store still
        has no slot, the assignment store[length] = elem throws
        ArrayIndexOutOfBoundsException and the heap keeps its elements. */
    method Add(elem: int32) returns (r: Result<()>)
      requires Valid()
      modifies this, store
      ensures Valid()
      ensures r.Ok? <==> HasSlotAsWritten(old(store.Length), old(length))
      ensures r.Ok? ==> length == old(length) + 1
      ensures r.Ok? ==> multiset(store[..length]) == multiset(old(store[..length])) + multiset{elem}
      ensures r.Err? ==> length == old(length) && multiset(store[..length]) == multiset(old(store[..length]))
    {
      ghost var capacity := store.Length;
      if length + 1 > store.Length {
        IncreaseStore();
      }
      assert store.Length == if length + 1 > capacity then DoubledAsWritten(capacity) else capacity;
      if length >= store.Length {
        assert length == 0;
        assert store[..length] == [];
        return Err("ArrayIndexOutOfBoundsException");
      }
      assert store[..length] == old(store[..length]);
      Place(elem);
      r := Ok(());
    }

    /** The rest of add once a slot is found: store[length] = elem, the
        element rises to its place, and the length grows by one. */
    method Place(elem: int32)
      requires Valid() && length < store.Length
      modifies this, store
      ensures Valid() && store == old(store) && length == old(length) + 1
      ensures multiset(store[..length]) == multiset(old(store[..length])) + multiset{elem}
    {
      ghost var before := store[..];
      var L := length;
      AddStep(before, L, elem, multiset(before[..L]));
      store[L] := elem;
      assert store[..] == before[L := elem];
      PropagateUp(L);
      ghost var after := store[..];
      assert after == UpSeq(before[L := elem], L);
      length := L + 1;
      assert store[..] == after;
    }

    /** propagateDown(pos): the element at pos sinks below any larger
        child, the right child taken only when it is larger than the
        left. */
    method PropagateDown(pos: nat)
      requires pos < length <= store.Length
      modifies store
      ensures store[..] == SinkSeq(old(store[..]), length, pos)
      decreases length - pos
    {
      var left := LeftChild(pos);
      var right := RightChild(pos);
      ghost var s := store[..];
      if (left < length && store[left] > store[pos]) || (right < length && store[right] > store[pos]) {
        var swapTarget := left;
        if right < length && store[left] < store[right] {
          swapTarget := right;
        }
        assert swapTarget == Larger(s, length, pos);
        XorSwap(store, pos, swapTarget);
        PropagateDown(swapTarget);
      } else if left < length {
        assert !(s[pos] < s[Larger(s, length, pos)]);
      }
    }

    /** removeMax(): the root is returned and replaced by the last element,
        which then sinks; an empty heap throws from max(). */
    method RemoveMax() returns (r: Result<int32>)
      requires Valid()
      modifies this, store
      ensures Valid() && store == old(store)
      ensures old(length) == 0 ==> r == Err("Heap empty.") && length == 0 && store[..] == old(store[..])
      ensures old(length) > 0 ==>
        && r == Ok(old(store[0])) && length == old(length) - 1
        && multiset(store[..length]) == multiset(old(store[..length])) - multiset{old(store[0])}
      ensures r.Ok? ==> forall i :: 0 <= i < old(length) ==> old(store[i]) <= r.value
    {
      r := Max();
      if r.Err? {
        return;
      }
      ghost var s := store[..];
      DropLast(s, length);
      length := length - 1;
      store[0] := store[length];
      ghost var t := store[..];
      assert t == s[0 := s[length]];
      if length != 0 {
        HeapifyStep(t, 1, length);
        SinkPermutes(t, length, 0);
        PropagateDown(0);
      }
    }

    /** heapify(array, k): a heap over a[0..k), made by sinking every
        index from k / 2 down to the root. */
    static method Heapify(a: array<int32>, k: nat) returns (h: IntHeap)
      requires k <= a.Length
      modifies a
      ensures fresh(h) && h.store == a && h.length == k && h.Valid()
      ensures multiset(a[..k]) == multiset(old(a[..k])) && a[k..] == old(a[k..])
    {
      h := new IntHeap.Wrap(a, k);
      if k != 0 {
        var i: int := k / 2;
        while i >= 0
          invariant -1 <= i <= k / 2
          invariant h.store == a && h.length == k
          invariant HeapFrom(a[..], i + 1, k)
          invariant multiset(a[..k]) == multiset(old(a[..k])) && a[k..] == old(a[k..])
        {
          ghost var s := a[..];
          HeapifyStep(s, i + 1, k);
          SinkPermutes(s, k, i);
          h.PropagateDown(i);
          i := i - 1;
        }
      }
    }
  }

  /** heapify(new int[0], 0) followed by add(5): the doubled store is
      still of length 0, so add as written fails. */
  method AddAfterEmptyHeapify() returns (r: Result<()>)
    ensures r.Err?
  {
    var a := new int32[0];
    var h := IntHeap.Heapify(a, 0);
    r := h.Add(5);
  }
}
