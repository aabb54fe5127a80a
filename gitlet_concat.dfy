/** Gitlet's ConcatIterator: one iterator over the elements of a list of
    iterators, one after the other. An inner iterator is modelled by the
    elements it has still to return. */
module GitletConcat {
  import opened Common

  /** The elements of the lists, in order. */
  function Concat<T>(its: seq<seq<T>>): (r: seq<T>)
  {
    if its == [] then [] else its[0] + Concat(its[1..])
  }

  /** Empty lists at the front add nothing. */
  lemma ConcatSkip<T>(its: seq<seq<T>>, i: nat)
    requires i < |its| && its[i] == []
    ensures Concat(its[i..]) == Concat(its[i + 1..])
  {
    assert its[i..] == [its[i]] + its[i + 1..];
  }

  /** The concatenation is empty exactly when every list is. */
  lemma {:induction false} ConcatEmpty<T>(its: seq<seq<T>>)
    ensures Concat(its) == [] <==> forall i :: 0 <= i < |its| ==> its[i] == []
  {
    if its != [] {
      ConcatEmpty(its[1..]);
      assert forall i :: 1 <= i < |its| ==> its[i] == its[1..][i - 1];
    }
  }

  class ConcatIterator<T> {
    var index: nat
    var iterators: seq<seq<T>>

    /** What the iterator has still to return. */
    function Remaining(): seq<T>
      reads this
    {
      if index <= |iterators| then Concat(iterators[index..]) else []
    }

    ghost predicate Valid()
      reads this
    {
      index <= |iterators|
    }

    /** new ConcatIterator(iterators) */
    constructor (its: seq<seq<T>>)
      ensures Valid() && index == 0 && iterators == its && Remaining() == Concat(its)
    {
      iterators := its;
      index := 0;
      assert its[0..] == its;
    }

    /** hasNext(): index moves past the exhausted iterators; true when one
        with elements is left. */
    method HasNext() returns (b: bool)
      requires Valid()
      modifies this`index
      ensures Valid() && Remaining() == old(Remaining()) && index >= old(index)
      ensures b <==> Remaining() != []
      ensures b <==> index < |iterators|
      ensures b ==> iterators[index] != []
      ensures forall i :: old(index) <= i < index ==> iterators[i] == []
    {
      while index < |iterators| && iterators[index] == []
        invariant old(index) <= index <= |iterators|
        invariant Concat(iterators[index..]) == old(Remaining())
        invariant forall i :: old(index) <= i < index ==> iterators[i] == []
      {
        ConcatSkip(iterators, index);
        index := index + 1;
      }
      assert index < |iterators| ==> iterators[index..] == [iterators[index]] + iterators[index + 1..];
      b := index < |iterators|;
    }

    /** next(): the next element of the current iterator only. List.get
        throws IndexOutOfBoundsException once past the last iterator, and
        the current iterator throws NoSuchElementException when it is
        exhausted, even if later ones are not. */
    method Next() returns (r: Result<T>)
      requires Valid()
      modifies this`iterators
      ensures Valid() && |iterators| == |old(iterators)|
      ensures index == |iterators| ==> r == Err("IndexOutOfBoundsException") && iterators == old(iterators)
      ensures index < |iterators| && old(iterators)[index] == [] ==> r == Err("NoSuchElementException") && iterators == old(iterators)
      ensures index < |iterators| && old(iterators)[index] != [] ==>
                r == Ok(old(iterators)[index][0]) && iterators == old(iterators)[index := old(iterators)[index][1..]]
                && old(Remaining()) == [r.value] + Remaining()
    {
      if index == |iterators| {
        return Err("IndexOutOfBoundsException");
      }
      var current := iterators[index];
      if current == [] {
        return Err("NoSuchElementException");
      }
      ghost var rest := iterators[index + 1..];
      assert iterators[index..] == [current] + rest;
      iterators := iterators[index := current[1..]];
      assert iterators[index..] == [current[1..]] + rest;
      assert current == [current[0]] + current[1..];
      r := Ok(current[0]);
    }
  }

  /** Draining the iterator with hasNext and next yields the concatenation
      of the iterators' elements, in list order. */
  method Drain<T>(it: ConcatIterator<T>) returns (out: seq<T>)
    requires it.Valid()
    modifies it
    ensures out == old(it.Remaining()) && it.Remaining() == []
  {
    out := [];
    var more := it.HasNext();
    while more
      invariant it.Valid()
      invariant out + it.Remaining() == old(it.Remaining())
      invariant more <==> it.Remaining() != []
      invariant more ==> it.index < |it.iterators| && it.iterators[it.index] != []
      decreases |it.Remaining()|
    {
      ghost var before := out;
      var x := it.Next();
      out := out + [x.value];
      AppendFirst(before, x.value, it.Remaining());
      more := it.HasNext();
    }
  }

  /** Moving the first of the rest to the end of what is out keeps the
      whole. */
  lemma AppendFirst<T>(out: seq<T>, x: T, rest: seq<T>)
    ensures out + [x] + rest == out + ([x] + rest)
  {
  }
}
