/** Piles of cards. A pile's cards are listed bottom first, so its top card
    is the last one, as in the ArrayList the source keeps. */
module Piles {
  import opened Common
  import opened Cards

  /** The top card of a list of cards: its last element, or nothing. */
  function TopOf(s: seq<Card>): (r: Option<Card>)
    ensures r.None? <==> s == []
    ensures r.Some? ==> r.value in s
  {
    if s == [] then None else Some(s[|s| - 1])
  }

  /** move(pile, k) on values: the top max(0, |src| - k) .. |src| of src,
      in order, go onto dst. The result is (new dst, new src). */
  function MoveTop(dst: seq<Card>, src: seq<Card>, k: nat): (r: (seq<Card>, seq<Card>))
    ensures |r.1| == (if k < |src| then |src| - k else 0)
    ensures r.1 == src[..|r.1|] && r.0 == dst + src[|r.1|..]
    ensures |r.0| + |r.1| == |dst| + |src|
  {
    var from := if |src| - k > 0 then |src| - k else 0;
    (dst + src[from..], src[..from])
  }

  /** Moving the cards back, as many as were moved, restores both lists. */
  lemma MoveTopUndo(dst: seq<Card>, src: seq<Card>, k: nat)
    ensures var (d, s) := MoveTop(dst, src, k);
            MoveTop(s, d, |src| - |s|) == (src, dst)
  {
    var (d, s) := MoveTop(dst, src, k);
    var (s', d') := MoveTop(s, d, |src| - |s|);
    assert |d'| == |dst|;
    assert d' == d[..|dst|];
    assert d'== dst;
    assert s' == s + d[|dst|..];
    assert d[|dst|..] == src[|s|..];
    assert src == src[..|s|] + src[|s|..];
  }

  /** A move keeps the cards of the two lists together. */
  lemma MoveTopConserves(dst: seq<Card>, src: seq<Card>, k: nat)
    ensures var (d, s) := MoveTop(dst, src, k);
            multiset(d) + multiset(s) == multiset(dst) + multiset(src)
  {
    var (d, s) := MoveTop(dst, src, k);
    assert src == s + src[|s|..];
  }

  /** Collections.reverse on values. */
  function Reverse(s: seq<Card>): (r: seq<Card>)
    ensures |r| == |s|
    ensures forall i :: 0 <= i < |s| ==> r[i] == s[|s| - 1 - i]
  {
    if s == [] then [] else [s[|s| - 1]] + Reverse(s[..|s| - 1])
  }

  lemma ReverseInvolutive(s: seq<Card>)
    ensures Reverse(Reverse(s)) == s
  {
  }

  lemma ReverseConserves(s: seq<Card>)
    ensures multiset(Reverse(s)) == multiset(s)
  {
    if s != [] {
      ReverseConserves(s[..|s| - 1]);
      assert s == s[..|s| - 1] + [s[|s| - 1]];
    }
  }

  class Pile {
    /** _cards, bottom first. */
    var cards: seq<Card>

    /** new Pile(cards...) */
    constructor (cs: seq<Card>)
      ensures cards == cs
    {
      cards := cs;
    }

    /** new Pile() */
    constructor Empty()
      ensures cards == []
    {
      cards := [];
    }

    /** copyFrom(pile0): clears my cards, then adds pile0's. Given myself,
        the clear leaves nothing to add. */
    method CopyFrom(pile0: Pile)
      modifies this
      ensures cards == if pile0 == this then [] else old(pile0.cards)
      ensures pile0 != this ==> pile0.cards == old(pile0.cards)
    {
      cards := [];
      cards := cards + pile0.cards;
    }

    /** size() */
    function Size(): (n: nat)
      reads this
      ensures n == |cards|
    {
      |cards|
    }

    /** isEmpty() */
    predicate IsEmpty()
      reads this
      ensures IsEmpty() <==> Size() == 0 && Get(0).None?
    {
      |cards| == 0
    }

    /** contains(card) */
    predicate Contains(card: Card)
      reads this
    {
      card in cards
    }

    /** get(k): my k'th card counting down from the top (the top is the
        0'th), or null when k is not in 0 .. size() - 1. */
    function Get(k: int): (r: Option<Card>)
      reads this
      ensures r.Some? <==> 0 <= k < |cards|
      ensures r.Some? ==> r.value == cards[|cards| - 1 - k]
    {
      var i := |cards| - 1 - k;
      if 0 <= i < |cards| then Some(cards[i]) else None
    }

    /** top(): get(0), or null when empty. */
    function Top(): (r: Option<Card>)
      reads this
      ensures r == TopOf(cards)
      ensures r.None? <==> |cards| == 0
    {
      if IsEmpty() then None else Get(0)
    }

    /** bottom(): get(size() - 1), the first card, or null when empty. */
    function Bottom(): (r: Option<Card>)
      reads this
      ensures r.None? <==> |cards| == 0
      ensures r.Some? ==> r.value == cards[0]
    {
      if IsEmpty() then None else Get(Size() - 1)
    }

    /** dealTop(): removes and returns the top card; nothing when empty. */
    method DealTop() returns (c: Option<Card>)
      modifies this
      ensures c == old(Top())
      ensures c.Some? ==> cards + [c.value] == old(cards)
      ensures c.None? ==> cards == old(cards)
    {
      if IsEmpty() {
        c := None;
      } else {
        c := Some(cards[|cards| - 1]);
        cards := cards[..|cards| - 1];
      }
    }

    /** add(card): card becomes the top; a null card changes nothing. */
    method Add(card: Option<Card>)
      modifies this
      ensures card.Some? ==> cards == old(cards) + [card.value] && Top() == card
      ensures card.None? ==> cards == old(cards)
    {
      if card.Some? {
        cards := cards + [card.value];
      }
    }

    /** move(pile, k): the top k cards of pile (all of them when it has
        fewer) go onto me, in order, and leave pile. */
    method Move(pile: Pile, k: nat)
      requires pile != this
      modifies this, pile
      ensures (cards, pile.cards) == MoveTop(old(cards), old(pile.cards), k)
    {
      var from := if pile.Size() - k > 0 then pile.Size() - k else 0;
      var L := pile.cards[from..];
      cards := cards + L;
      pile.cards := pile.cards[..from];
    }

    /** move(pile): all of pile's cards go onto me. */
    method MoveAll(pile: Pile)
      requires pile != this
      modifies this, pile
      ensures cards == old(cards) + old(pile.cards) && pile.cards == []
    {
      Move(pile, pile.Size());
    }

    /** clear() */
    method Clear()
      modifies this
      ensures cards == []
    {
      cards := [];
    }

    /** turnOver(): my bottom card becomes my top. */
    method TurnOver()
      modifies this
      ensures cards == Reverse(old(cards))
      ensures Top() == old(Bottom()) && Bottom() == old(Top())
    {
      cards := Reverse(cards);
    }
  }

  /** Dealing the top card and adding it back restores the pile. */
  method DealThenAdd(p: Pile) returns (c: Option<Card>)
    modifies p
    ensures p.cards == old(p.cards) && c == old(p.Top())
  {
    c := p.DealTop();
    p.Add(c);
  }

  /** Turning a pile over twice restores it. */
  method TurnOverTwice(p: Pile)
    modifies p
    ensures p.cards == old(p.cards)
  {
    p.TurnOver();
    p.TurnOver();
    ReverseInvolutive(old(p.cards));
  }

  /** A copy has the original's cards but is a pile of its own: changing
      it leaves the original alone. */
  method CopyIsSeparate(p: Pile, c: Card) returns (q: Pile)
    ensures fresh(q) && q.cards == p.cards + [c] && p.cards == old(p.cards)
  {
    q := new Pile.Empty();
    q.CopyFrom(p);
    q.Add(Some(c));
  }
}
