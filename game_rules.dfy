/** The rules of Canfield on values. A layout lists the contents of the
    eleven piles of a game: stock, waste, reserve, the four tableau piles
    and the four foundation piles, each bottom card first. The moves, their
    legality checks and their undoing are functions of a layout here; the
    Game class performs them step by step on its piles. */
module CanfieldRules {
  import opened Common
  import opened Cards
  import opened Piles

  const RESERVE_SIZE: int := 13
  const TABLEAU_SIZE: int := 4
  const POINTS_PER_CARD: int := 5
  const PILES: nat := 11

  const STOCK: nat := 0
  const WASTE: nat := 1
  const RESERVE: nat := 2

  /** Tableau pile number t + 1. */
  function Tab(t: nat): (i: nat)
    requires t < TABLEAU_SIZE
    ensures RESERVE < i < PILES
  {
    3 + t
  }

  /** Foundation pile number f + 1. */
  function Fnd(f: nat): (i: nat)
    requires f < NUM_SUITS
    ensures RESERVE < i < PILES && forall t :: 0 <= t < TABLEAU_SIZE ==> i != Tab(t)
  {
    7 + f
  }

  type Layout = seq<seq<Card>>

  /** A move the player asks for, with its one-based pile numbers. */
  datatype Move =
    | StockToWaste
    | WasteToFoundation
    | ReserveToFoundation
    | TableauToFoundation(t: int)
    | TableauToTableau(k0: int, k1: int)
    | FoundationToTableau(f: int, t: int)
    | WasteToTableau(k: int)
    | ReserveToTableau(k: int)

  /** What a performed move remembers for its undo: the fields of the
      corresponding action, with piles given by zero-based index. */
  datatype Done =
    | StockTurned(num: nat)
    | WasteFounded(f: nat)
    | ReserveFounded(f: nat)
    | TableauFounded(t: nat, f: nat, filled: bool)
    | TableauMoved(t0: nat, t1: nat, sizeT0: nat, filled: bool)
    | FoundationTableaued(f: nat, t: nat)
    | WasteTableaued(t: nat)
    | ReserveTableaued(t: nat)

  predicate DoneOk(d: Done)
  {
    match d
    case StockTurned(_) => true
    case WasteFounded(f) => f < NUM_SUITS
    case ReserveFounded(f) => f < NUM_SUITS
    case TableauFounded(t, f, _) => t < TABLEAU_SIZE && f < NUM_SUITS
    case TableauMoved(t0, t1, _, _) => t0 < TABLEAU_SIZE && t1 < TABLEAU_SIZE && t0 != t1
    case FoundationTableaued(f, t) => f < NUM_SUITS && t < TABLEAU_SIZE
    case WasteTableaued(t) => t < TABLEAU_SIZE
    case ReserveTableaued(t) => t < TABLEAU_SIZE
  }

  /** dst.move(src, k) on a layout. */
  function Shift(L: Layout, dst: nat, src: nat, k: nat): (L': Layout)
    requires dst < |L| && src < |L| && dst != src
    ensures |L'| == |L|
  {
    var (d, s) := MoveTop(L[dst], L[src], k);
    L[dst := d][src := s]
  }

  /** Moving back as many cards as a move took restores the layout. */
  lemma ShiftUndo(L: Layout, dst: nat, src: nat, k: nat)
    requires dst < |L| && src < |L| && dst != src
    ensures var L' := Shift(L, dst, src, k);
            Shift(L', src, dst, |L[src]| - |L'[src]|) == L
  {
    MoveTopUndo(L[dst], L[src], k);
    var L' := Shift(L, dst, src, k);
    assert L'[dst] == MoveTop(L[dst], L[src], k).0;
    assert L'[src] == MoveTop(L[dst], L[src], k).1;
  }

  /** n single-card moves from src to dst, as a loop of dst.move(src, 1). */
  function ShiftEach(L: Layout, dst: nat, src: nat, n: nat): (L': Layout)
    requires dst < |L| && src < |L| && dst != src
    ensures |L'| == |L|
  {
    if n == 0 then L else Shift(ShiftEach(L, dst, src, n - 1), dst, src, 1)
  }

  /** Moving n cards one at a time turns them over: the top n cards of src
      land on dst in reverse order. */
  lemma {:induction false} ShiftEachTurns(L: Layout, dst: nat, src: nat, n: nat)
    requires dst < |L| && src < |L| && dst != src && n <= |L[src]|
    ensures var L' := ShiftEach(L, dst, src, n);
            && L'[src] == L[src][..|L[src]| - n]
            && L'[dst] == L[dst] + Reverse(L[src][|L[src]| - n..])
            && forall i :: 0 <= i < |L| && i != src && i != dst ==> L'[i] == L[i]
  {
    if n > 0 {
      ShiftEachTurns(L, dst, src, n - 1);
      var M := ShiftEach(L, dst, src, n - 1);
      var s := L[src];
      assert M[src] == s[..|s| - n + 1];
      var top := s[|s| - n..];
      assert top[1..] == s[|s| - n + 1..];
      assert Reverse(top) == Reverse(top[1..]) + [s[|s| - n]];
    }
  }

  /** Undoing n single-card moves with n single-card moves back. */
  lemma ShiftEachUndo(L: Layout, dst: nat, src: nat, n: nat)
    requires dst < |L| && src < |L| && dst != src && n <= |L[src]|
    ensures ShiftEach(ShiftEach(L, dst, src, n), src, dst, n) == L
  {
    var M := ShiftEach(L, dst, src, n);
    ShiftEachTurns(L, dst, src, n);
    var s := L[src];
    var top := s[|s| - n..];
    assert M[dst] == L[dst] + Reverse(top);
    ShiftEachTurns(M, src, dst, n);
    var N := ShiftEach(M, src, dst, n);
    assert M[dst][|M[dst]| - n..] == Reverse(top);
    ReverseInvolutive(top);
    assert N[src] == s[..|s| - n] + top;
    assert N[src] == s;
    assert M[dst][..|M[dst]| - n] == L[dst];
    assert N[dst] == L[dst];
    forall i | 0 <= i < |L|
      ensures N[i] == L[i]
    {
      if i != src && i != dst {
        assert N[i] == M[i];
      }
    }
  }

  /** fillFromReserve(p): an empty pile gets the reserve's top card, if
      there is one; the flag says whether it did. */
  function Fill(L: Layout, p: nat): (r: (Layout, bool))
    requires |L| == PILES && RESERVE < p < PILES
  {
    if L[p] == [] && L[RESERVE] != [] then (Shift(L, p, RESERVE, 1), true) else (L, false)
  }

  /** The pile number k as tableau(k) looks it up. */
  function TableauIndex(k: int): (r: Result<nat>)
    ensures r.Ok? <==> 1 <= k <= TABLEAU_SIZE
    ensures r.Ok? ==> r.value == k - 1
  {
    if 1 <= k <= TABLEAU_SIZE then Ok(k - 1) else Err("No such tableau pile: " + IntToString(k))
  }

  /** The pile number k as foundation(k) looks it up. */
  function FoundationIndex(k: int): (r: Result<nat>)
    ensures r.Ok? <==> 1 <= k <= NUM_SUITS
    ensures r.Ok? ==> r.value == k - 1
  {
    if 1 <= k <= NUM_SUITS then Ok(k - 1) else Err("No such foundation pile: " + IntToString(k))
  }

  /** Card b comes right after card a in rank, a King being followed by an
      Ace. */
  predicate Follows(a: Card, b: Card)
  {
    (Rank(a) < KING && Rank(b) == Rank(a) + 1) || (Rank(a) == KING && Rank(b) == ACE)
  }

  /** checkFoundationAdd(card, p), given p's top card and the base card;
      a missing base card is Java's null _base. */
  function CheckFoundationAdd(card: Option<Card>, top: Option<Card>, base: Option<Card>): Result<()>
  {
    if card.None? then Err("no card to add")
    else if top.None? then
      if base.None? then Err("NullPointerException")
      else if Rank(card.value) != Rank(base.value) then
        Err("foundation piles must start at " + RankName(base.value))
      else Ok(())
    else if Suit(card.value) != Suit(top.value) then Err("foundations build up in suit")
    else if Rank(top.value) % NUM_RANKS + 1 != Rank(card.value) then
      Err("card does not follow top card of foundation")
    else Ok(())
  }

  /** A card may go onto a foundation exactly when the foundation is empty
      and the card has the base card's rank, or the card has the suit of
      the foundation's top card and follows it. */
  lemma FoundationAddLegal(card: Option<Card>, top: Option<Card>, base: Option<Card>)
    ensures CheckFoundationAdd(card, top, base).Ok? <==>
      && card.Some?
      && (top.None? ==> base.Some? && Rank(card.value) == Rank(base.value))
      && (top.Some? ==> Suit(card.value) == Suit(top.value) && Follows(top.value, card.value))
  {
    if card.Some? && top.Some? {
      FollowsByRemainder(top.value, card.value);
    }
  }

  lemma FollowsByRemainder(a: Card, b: Card)
    ensures Rank(a) % NUM_RANKS + 1 == Rank(b) <==> Follows(a, b)
  {
  }

  lemma FollowsDown(a: Card, b: Card)
    ensures (Rank(b) - Rank(a) + NUM_RANKS) % NUM_RANKS == 1 <==> Follows(a, b)
  {
    var d := Rank(b) - Rank(a) + NUM_RANKS;
    assert 1 <= d <= 25;
    if d < 13 {
      assert d % NUM_RANKS == d;
    } else {
      assert d % NUM_RANKS == d - 13;
    }
  }

  /** checkTableauAdd(card, p), given p's top card and the base card. */
  function CheckTableauAdd(card: Option<Card>, top: Option<Card>, base: Option<Card>): Result<()>
  {
    if card.None? then Err("no card to add")
    else if base.None? then Err("NullPointerException")
    else if Rank(card.value) == Rank(base.value) then
      Err(ToString(card.value) + " must go to the foundation")
    else if top.Some? && IsRed(top.value) == IsRed(card.value) then
      Err("tableau is built down in alternating colors")
    else if top.Some? && (Rank(top.value) - Rank(card.value) + NUM_RANKS) % NUM_RANKS != 1 then
      Err("tableau is built down in sequence")
    else Ok(())
  }

  /** A card may go onto a tableau pile exactly when it is not of the base
      card's rank and, when the pile has a top card, differs from it in
      colour and comes right before it in rank, an Ace coming before a
      King. */
  lemma TableauAddLegal(card: Option<Card>, top: Option<Card>, base: Option<Card>)
    ensures CheckTableauAdd(card, top, base).Ok? <==>
      && card.Some? && base.Some? && Rank(card.value) != Rank(base.value)
      && (top.Some? ==> IsRed(top.value) != IsRed(card.value) && Follows(card.value, top.value))
  {
    if card.Some? && top.Some? {
      FollowsDown(card.value, top.value);
    }
  }

  /** The first foundation pile from number i + 1 on whose top card has the
      given suit. */
  function SuitPile(L: Layout, suit: int, i: nat): (r: Option<nat>)
    requires |L| == PILES && i <= NUM_SUITS
    ensures r.Some? ==> (i <= r.value < NUM_SUITS && L[Fnd(r.value)] != []
      && Suit(L[Fnd(r.value)][|L[Fnd(r.value)]| - 1]) == suit)
    ensures r.Some? ==> forall j :: i <= j < r.value ==>
      L[Fnd(j)] == [] || Suit(L[Fnd(j)][|L[Fnd(j)]| - 1]) != suit
    ensures r.None? ==> forall j :: i <= j < NUM_SUITS ==>
      L[Fnd(j)] == [] || Suit(L[Fnd(j)][|L[Fnd(j)]| - 1]) != suit
    decreases NUM_SUITS - i
  {
    if i == NUM_SUITS then None
    else if L[Fnd(i)] != [] && suit == Suit(L[Fnd(i)][|L[Fnd(i)]| - 1]) then Some(i)
    else SuitPile(L, suit, i + 1)
  }

  /** The first empty foundation pile from number i + 1 on. */
  function EmptyPile(L: Layout, i: nat): (r: Option<nat>)
    requires |L| == PILES && i <= NUM_SUITS
    ensures r.Some? ==> i <= r.value < NUM_SUITS && L[Fnd(r.value)] == []
    ensures r.Some? ==> forall j :: i <= j < r.value ==> L[Fnd(j)] != []
    ensures r.None? ==> forall j :: i <= j < NUM_SUITS ==> L[Fnd(j)] != []
    decreases NUM_SUITS - i
  {
    if i == NUM_SUITS then None
    else if L[Fnd(i)] == [] then Some(i)
    else EmptyPile(L, i + 1)
  }

  /** findFoundation(card): "No card" for a missing card; otherwise the
      first foundation pile on the card's suit, else the first empty one,
      else none (Java's null). */
  function FoundationFor(L: Layout, card: Option<Card>): Result<Option<nat>>
    requires |L| == PILES
  {
    if card.None? then Err("No card")
    else
      var s := SuitPile(L, Suit(card.value), 0);
      if s.Some? then Ok(s) else Ok(EmptyPile(L, 0))
  }

  /** The common part of the three moves to a foundation: the top card of
      pile src goes to the foundation findFoundation chooses, if the rules
      allow. A missing foundation makes checkFoundationAdd dereference
      null. */
  function ToFoundation(L: Layout, base: Option<Card>, src: nat): Result<(Layout, nat)>
    requires |L| == PILES && src < PILES && (src == WASTE || src == RESERVE || exists t :: 0 <= t < TABLEAU_SIZE && src == Tab(t))
  {
    var card := TopOf(L[src]);
    var p := FoundationFor(L, card);
    if p.Err? then Err(p.msg)
    else if p.value.None? then Err("NullPointerException")
    else
      var f := p.value.value;
      var chk := CheckFoundationAdd(card, TopOf(L[Fnd(f)]), base);
      if chk.Err? then Err(chk.msg) else Ok((Shift(L, Fnd(f), src, 1), f))
  }

  /** stockToWaste: up to three cards turned from the stock onto the
      waste, one at a time; with the stock empty, the waste moved onto the
      stock and that pile turned over. */
  function TurnStock(L: Layout): (Layout, Done)
    requires |L| == PILES
  {
    var num := if |L[STOCK]| < 3 then |L[STOCK]| else 3;
    if num == 0 then
      var (s, w) := MoveTop(L[STOCK], L[WASTE], |L[WASTE]|);
      (L[STOCK := Reverse(s)][WASTE := w], StockTurned(0))
    else (ShiftEach(L, WASTE, STOCK, num), StockTurned(num))
  }

  /** The act of each move: the new layout and what its undo needs, or the
      message of the IllegalArgumentException it throws. */
  function Forward(L: Layout, base: Option<Card>, m: Move): (r: Result<(Layout, Done)>)
    requires |L| == PILES
  {
    match m
    case StockToWaste => Ok(TurnStock(L))
    case WasteToFoundation => WasteToFoundationAct(L, base)
    case ReserveToFoundation => ReserveToFoundationAct(L, base)
    case TableauToFoundation(k) => TableauToFoundationAct(L, base, k)
    case TableauToTableau(k0, k1) => TableauToTableauAct(L, base, k0, k1)
    case FoundationToTableau(k, j) => FoundationToTableauAct(L, base, k, j)
    case WasteToTableau(k) => WasteToTableauAct(L, base, k)
    case ReserveToTableau(k) => ReserveToTableauAct(L, base, k)
  }

  /** wasteToFoundation */
  function WasteToFoundationAct(L: Layout, base: Option<Card>): Result<(Layout, Done)>
    requires |L| == PILES
  {
    var r := ToFoundation(L, base, WASTE);
    if r.Err? then Err(r.msg) else Ok((r.value.0, WasteFounded(r.value.1)))
  }

  /** reserveToFoundation */
  function ReserveToFoundationAct(L: Layout, base: Option<Card>): Result<(Layout, Done)>
    requires |L| == PILES
  {
    var r := ToFoundation(L, base, RESERVE);
    if r.Err? then Err(r.msg) else Ok((r.value.0, ReserveFounded(r.value.1)))
  }

  /** tableauToFoundation(k) */
  function TableauToFoundationAct(L: Layout, base: Option<Card>, k: int): Result<(Layout, Done)>
    requires |L| == PILES
  {
    var t := TableauIndex(k);
    if t.Err? then Err(t.msg)
    else if L[Tab(t.value)] == [] then Err("No cards in that pile")
    else
      var r := ToFoundation(L, base, Tab(t.value));
      if r.Err? then Err(r.msg)
      else
        var (L', filled) := Fill(r.value.0, Tab(t.value));
        Ok((L', TableauFounded(t.value, r.value.1, filled)))
  }

  /** tableauToTableau(k0, k1) */
  function TableauToTableauAct(L: Layout, base: Option<Card>, k0: int, k1: int): Result<(Layout, Done)>
    requires |L| == PILES
  {
    var t0 := TableauIndex(k0);
    var t1 := TableauIndex(k1);
    if t0.Err? then Err(t0.msg)
    else if t1.Err? then Err(t1.msg)
    else if t0.value == t1.value then Err("Can't move a pile onto itself")
    else if L[Tab(t0.value)] == [] then Err("Can't move an empty pile")
    else
      var size := |L[Tab(t0.value)]|;
      var chk := if L[Tab(t1.value)] == [] then Ok(())
                 else CheckTableauAdd(Some(L[Tab(t0.value)][0]), TopOf(L[Tab(t1.value)]), base);
      if chk.Err? then Err(chk.msg)
      else
        var (L', filled) := Fill(Shift(L, Tab(t1.value), Tab(t0.value), size), Tab(t0.value));
        Ok((L', TableauMoved(t0.value, t1.value, size, filled)))
  }

  /** foundationToTableau(k, j) */
  function FoundationToTableauAct(L: Layout, base: Option<Card>, k: int, j: int): Result<(Layout, Done)>
    requires |L| == PILES
  {
    var f := FoundationIndex(k);
    var t := TableauIndex(j);
    if f.Err? then Err(f.msg)
    else if t.Err? then Err(t.msg)
    else if L[Fnd(f.value)] == [] then Err("Cannot move from empty pile")
    else if L[Tab(t.value)] == [] then Err("Cannot move card to empty tableau")
    else
      var chk := CheckTableauAdd(TopOf(L[Fnd(f.value)]), TopOf(L[Tab(t.value)]), base);
      if chk.Err? then Err(chk.msg)
      else Ok((Shift(L, Tab(t.value), Fnd(f.value), 1), FoundationTableaued(f.value, t.value)))
  }

  /** wasteToTableau(k) */
  function WasteToTableauAct(L: Layout, base: Option<Card>, k: int): Result<(Layout, Done)>
    requires |L| == PILES
  {
    var t := TableauIndex(k);
    if t.Err? then Err(t.msg)
    else if L[RESERVE] != [] && L[Tab(t.value)] == [] then Err("Still cards in reserve")
    else
      var chk := CheckTableauAdd(TopOf(L[WASTE]), TopOf(L[Tab(t.value)]), base);
      if chk.Err? then Err(chk.msg)
      else Ok((Shift(L, Tab(t.value), WASTE, 1), WasteTableaued(t.value)))
  }

  /** reserveToTableau(k) */
  function ReserveToTableauAct(L: Layout, base: Option<Card>, k: int): Result<(Layout, Done)>
    requires |L| == PILES
  {
    var t := TableauIndex(k);
    if t.Err? then Err(t.msg)
    else
      var chk := CheckTableauAdd(TopOf(L[RESERVE]), TopOf(L[Tab(t.value)]), base);
      if chk.Err? then Err(chk.msg)
      else Ok((Shift(L, Tab(t.value), RESERVE, 1), ReserveTableaued(t.value)))
  }

  /** The undo of each action, from the fields its act recorded. */
  function Revert(L: Layout, d: Done): (L': Layout)
    requires |L| == PILES && DoneOk(d)
    ensures |L'| == PILES
  {
    match d
    case StockTurned(num) =>
      var L1 := if num == 0 then
                  var (w, s) := MoveTop(L[WASTE], L[STOCK], |L[STOCK]|);
                  L[WASTE := Reverse(w)][STOCK := s]
                else L;
      ShiftEach(L1, STOCK, WASTE, num)
    case WasteFounded(f) => Shift(L, WASTE, Fnd(f), 1)
    case ReserveFounded(f) => Shift(L, RESERVE, Fnd(f), 1)
    case TableauFounded(t, f, filled) =>
      var L1 := if filled then Shift(L, RESERVE, Tab(t), 1) else L;
      Shift(L1, Tab(t), Fnd(f), 1)
    case TableauMoved(t0, t1, size, filled) =>
      var L1 := if filled then Shift(L, RESERVE, Tab(t0), 1) else L;
      Shift(L1, Tab(t0), Tab(t1), size)
    case FoundationTableaued(f, t) => Shift(L, Fnd(f), Tab(t), 1)
    case WasteTableaued(t) => Shift(L, WASTE, Tab(t), 1)
    case ReserveTableaued(t) => Shift(L, RESERVE, Tab(t), 1)
  }

  /** Moving k cards, no more than src holds, and moving k back restores
      the layout. */
  lemma ShiftBack(L: Layout, dst: nat, src: nat, k: nat)
    requires dst < |L| && src < |L| && dst != src && k <= |L[src]|
    ensures Shift(Shift(L, dst, src, k), src, dst, k) == L
  {
    ShiftUndo(L, dst, src, k);
  }

  /** Undo is the inverse of act: reverting what a successful move
      recorded gives back the layout before the move. */
  lemma ForwardRevert(L: Layout, base: Option<Card>, m: Move)
    requires |L| == PILES && Forward(L, base, m).Ok?
    ensures DoneOk(Forward(L, base, m).value.1) && |Forward(L, base, m).value.0| == PILES
    ensures Revert(Forward(L, base, m).value.0, Forward(L, base, m).value.1) == L
  {
    match m
    case StockToWaste => StockRevert(L);
    case WasteToFoundation => ToFoundationRevert(L, base, WASTE);
    case ReserveToFoundation => ToFoundationRevert(L, base, RESERVE);
    case TableauToFoundation(k) => TableauToFoundationRevert(L, base, k);
    case TableauToTableau(k0, k1) => TableauToTableauRevert(L, base, k0, k1);
    case _ => ToTableauRevert(L, base, m);
  }

  lemma ToTableauRevert(L: Layout, base: Option<Card>, m: Move)
    requires |L| == PILES && Forward(L, base, m).Ok?
    requires m.FoundationToTableau? || m.WasteToTableau? || m.ReserveToTableau?
    ensures DoneOk(Forward(L, base, m).value.1) && |Forward(L, base, m).value.0| == PILES
    ensures Revert(Forward(L, base, m).value.0, Forward(L, base, m).value.1) == L
  {
    match m
    case FoundationToTableau(k, j) =>
      assert FoundationToTableauAct(L, base, k, j).Ok?;
      ShiftBack(L, Tab(TableauIndex(j).value), Fnd(FoundationIndex(k).value), 1);
    case WasteToTableau(k) =>
      assert WasteToTableauAct(L, base, k).Ok?;
      ShiftBack(L, Tab(TableauIndex(k).value), WASTE, 1);
    case ReserveToTableau(k) =>
      assert ReserveToTableauAct(L, base, k).Ok?;
      ShiftBack(L, Tab(TableauIndex(k).value), RESERVE, 1);
  }

  lemma StockRevert(L: Layout)
    requires |L| == PILES
    ensures Revert(TurnStock(L).0, TurnStock(L).1) == L
  {
    if |L[STOCK]| == 0 {
      RecycleRevert(L);
    } else {
      var num := if |L[STOCK]| < 3 then |L[STOCK]| else 3;
      assert TurnStock(L) == (ShiftEach(L, WASTE, STOCK, num), StockTurned(num));
      ShiftEachUndo(L, WASTE, STOCK, num);
    }
  }

  /** With the stock empty, turning the waste over into the stock and back
      restores both. */
  lemma RecycleRevert(L: Layout)
    requires |L| == PILES && L[STOCK] == []
    ensures Revert(TurnStock(L).0, TurnStock(L).1) == L
  {
    RecycleTurns(L);
    var M := TurnStock(L).0;
    UnrecycleTurns(M);
    assert M[WASTE] + M[STOCK] == Reverse(L[WASTE]);
    ReverseInvolutive(L[WASTE]);
  }

  lemma RecycleTurns(L: Layout)
    requires |L| == PILES && L[STOCK] == []
    ensures TurnStock(L) == (L[STOCK := Reverse(L[WASTE])][WASTE := []], StockTurned(0))
  {
    assert L[STOCK] + L[WASTE] == L[WASTE];
  }

  lemma UnrecycleTurns(M: Layout)
    requires |M| == PILES
    ensures Revert(M, StockTurned(0)) == M[WASTE := Reverse(M[WASTE] + M[STOCK])][STOCK := []]
  {
  }

  lemma ToFoundationRevert(L: Layout, base: Option<Card>, src: nat)
    requires |L| == PILES && (src == WASTE || src == RESERVE)
    requires ToFoundation(L, base, src).Ok?
    ensures var r := ToFoundation(L, base, src).value;
            r.1 < NUM_SUITS && Shift(r.0, src, Fnd(r.1), 1) == L
  {
    var f := ToFoundation(L, base, src).value.1;
    ShiftBack(L, Fnd(f), src, 1);
  }

  lemma TableauToFoundationRevert(L: Layout, base: Option<Card>, k: int)
    requires |L| == PILES && TableauToFoundationAct(L, base, k).Ok?
    ensures DoneOk(TableauToFoundationAct(L, base, k).value.1)
    ensures |TableauToFoundationAct(L, base, k).value.0| == PILES
    ensures Revert(TableauToFoundationAct(L, base, k).value.0, TableauToFoundationAct(L, base, k).value.1) == L
  {
    var t := k - 1;
    var r := ToFoundation(L, base, Tab(t));
    assert r.Ok?;
    var (L1, f) := r.value;
    ToFoundationShifts(L, base, Tab(t));
    var (L2, filled) := Fill(L1, Tab(t));
    assert TableauToFoundationAct(L, base, k) == Ok((L2, TableauFounded(t, f, filled)));
    ShiftBack(L, Fnd(f), Tab(t), 1);
    if filled {
      ShiftBack(L1, Tab(t), RESERVE, 1);
    }
  }

  /** A move to a foundation moves one card onto one of the four. */
  lemma ToFoundationShifts(L: Layout, base: Option<Card>, src: nat)
    requires |L| == PILES && src < PILES && (src == WASTE || src == RESERVE || exists t :: 0 <= t < TABLEAU_SIZE && src == Tab(t))
    requires ToFoundation(L, base, src).Ok?
    ensures ToFoundation(L, base, src).value.1 < NUM_SUITS
    ensures ToFoundation(L, base, src).value.0 == Shift(L, Fnd(ToFoundation(L, base, src).value.1), src, 1)
  {
  }

  lemma TableauToTableauRevert(L: Layout, base: Option<Card>, k0: int, k1: int)
    requires |L| == PILES && TableauToTableauAct(L, base, k0, k1).Ok?
    ensures DoneOk(TableauToTableauAct(L, base, k0, k1).value.1)
    ensures |TableauToTableauAct(L, base, k0, k1).value.0| == PILES
    ensures Revert(TableauToTableauAct(L, base, k0, k1).value.0, TableauToTableauAct(L, base, k0, k1).value.1) == L
  {
    var t0, t1 := k0 - 1, k1 - 1;
    var size := |L[Tab(t0)]|;
    var L1 := Shift(L, Tab(t1), Tab(t0), size);
    ShiftBack(L, Tab(t1), Tab(t0), size);
    if L1[Tab(t0)] == [] && L1[RESERVE] != [] {
      ShiftBack(L1, Tab(t0), RESERVE, 1);
    }
  }

  /** stockToWaste with cards in the stock turns min(3, |stock|) of them
      onto the waste, the top stock card ending deepest; nothing else
      changes. */
  lemma StockTurnsThree(L: Layout)
    requires |L| == PILES && L[STOCK] != []
    ensures var S := L[STOCK];
            var num := if |S| < 3 then |S| else 3;
            var L' := TurnStock(L).0;
            && TurnStock(L).1 == StockTurned(num)
            && L'[STOCK] == S[..|S| - num]
            && L'[WASTE] == L[WASTE] + Reverse(S[|S| - num..])
            && forall i :: RESERVE <= i < PILES ==> L'[i] == L[i]
  {
    var num := if |L[STOCK]| < 3 then |L[STOCK]| else 3;
    ShiftEachTurns(L, WASTE, STOCK, num);
  }

  /** tableauToTableau(k0, k1) between piles in range: the same pile and
      an empty source are refused; onto an empty pile the move is always
      allowed; a move puts the whole source pile, in order, on the target
      and refills the emptied source with the reserve's top card. */
  lemma TableauToTableauRules(L: Layout, base: Option<Card>, k0: int, k1: int)
    requires |L| == PILES && 1 <= k0 <= TABLEAU_SIZE && 1 <= k1 <= TABLEAU_SIZE
    ensures k0 == k1 ==> Forward(L, base, TableauToTableau(k0, k1)) == Err("Can't move a pile onto itself")
    ensures k0 != k1 && L[Tab(k0 - 1)] == [] ==>
      Forward(L, base, TableauToTableau(k0, k1)) == Err("Can't move an empty pile")
    ensures k0 != k1 && L[Tab(k0 - 1)] != [] && L[Tab(k1 - 1)] == [] ==>
      Forward(L, base, TableauToTableau(k0, k1)).Ok?
    ensures var r := Forward(L, base, TableauToTableau(k0, k1));
            var R := L[RESERVE];
            r.Ok? ==>
              && r.value.0[Tab(k1 - 1)] == L[Tab(k1 - 1)] + L[Tab(k0 - 1)]
              && r.value.0[Tab(k0 - 1)] == (if R == [] then [] else [R[|R| - 1]])
              && r.value.0[RESERVE] == (if R == [] then [] else R[..|R| - 1])
  {
  }

  /** wasteToTableau onto an empty tableau pile is refused while the
      reserve has cards. */
  lemma WasteToEmptyTableau(L: Layout, base: Option<Card>, k: int)
    requires |L| == PILES && 1 <= k <= TABLEAU_SIZE
    requires L[RESERVE] != [] && L[Tab(k - 1)] == []
    ensures Forward(L, base, WasteToTableau(k)) == Err("Still cards in reserve")
  {
  }

  /** All the cards of a layout. */
  ghost function AllCards(L: Layout): multiset<Card>
  {
    CardsFrom(L, 0)
  }

  /** The cards of the piles from number i on. */
  ghost function CardsFrom(L: Layout, i: nat): multiset<Card>
    requires i <= |L|
    decreases |L| - i
  {
    if i == |L| then multiset{} else multiset(L[i]) + CardsFrom(L, i + 1)
  }

  lemma {:induction false} CardsFromUpdate(L: Layout, i: nat, j: nat, x: seq<Card>)
    requires i <= |L| && j < |L|
    ensures j < i ==> CardsFrom(L[j := x], i) == CardsFrom(L, i)
    ensures i <= j ==> CardsFrom(L[j := x], i) + multiset(L[j]) == CardsFrom(L, i) + multiset(x)
    decreases |L| - i
  {
    if i < |L| {
      CardsFromUpdate(L, i + 1, j, x);
      assert CardsFrom(L[j := x], i) == multiset(L[j := x][i]) + CardsFrom(L[j := x], i + 1);
      assert CardsFrom(L, i) == multiset(L[i]) + CardsFrom(L, i + 1);
      if i == j {
        assert L[j := x][i] == x;
      } else if i < j {
        assert L[j := x][i] == L[i];
        calc {
          CardsFrom(L[j := x], i) + multiset(L[j]);
          multiset(L[i]) + (CardsFrom(L[j := x], i + 1) + multiset(L[j]));
          multiset(L[i]) + (CardsFrom(L, i + 1) + multiset(x));
          CardsFrom(L, i) + multiset(x);
        }
      } else {
        assert L[j := x][i] == L[i];
      }
    }
  }

  lemma Cancel(A: multiset<Card>, B: multiset<Card>, X: multiset<Card>)
    requires A + X == B + X
    ensures A == B
  {
    forall c
      ensures A[c] == B[c]
    {
      assert (A + X)[c] == (B + X)[c];
    }
  }

  lemma AllCardsUpdate(L: Layout, i: nat, x: seq<Card>)
    requires i < |L|
    ensures AllCards(L[i := x]) + multiset(L[i]) == AllCards(L) + multiset(x)
  {
    CardsFromUpdate(L, 0, i, x);
  }

  lemma ShiftConserves(L: Layout, dst: nat, src: nat, k: nat)
    requires dst < |L| && src < |L| && dst != src
    ensures AllCards(Shift(L, dst, src, k)) == AllCards(L)
  {
    var (d, s) := MoveTop(L[dst], L[src], k);
    MoveTopConserves(L[dst], L[src], k);
    var L1 := L[dst := d];
    AllCardsUpdate(L, dst, d);
    AllCardsUpdate(L1, src, s);
    assert L1[src] == L[src];
    calc {
      AllCards(L1[src := s]) + (multiset(L[src]) + multiset(L[dst]));
      (AllCards(L1[src := s]) + multiset(L1[src])) + multiset(L[dst]);
      (AllCards(L1) + multiset(s)) + multiset(L[dst]);
      (AllCards(L1) + multiset(L[dst])) + multiset(s);
      (AllCards(L) + multiset(d)) + multiset(s);
      AllCards(L) + (multiset(d) + multiset(s));
      AllCards(L) + (multiset(L[src]) + multiset(L[dst]));
    }
    Cancel(AllCards(L1[src := s]), AllCards(L), multiset(L[src]) + multiset(L[dst]));
  }

  lemma {:induction false} ShiftEachConserves(L: Layout, dst: nat, src: nat, n: nat)
    requires dst < |L| && src < |L| && dst != src
    ensures AllCards(ShiftEach(L, dst, src, n)) == AllCards(L)
  {
    if n > 0 {
      ShiftEachConserves(L, dst, src, n - 1);
      ShiftConserves(ShiftEach(L, dst, src, n - 1), dst, src, 1);
    }
  }

  lemma FillConserves(L: Layout, p: nat)
    requires |L| == PILES && RESERVE < p < PILES
    ensures AllCards(Fill(L, p).0) == AllCards(L)
  {
    if L[p] == [] && L[RESERVE] != [] {
      ShiftConserves(L, p, RESERVE, 1);
    }
  }

  /** Moving the waste, turned over, into the stock, and back, keeps the
      cards. */
  lemma RecycleConserves(L: Layout, a: nat, b: nat)
    requires a < |L| && b < |L| && a != b
    ensures AllCards(L[a := Reverse(L[a] + L[b])][b := []]) == AllCards(L)
  {
    var r := Reverse(L[a] + L[b]);
    ReverseConserves(L[a] + L[b]);
    assert multiset(r) == multiset(L[a]) + multiset(L[b]);
    var L1 := L[a := r];
    AllCardsUpdate(L, a, r);
    AllCardsUpdate(L1, b, []);
    assert L1[b] == L[b];
    calc {
      AllCards(L1[b := []]) + (multiset(L[a]) + multiset(L[b]));
      (AllCards(L1[b := []]) + multiset(L1[b])) + multiset(L[a]);
      AllCards(L1) + multiset(L[a]);
      AllCards(L) + multiset(r);
    }
    Cancel(AllCards(L1[b := []]), AllCards(L), multiset(L[a]) + multiset(L[b]));
  }

  /** No move loses or creates a card. */
  lemma ForwardConserves(L: Layout, base: Option<Card>, m: Move)
    requires |L| == PILES && Forward(L, base, m).Ok?
    ensures AllCards(Forward(L, base, m).value.0) == AllCards(L)
  {
    match m
    case StockToWaste => StockConserves(L);
    case TableauToFoundation(k) => TableauToFoundationConserves(L, base, k);
    case TableauToTableau(k0, k1) => TableauToTableauConserves(L, base, k0, k1);
    case WasteToFoundation => FoundationAddConserves(L, base, WASTE);
    case ReserveToFoundation => FoundationAddConserves(L, base, RESERVE);
    case _ => ToTableauConserves(L, base, m);
  }

  lemma ToTableauConserves(L: Layout, base: Option<Card>, m: Move)
    requires |L| == PILES && Forward(L, base, m).Ok?
    requires m.FoundationToTableau? || m.WasteToTableau? || m.ReserveToTableau?
    ensures AllCards(Forward(L, base, m).value.0) == AllCards(L)
  {
    match m
    case FoundationToTableau(k, j) =>
      assert FoundationToTableauAct(L, base, k, j).Ok?;
      ShiftConserves(L, Tab(TableauIndex(j).value), Fnd(FoundationIndex(k).value), 1);
    case WasteToTableau(k) =>
      assert WasteToTableauAct(L, base, k).Ok?;
      ShiftConserves(L, Tab(TableauIndex(k).value), WASTE, 1);
    case ReserveToTableau(k) =>
      assert ReserveToTableauAct(L, base, k).Ok?;
      ShiftConserves(L, Tab(TableauIndex(k).value), RESERVE, 1);
  }

  lemma FoundationAddConserves(L: Layout, base: Option<Card>, src: nat)
    requires |L| == PILES && (src == WASTE || src == RESERVE) && ToFoundation(L, base, src).Ok?
    ensures AllCards(ToFoundation(L, base, src).value.0) == AllCards(L)
  {
    ToFoundationShifts(L, base, src);
    ShiftConserves(L, Fnd(ToFoundation(L, base, src).value.1), src, 1);
  }

  lemma StockConserves(L: Layout)
    requires |L| == PILES
    ensures AllCards(TurnStock(L).0) == AllCards(L)
  {
    if |L[STOCK]| == 0 {
      RecycleTurns(L);
      assert L[STOCK] + L[WASTE] == L[WASTE];
      RecycleConserves(L, STOCK, WASTE);
    } else {
      var num := if |L[STOCK]| < 3 then |L[STOCK]| else 3;
      assert TurnStock(L).0 == ShiftEach(L, WASTE, STOCK, num);
      ShiftEachConserves(L, WASTE, STOCK, num);
    }
  }

  lemma TableauToFoundationConserves(L: Layout, base: Option<Card>, k: int)
    requires |L| == PILES && TableauToFoundationAct(L, base, k).Ok?
    ensures AllCards(TableauToFoundationAct(L, base, k).value.0) == AllCards(L)
  {
    var t := k - 1;
    var r := ToFoundation(L, base, Tab(t));
    assert r.Ok?;
    var (L1, f) := r.value;
    ToFoundationShifts(L, base, Tab(t));
    var (L2, filled) := Fill(L1, Tab(t));
    assert TableauToFoundationAct(L, base, k).value.0 == L2;
    ShiftConserves(L, Fnd(f), Tab(t), 1);
    FillConserves(L1, Tab(t));
  }

  lemma TableauToTableauConserves(L: Layout, base: Option<Card>, k0: int, k1: int)
    requires |L| == PILES && TableauToTableauAct(L, base, k0, k1).Ok?
    ensures AllCards(TableauToTableauAct(L, base, k0, k1).value.0) == AllCards(L)
  {
    var size := |L[Tab(k0 - 1)]|;
    ShiftConserves(L, Tab(k1 - 1), Tab(k0 - 1), size);
    FillConserves(Shift(L, Tab(k1 - 1), Tab(k0 - 1), size), Tab(k0 - 1));
  }

  /** No undo loses or creates a card. */
  lemma RevertConserves(L: Layout, d: Done)
    requires |L| == PILES && DoneOk(d)
    ensures AllCards(Revert(L, d)) == AllCards(L)
  {
    match d
    case StockTurned(num) =>
      var L1 := if num == 0 then L[WASTE := Reverse(L[WASTE] + L[STOCK])][STOCK := []] else L;
      if num == 0 {
        UnrecycleTurns(L);
        RecycleConserves(L, WASTE, STOCK);
      }
      ShiftEachConserves(L1, STOCK, WASTE, num);
    case WasteFounded(f) => ShiftConserves(L, WASTE, Fnd(f), 1);
    case ReserveFounded(f) => ShiftConserves(L, RESERVE, Fnd(f), 1);
    case TableauFounded(t, f, filled) =>
      var L1 := if filled then Shift(L, RESERVE, Tab(t), 1) else L;
      ShiftConserves(L, RESERVE, Tab(t), 1);
      ShiftConserves(L1, Tab(t), Fnd(f), 1);
    case TableauMoved(t0, t1, size, filled) =>
      var L1 := if filled then Shift(L, RESERVE, Tab(t0), 1) else L;
      ShiftConserves(L, RESERVE, Tab(t0), 1);
      ShiftConserves(L1, Tab(t0), Tab(t1), size);
    case FoundationTableaued(f, t) => ShiftConserves(L, Fnd(f), Tab(t), 1);
    case WasteTableaued(t) => ShiftConserves(L, WASTE, Tab(t), 1);
    case ReserveTableaued(t) => ShiftConserves(L, RESERVE, Tab(t), 1);
  }

  /** The number of cards on the foundations. */
  function FoundationCards(L: Layout): nat
    requires |L| == PILES
  {
    |L[Fnd(0)]| + |L[Fnd(1)]| + |L[Fnd(2)]| + |L[Fnd(3)]|
  }

  /** The number of cards on the first f foundation piles. */
  function FoundationsUpTo(L: Layout, f: nat): (n: nat)
    requires |L| == PILES && f <= NUM_SUITS
  {
    if f == 0 then 0 else FoundationsUpTo(L, f - 1) + |L[Fnd(f - 1)]|
  }

  lemma FoundationsUpToAll(L: Layout)
    requires |L| == PILES
    ensures FoundationsUpTo(L, NUM_SUITS) == FoundationCards(L)
  {
    assert FoundationsUpTo(L, 1) == |L[Fnd(0)]|;
    assert FoundationsUpTo(L, 2) == |L[Fnd(0)]| + |L[Fnd(1)]|;
  }

  /** With the whole deck in the layout, all 52 cards are on the
      foundations exactly when every other pile is empty. */
  lemma WonIffAllFounded(L: Layout)
    requires |L| == PILES && |AllCards(L)| == NUM_SUITS * NUM_RANKS
    ensures FoundationCards(L) == NUM_SUITS * NUM_RANKS <==> forall i :: 0 <= i < Fnd(0) ==> L[i] == []
  {
    assert CardsFrom(L, 11) == multiset{};
    assert |AllCards(L)| == |L[0]| + |L[1]| + |L[2]| + |L[3]| + |L[4]| + |L[5]| + |L[6]|
      + |L[7]| + |L[8]| + |L[9]| + |L[10]| by {
      assert CardsFrom(L, 10) == multiset(L[10]) + CardsFrom(L, 11);
      assert CardsFrom(L, 9) == multiset(L[9]) + CardsFrom(L, 10);
      assert CardsFrom(L, 8) == multiset(L[8]) + CardsFrom(L, 9);
      assert CardsFrom(L, 7) == multiset(L[7]) + CardsFrom(L, 8);
      assert CardsFrom(L, 6) == multiset(L[6]) + CardsFrom(L, 7);
      assert CardsFrom(L, 5) == multiset(L[5]) + CardsFrom(L, 6);
      assert CardsFrom(L, 4) == multiset(L[4]) + CardsFrom(L, 5);
      assert CardsFrom(L, 3) == multiset(L[3]) + CardsFrom(L, 4);
      assert CardsFrom(L, 2) == multiset(L[2]) + CardsFrom(L, 3);
      assert CardsFrom(L, 1) == multiset(L[1]) + CardsFrom(L, 2);
      assert CardsFrom(L, 0) == multiset(L[0]) + CardsFrom(L, 1);
    }
  }

  /** The layout deal() makes from a shuffled deck, listed bottom first:
      the top 13 cards go to the reserve, the next to the first foundation
      (it is the base card), the next four to the tableau piles one each,
      and the rest to the stock; the waste is empty. */
  function Dealt(deck: seq<Card>): (L: Layout)
    requires |deck| == NUM_SUITS * NUM_RANKS
    ensures |L| == PILES && |L[RESERVE]| == RESERVE_SIZE && L[Fnd(0)] == [deck[38]]
    ensures forall t :: 0 <= t < TABLEAU_SIZE ==> L[Tab(t)] == [deck[37 - t]]
    ensures L[WASTE] == [] && L[Fnd(1)] == [] && L[Fnd(2)] == [] && L[Fnd(3)] == []
  {
    [deck[..34], [], deck[39..], [deck[37]], [deck[36]], [deck[35]], [deck[34]], [deck[38]], [], [], []]
  }

  /** A deal lays out every card of the deck, once each. */
  lemma DealtConserves(deck: seq<Card>)
    requires |deck| == NUM_SUITS * NUM_RANKS
    ensures AllCards(Dealt(deck)) == multiset(deck) && FoundationCards(Dealt(deck)) == 1
  {
    var L := Dealt(deck);
    LaidOut(L, deck[..34], deck[39..], deck[37], deck[36], deck[35], deck[34], deck[38]);
    SplitFive(deck, 34);
  }

  /** The cards of a layout with the shape of a deal. */
  lemma LaidOut(L: Layout, stock: seq<Card>, reserve: seq<Card>, t0: Card, t1: Card, t2: Card, t3: Card, f0: Card)
    requires |L| == PILES && L[STOCK] == stock && L[WASTE] == [] && L[RESERVE] == reserve
    requires L[Tab(0)] == [t0] && L[Tab(1)] == [t1] && L[Tab(2)] == [t2] && L[Tab(3)] == [t3]
    requires L[Fnd(0)] == [f0] && L[Fnd(1)] == [] && L[Fnd(2)] == [] && L[Fnd(3)] == []
    ensures AllCards(L) == multiset(stock) + multiset(reserve) + multiset{t0} + multiset{t1}
      + multiset{t2} + multiset{t3} + multiset{f0}
  {
    AllCardsEach(L);
  }

  /** A list split around five consecutive elements. */
  lemma SplitFive(s: seq<Card>, a: nat)
    requires a + 5 <= |s|
    ensures multiset(s) == multiset(s[..a]) + multiset(s[a + 5..]) + multiset{s[a + 3]} + multiset{s[a + 2]}
      + multiset{s[a + 1]} + multiset{s[a]} + multiset{s[a + 4]}
  {
    SuffixSplit(s, a + 4);
    SuffixSplit(s, a + 3);
    SuffixSplit(s, a + 2);
    SuffixSplit(s, a + 1);
    SuffixSplit(s, a);
    assert s == s[..a] + s[a..];
  }

  /** The cards of an eleven-pile layout, pile by pile. */
  lemma AllCardsEach(L: Layout)
    requires |L| == PILES
    ensures AllCards(L) == multiset(L[0]) + multiset(L[1]) + multiset(L[2]) + multiset(L[3])
      + multiset(L[4]) + multiset(L[5]) + multiset(L[6]) + multiset(L[7]) + multiset(L[8])
      + multiset(L[9]) + multiset(L[10])
  {
    assert CardsFrom(L, 11) == multiset{};
    assert CardsFrom(L, 10) == multiset(L[10]) + CardsFrom(L, 11);
    assert CardsFrom(L, 9) == multiset(L[9]) + CardsFrom(L, 10);
    assert CardsFrom(L, 8) == multiset(L[8]) + CardsFrom(L, 9);
    assert CardsFrom(L, 7) == multiset(L[7]) + CardsFrom(L, 8);
    assert CardsFrom(L, 6) == multiset(L[6]) + CardsFrom(L, 7);
    assert CardsFrom(L, 5) == multiset(L[5]) + CardsFrom(L, 6);
    assert CardsFrom(L, 4) == multiset(L[4]) + CardsFrom(L, 5);
    assert CardsFrom(L, 3) == multiset(L[3]) + CardsFrom(L, 4);
    assert CardsFrom(L, 2) == multiset(L[2]) + CardsFrom(L, 3);
    assert CardsFrom(L, 1) == multiset(L[1]) + CardsFrom(L, 2);
    assert CardsFrom(L, 0) == multiset(L[0]) + CardsFrom(L, 1);
  }

  lemma SuffixSplit(s: seq<Card>, k: nat)
    requires k < |s|
    ensures multiset(s[k..]) == multiset{s[k]} + multiset(s[k + 1..])
  {
    assert s[k..] == [s[k]] + s[k + 1..];
  }

  /** An undo left over from an earlier game, applied to a fresh deal: if the
      last move of that game was from the waste to the first foundation,
      undoing it takes the new base card off its foundation and puts it on
      the empty waste, a layout no deal and no legal play produces. */
  lemma StaleUndoAfterDeal(deck: seq<Card>)
    requires |deck| == NUM_SUITS * NUM_RANKS
    ensures var L := Revert(Dealt(deck), WasteFounded(0));
            L[Fnd(0)] == [] && L[WASTE] == [deck[38]] && L != Dealt(deck)
  {
    var L := Revert(Dealt(deck), WasteFounded(0));
    assert L[WASTE] == [deck[38]];
  }
}
