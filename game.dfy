/** A game of Canfield: eleven piles, the base card, and the undo history
    of applied actions. */
module Canfield {
  import opened Common
  import opened Cards
  import opened Piles
  import opened CanfieldRules

  /** What a step of the game did: the outcome e the rules give for a
      layout before, and the layout after together with the step's result
      r. A refused step leaves the layout as it was. */
  predicate Outcome<T(==)>(e: Result<(Layout, T)>, before: Layout, after: Layout, r: Result<T>)
  {
    if e.Ok? then r == Ok(e.value.1) && after == e.value.0 else r == Err(e.msg) && after == before
  }

  /** An action: a move of the game that can be applied once and then
      inverse-applied. The move's own fields (the action's anonymous
      subclass and what its act records for its undo) are move and saved. */
  class Action {
    const move: Move
    var applied: bool
    var saved: Done

    ghost predicate Valid()
      reads this
    {
      applied ==> DoneOk(saved)
    }

    constructor (m: Move)
      ensures move == m && !applied && Valid()
    {
      move := m;
      applied := false;
      saved := StockTurned(0);
    }

    /** apply(): IllegalArgumentException when already applied; otherwise
        act, then mark applied. A refused act leaves the action unapplied. */
    method Apply(g: Game) returns (r: Result<()>)
      requires g.Wf() && Valid()
      modifies this, g.piles
      ensures Valid()
      ensures old(applied) ==> (r == Err("IllegalArgumentException") && applied == old(applied)
        && saved == old(saved) && g.Current() == old(g.Current()))
      ensures !old(applied) ==> Acted(Forward(old(g.Current()), g.base, move), old(g.Current()), g.Current(), r)
      ensures !old(applied) && r.Ok? ==> applied && saved == Forward(old(g.Current()), g.base, move).value.1
      ensures !old(applied) && r.Err? ==> !applied && saved == old(saved)
    {
      if applied {
        return Err("IllegalArgumentException");
      }
      var d := g.Act(move);
      if d.Err? {
        return Err(d.msg);
      }
      saved := d.value;
      applied := true;
      ForwardRevert(old(g.Current()), g.base, move);
      r := Ok(());
    }

    /** inverseApply(): IllegalArgumentException unless applied; otherwise
        undo, then mark unapplied, so that the action may be applied again. */
    method InverseApply(g: Game) returns (r: Result<()>)
      requires g.Wf() && Valid()
      modifies this, g.piles
      ensures Valid() && saved == old(saved)
      ensures !old(applied) ==> r == Err("IllegalArgumentException") && !applied && g.Current() == old(g.Current())
      ensures old(applied) ==> r == Ok(()) && !applied && g.Current() == Revert(old(g.Current()), saved)
    {
      if !applied {
        return Err("IllegalArgumentException");
      }
      g.UndoDone(saved);
      applied := false;
      r := Ok(());
    }
  }

  /** Applying an action and inverse-applying it restores the game and
      leaves the action unapplied; a second apply in between is refused. */
  method ApplyInverseApply(a: Action, g: Game) returns (r1: Result<()>, r2: Result<()>, r3: Result<()>)
    requires g.Wf() && a.Valid() && !a.applied
    modifies a, g.piles
    ensures r1.Ok? <==> Forward(old(g.Current()), g.base, a.move).Ok?
    ensures r1.Ok? ==> r2 == Err("IllegalArgumentException") && r3 == Ok(())
    ensures g.Current() == old(g.Current()) && !a.applied
  {
    r1 := a.Apply(g);
    if r1.Err? {
      return r1, r1, r1;
    }
    ghost var after := g.Current();
    r2 := a.Apply(g);
    assert g.Current() == after;
    r3 := a.InverseApply(g);
    ForwardRevert(old(g.Current()), g.base, a.move);
  }

  class Game {
    /** _stock, _waste, _reserve, the four _tableau piles and the four
        _foundation piles, in that order. */
    const piles: seq<Pile>
    var base: Option<Card>
    /** The history stack, oldest action first. */
    var history: seq<Action>
    /** The layout before each action of the history. */
    ghost var past: seq<Layout>
    /** What each action of the history recorded for its undo. */
    ghost var saves: seq<Done>

    ghost predicate Wf()
    {
      |piles| == PILES && forall i, j :: 0 <= i < j < |piles| ==> piles[i] != piles[j]
    }

    ghost function Current(): (L: Layout)
      reads piles
      ensures |L| == |piles|
    {
      seq(|piles|, i reads piles requires 0 <= i < |piles| => piles[i].cards)
    }

    /** The shape of the ghost record of the history. */
    ghost predicate Shape()
      reads this
    {
      && Wf() && |past| == |saves|
      && (forall i :: 0 <= i < |saves| ==> DoneOk(saves[i]))
      && (forall i :: 0 <= i < |past| ==> |past[i]| == PILES)
    }

    /** Every action of the history has been applied and is there once, so
        that undo can inverse-apply it. */
    ghost predicate Valid()
      reads this, history
    {
      && Shape() && |history| == |saves|
      && (forall i :: 0 <= i < |history| ==> history[i].applied && history[i].saved == saves[i])
      && (forall i, j :: 0 <= i < j < |history| ==> history[i] != history[j])
    }

    /** Undoing the history's actions, newest first, passes back through
        the layouts before them. */
    ghost predicate Chain()
      reads this, piles
      requires Shape()
    {
      Replays(past, saves, Current())
    }

    /** new Game(): all piles empty, no base card, no history. */
    constructor ()
      ensures Valid() && Chain() && history == [] && base == None
      ensures forall i :: 0 <= i < PILES ==> Current()[i] == []
      ensures forall i :: 0 <= i < PILES ==> fresh(piles[i])
    {
      var stock := new Pile.Empty();
      var waste := new Pile.Empty();
      var reserve := new Pile.Empty();
      var ps := [stock, waste, reserve];
      for i := 0 to TABLEAU_SIZE + NUM_SUITS
        invariant |ps| == PILES - TABLEAU_SIZE - NUM_SUITS + i
        invariant forall k :: 0 <= k < |ps| ==> fresh(ps[k]) && ps[k].cards == []
        invariant forall k, j :: 0 <= k < j < |ps| ==> ps[k] != ps[j]
      {
        var p := new Pile.Empty();
        ps := ps + [p];
      }
      piles := ps;
      base := None;
      history := [];
      past := [];
      saves := [];
    }

    /** copyFrom(game0): each of my piles gets the cards of game0's pile in
        the same place. Copying from myself clears every pile. Two games
        never share a pile. */
    method CopyFrom(game0: Game)
      requires Wf() && game0.Wf()
      requires game0 == this || forall i, j :: 0 <= i < PILES && 0 <= j < PILES ==> piles[i] != game0.piles[j]
      modifies piles
      ensures game0 == this ==> forall i :: 0 <= i < PILES ==> Current()[i] == []
      ensures game0 != this ==> Current() == old(game0.Current()) && game0.Current() == old(game0.Current())
    {
      for i := 0 to PILES
        invariant forall k :: 0 <= k < i ==> piles[k].cards == (if game0 == this then [] else old(game0.piles[k].cards))
        invariant forall k :: i <= k < PILES ==> piles[k].cards == old(piles[k].cards)
        invariant game0 != this ==> forall k :: 0 <= k < PILES ==> game0.piles[k].cards == old(game0.piles[k].cards)
      {
        piles[i].CopyFrom(game0.piles[i]);
      }
    }

    /** dst.move(src, k) on two of my piles. */
    method Transfer(dst: nat, src: nat, k: nat)
      requires Wf() && dst < PILES && src < PILES && dst != src
      modifies piles[dst], piles[src]
      ensures Current() == Shift(old(Current()), dst, src, k)
    {
      piles[dst].Move(piles[src], k);
    }

    /** p.turnOver() on one of my piles. */
    method TurnOverPile(p: nat)
      requires Wf() && p < PILES
      modifies piles[p]
      ensures Current() == old(Current())[p := Reverse(old(Current())[p])]
    {
      piles[p].TurnOver();
    }

    /** fillFromReserve(p) */
    method FillFromReserve(p: nat) returns (filled: bool)
      requires Wf() && RESERVE < p < PILES
      modifies piles[p], piles[RESERVE]
      ensures (Current(), filled) == Fill(old(Current()), p)
    {
      if piles[p].IsEmpty() && !piles[RESERVE].IsEmpty() {
        Transfer(p, RESERVE, 1);
        return true;
      }
      return false;
    }

    /** findFoundation(card) */
    method FindFoundation(card: Option<Card>) returns (r: Result<Option<nat>>)
      requires Wf()
      ensures r == FoundationFor(Current(), card)
    {
      if card.None? {
        return Err("No card");
      }
      var suit := Suit(card.value);
      var L := Current();
      for i := 1 to NUM_SUITS + 1
        invariant SuitPile(L, suit, 0) == SuitPile(L, suit, i - 1)
      {
        if !piles[Fnd(i - 1)].IsEmpty() && suit == Suit(piles[Fnd(i - 1)].Top().value) {
          return Ok(Some(i - 1));
        }
      }
      for i := 1 to NUM_SUITS + 1
        invariant EmptyPile(L, 0) == EmptyPile(L, i - 1)
      {
        if piles[Fnd(i - 1)].IsEmpty() {
          return Ok(Some(i - 1));
        }
      }
      return Ok(None);
    }

    /** getScore(): five points per foundation card. */
    method Score() returns (n: int)
      requires Wf()
      ensures n == POINTS_PER_CARD * FoundationCards(Current())
    {
      FoundationsUpToAll(Current());
      n := 0;
      for f := 0 to NUM_SUITS
        invariant n == FoundationsUpTo(Current(), f)
      {
        n := n + piles[Fnd(f)].Size();
      }
      return n * POINTS_PER_CARD;
    }

    /** isWon(): the score of all 52 cards on the foundations. */
    method IsWon() returns (won: bool)
      requires Wf()
      ensures won <==> FoundationCards(Current()) == NUM_SUITS * NUM_RANKS
    {
      var score := Score();
      won := score == NUM_SUITS * NUM_RANKS * POINTS_PER_CARD;
    }

    /** The act of stockToWaste. */
    method ActStockToWaste() returns (d: Done)
      requires Wf()
      modifies piles
      ensures (Current(), d) == TurnStock(old(Current()))
    {
      var num := if piles[STOCK].Size() < 3 then piles[STOCK].Size() else 3;
      ghost var L := Current();
      if num == 0 {
        Transfer(STOCK, WASTE, piles[WASTE].Size());
        TurnOverPile(STOCK);
        ghost var mv := MoveTop(L[STOCK], L[WASTE], |L[WASTE]|);
        assert Current() == L[STOCK := Reverse(mv.0)][WASTE := mv.1];
      } else {
        for i := 0 to num
          invariant Current() == ShiftEach(old(Current()), WASTE, STOCK, i)
        {
          Transfer(WASTE, STOCK, 1);
        }
      }
      d := StockTurned(num);
    }

    /** The act shared by the moves to a foundation: the top card of pile
        src goes to the foundation pile findFoundation gives. */
    method ActToFoundation(src: nat) returns (r: Result<nat>)
      requires Wf() && src < PILES
      requires src == WASTE || src == RESERVE || exists t :: 0 <= t < TABLEAU_SIZE && src == Tab(t)
      modifies piles
      ensures Outcome(ToFoundation(old(Current()), base, src), old(Current()), Current(), r)
    {
      var card := piles[src].Top();
      var p := FindFoundation(card);
      if p.Err? {
        return Err(p.msg);
      }
      if p.value.None? {
        return Err("NullPointerException");
      }
      var f := p.value.value;
      var chk := CheckFoundationAdd(card, piles[Fnd(f)].Top(), base);
      if chk.Err? {
        return Err(chk.msg);
      }
      Transfer(Fnd(f), src, 1);
      r := Ok(f);
    }

    /** The act of tableauToFoundation(k). */
    method ActTableauToFoundation(k: int) returns (r: Result<Done>)
      requires Wf()
      modifies piles
      ensures Outcome(TableauToFoundationAct(old(Current()), base, k), old(Current()), Current(), r)
    {
      var t := TableauIndex(k);
      if t.Err? {
        return Err(t.msg);
      }
      if piles[Tab(t.value)].IsEmpty() {
        return Err("No cards in that pile");
      }
      var f := ActToFoundation(Tab(t.value));
      if f.Err? {
        return Err(f.msg);
      }
      var filled := FillFromReserve(Tab(t.value));
      r := Ok(TableauFounded(t.value, f.value, filled));
    }

    /** The act of tableauToTableau(k0, k1). */
    method ActTableauToTableau(k0: int, k1: int) returns (r: Result<Done>)
      requires Wf()
      modifies piles
      ensures Outcome(TableauToTableauAct(old(Current()), base, k0, k1), old(Current()), Current(), r)
    {
      var t0 := TableauIndex(k0);
      var t1 := TableauIndex(k1);
      if t0.Err? {
        return Err(t0.msg);
      }
      if t1.Err? {
        return Err(t1.msg);
      }
      if t0.value == t1.value {
        return Err("Can't move a pile onto itself");
      }
      var p0, p1 := Tab(t0.value), Tab(t1.value);
      if piles[p0].IsEmpty() {
        return Err("Can't move an empty pile");
      }
      var sizeT0 := piles[p0].Size();
      if !piles[p1].IsEmpty() {
        var chk := CheckTableauAdd(piles[p0].Bottom(), piles[p1].Top(), base);
        if chk.Err? {
          return Err(chk.msg);
        }
      }
      Transfer(p1, p0, sizeT0);
      var filled := FillFromReserve(p0);
      r := Ok(TableauMoved(t0.value, t1.value, sizeT0, filled));
    }

    /** The act of foundationToTableau(k, j). */
    method ActFoundationToTableau(k: int, j: int) returns (r: Result<Done>)
      requires Wf()
      modifies piles
      ensures Outcome(FoundationToTableauAct(old(Current()), base, k, j), old(Current()), Current(), r)
    {
      var f := FoundationIndex(k);
      var t := TableauIndex(j);
      if f.Err? {
        return Err(f.msg);
      }
      if t.Err? {
        return Err(t.msg);
      }
      var pf, pt := Fnd(f.value), Tab(t.value);
      if piles[pf].IsEmpty() {
        return Err("Cannot move from empty pile");
      } else if piles[pt].IsEmpty() {
        return Err("Cannot move card to empty tableau");
      }
      var chk := CheckTableauAdd(piles[pf].Top(), piles[pt].Top(), base);
      if chk.Err? {
        return Err(chk.msg);
      }
      Transfer(pt, pf, 1);
      r := Ok(FoundationTableaued(f.value, t.value));
    }

    /** The act of wasteToTableau(k). */
    method ActWasteToTableau(k: int) returns (r: Result<Done>)
      requires Wf()
      modifies piles
      ensures Outcome(WasteToTableauAct(old(Current()), base, k), old(Current()), Current(), r)
    {
      var t := TableauIndex(k);
      if t.Err? {
        return Err(t.msg);
      }
      var p := Tab(t.value);
      if !piles[RESERVE].IsEmpty() && piles[p].IsEmpty() {
        return Err("Still cards in reserve");
      }
      var chk := CheckTableauAdd(piles[WASTE].Top(), piles[p].Top(), base);
      if chk.Err? {
        return Err(chk.msg);
      }
      Transfer(p, WASTE, 1);
      r := Ok(WasteTableaued(t.value));
    }

    /** The act of reserveToTableau(k). */
    method ActReserveToTableau(k: int) returns (r: Result<Done>)
      requires Wf()
      modifies piles
      ensures Outcome(ReserveToTableauAct(old(Current()), base, k), old(Current()), Current(), r)
    {
      var t := TableauIndex(k);
      if t.Err? {
        return Err(t.msg);
      }
      var p := Tab(t.value);
      var chk := CheckTableauAdd(piles[RESERVE].Top(), piles[p].Top(), base);
      if chk.Err? {
        return Err(chk.msg);
      }
      Transfer(p, RESERVE, 1);
      r := Ok(ReserveTableaued(t.value));
    }

    /** The act of an action's move. */
    method Act(m: Move) returns (r: Result<Done>)
      requires Wf()
      modifies piles
      ensures Outcome(Forward(old(Current()), base, m), old(Current()), Current(), r)
    {
      match m
      case StockToWaste =>
        var d := ActStockToWaste();
        r := Ok(d);
      case WasteToFoundation =>
        var f := ActToFoundation(WASTE);
        r := if f.Err? then Err(f.msg) else Ok(WasteFounded(f.value));
      case ReserveToFoundation =>
        var f := ActToFoundation(RESERVE);
        r := if f.Err? then Err(f.msg) else Ok(ReserveFounded(f.value));
      case TableauToFoundation(k) => r := ActTableauToFoundation(k);
      case TableauToTableau(k0, k1) => r := ActTableauToTableau(k0, k1);
      case FoundationToTableau(k, j) => r := ActFoundationToTableau(k, j);
      case WasteToTableau(k) => r := ActWasteToTableau(k);
      case ReserveToTableau(k) => r := ActReserveToTableau(k);
    }

    /** The undo of an action, from what its act recorded. */
    method UndoDone(d: Done)
      requires Wf() && DoneOk(d)
      modifies piles
      ensures Current() == Revert(old(Current()), d)
    {
      match d
      case StockTurned(num) =>
        if num == 0 {
          Transfer(WASTE, STOCK, piles[STOCK].Size());
          TurnOverPile(WASTE);
        }
        ghost var L1 := Current();
        for i := 0 to num
          invariant Current() == ShiftEach(L1, STOCK, WASTE, i)
        {
          Transfer(STOCK, WASTE, 1);
        }
      case WasteFounded(f) => Transfer(WASTE, Fnd(f), 1);
      case ReserveFounded(f) => Transfer(RESERVE, Fnd(f), 1);
      case TableauFounded(t, f, filled) =>
        if filled {
          Transfer(RESERVE, Tab(t), 1);
        }
        Transfer(Tab(t), Fnd(f), 1);
      case TableauMoved(t0, t1, sizeT0, filled) =>
        if filled {
          Transfer(RESERVE, Tab(t0), 1);
        }
        Transfer(Tab(t0), Tab(t1), sizeT0);
      case FoundationTableaued(f, t) => Transfer(Fnd(f), Tab(t), 1);
      case WasteTableaued(t) => Transfer(WASTE, Tab(t), 1);
      case ReserveTableaued(t) => Transfer(RESERVE, Tab(t), 1);
    }

    /** apply(action): applies the action and then pushes it on the
        history. An action refused (already applied, or an illegal move)
        throws before the push. */
    method Apply(action: Action) returns (r: Result<()>)
      requires Valid() && action.Valid()
      modifies this`history, this`past, this`saves, action, piles
      ensures Valid() && (old(Chain()) ==> Chain())
      ensures old(action.applied) ==> r == Err("IllegalArgumentException") && Current() == old(Current())
      ensures !old(action.applied) ==> Acted(Forward(old(Current()), base, action.move), old(Current()), Current(), r)
      ensures r.Ok? ==> (history == old(history) + [action] && past == old(past) + [old(Current())]
                         && saves == old(saves) + [action.saved])
      ensures r.Err? ==> history == old(history) && past == old(past) && saves == old(saves)
    {
      ghost var before := Current();
      r := action.Apply(this);
      assert forall i :: 0 <= i < |history| ==> history[i].applied && history[i].saved == saves[i];
      if r.Err? {
        return;
      }
      ForwardRevert(before, base, action.move);
      Push(action, before);
    }

    /** history.push(action), for an action just applied to the layout
        before. */
    method Push(action: Action, ghost before: Layout)
      requires Valid() && action.applied && DoneOk(action.saved) && action !in history
      requires |before| == PILES && Revert(Current(), action.saved) == before
      modifies this`history, this`past, this`saves
      ensures Valid() && (Replays(old(past), old(saves), before) ==> Chain())
      ensures history == old(history) + [action] && past == old(past) + [before]
      ensures saves == old(saves) + [action.saved]
    {
      history := history + [action];
      past := past + [before];
      saves := saves + [action.saved];
      assert past[..|past| - 1] == old(past) && saves[..|saves| - 1] == old(saves);
    }

    /** undo(): "Nothing to undo!" when the history is empty; otherwise
        pops the newest action and inverse-applies it, which brings back
        the layout from before it. */
    method Undo() returns (r: Result<()>)
      requires Valid()
      modifies this`history, this`past, this`saves, piles, history
      ensures Valid() && (old(Chain()) ==> Chain())
      ensures old(history) == [] ==> r == Err("Nothing to undo!") && history == [] && Current() == old(Current())
      ensures old(history) != [] ==> (&& r == Ok(())
        && history == old(history)[..|old(history)| - 1] && past == old(past)[..|old(past)| - 1]
        && saves == old(saves)[..|old(saves)| - 1]
        && Current() == Revert(old(Current()), old(saves[|saves| - 1]))
        && !old(history)[|old(history)| - 1].applied)
      ensures old(history) != [] && old(Chain()) ==> Current() == old(past[|past| - 1])
    {
      if history == [] {
        return Err("Nothing to undo!");
      }
      var last := history[|history| - 1];
      history := history[..|history| - 1];
      past := past[..|past| - 1];
      saves := saves[..|saves| - 1];
      r := last.InverseApply(this);
      assert forall i :: 0 <= i < |history| ==> history[i] != last;
    }

    /** An action of one of the public moves, applied. */
    method Perform(m: Move) returns (r: Result<()>)
      requires Valid()
      modifies this`history, this`past, this`saves, piles
      ensures Valid() && (old(Chain()) ==> Chain())
      ensures Stepped(Forward(old(Current()), base, m), old(Current()), Current(), old(history), history, old(past), past, r)
      ensures r.Ok? ==> fresh(history[|history| - 1])
    {
      var a := new Action(m);
      r := Apply(a);
      assert r.Ok? ==> history[..|old(history)|] == old(history);
    }

    /** stockToWaste() */
    method StockToWaste() returns (r: Result<()>)
      requires Valid()
      modifies this`history, this`past, this`saves, piles
      ensures Valid() && (old(Chain()) ==> Chain())
      ensures Stepped(Forward(old(Current()), base, Move.StockToWaste), old(Current()), Current(),
                      old(history), history, old(past), past, r)
      ensures r.Ok? ==> fresh(history[|history| - 1])
    {
      r := Perform(Move.StockToWaste);
    }

    /** wasteToFoundation() */
    method WasteToFoundation() returns (r: Result<()>)
      requires Valid()
      modifies this`history, this`past, this`saves, piles
      ensures Valid() && (old(Chain()) ==> Chain())
      ensures Stepped(Forward(old(Current()), base, Move.WasteToFoundation), old(Current()), Current(),
                      old(history), history, old(past), past, r)
      ensures r.Ok? ==> fresh(history[|history| - 1])
    {
      r := Perform(Move.WasteToFoundation);
    }

    /** reserveToFoundation() */
    method ReserveToFoundation() returns (r: Result<()>)
      requires Valid()
      modifies this`history, this`past, this`saves, piles
      ensures Valid() && (old(Chain()) ==> Chain())
      ensures Stepped(Forward(old(Current()), base, Move.ReserveToFoundation), old(Current()), Current(),
                      old(history), history, old(past), past, r)
      ensures r.Ok? ==> fresh(history[|history| - 1])
    {
      r := Perform(Move.ReserveToFoundation);
    }

    /** tableauToFoundation(k) */
    method TableauToFoundation(k: int) returns (r: Result<()>)
      requires Valid()
      modifies this`history, this`past, this`saves, piles
      ensures Valid() && (old(Chain()) ==> Chain())
      ensures Stepped(Forward(old(Current()), base, Move.TableauToFoundation(k)), old(Current()), Current(),
                      old(history), history, old(past), past, r)
      ensures r.Ok? ==> fresh(history[|history| - 1])
    {
      r := Perform(Move.TableauToFoundation(k));
    }

    /** tableauToTableau(k0, k1) */
    method TableauToTableau(k0: int, k1: int) returns (r: Result<()>)
      requires Valid()
      modifies this`history, this`past, this`saves, piles
      ensures Valid() && (old(Chain()) ==> Chain())
      ensures Stepped(Forward(old(Current()), base, Move.TableauToTableau(k0, k1)), old(Current()), Current(),
                      old(history), history, old(past), past, r)
      ensures r.Ok? ==> fresh(history[|history| - 1])
    {
      r := Perform(Move.TableauToTableau(k0, k1));
    }

    /** foundationToTableau(k, j) */
    method FoundationToTableau(k: int, j: int) returns (r: Result<()>)
      requires Valid()
      modifies this`history, this`past, this`saves, piles
      ensures Valid() && (old(Chain()) ==> Chain())
      ensures Stepped(Forward(old(Current()), base, Move.FoundationToTableau(k, j)), old(Current()), Current(),
                      old(history), history, old(past), past, r)
      ensures r.Ok? ==> fresh(history[|history| - 1])
    {
      r := Perform(Move.FoundationToTableau(k, j));
    }

    /** wasteToTableau(k) */
    method WasteToTableau(k: int) returns (r: Result<()>)
      requires Valid()
      modifies this`history, this`past, this`saves, piles
      ensures Valid() && (old(Chain()) ==> Chain())
      ensures Stepped(Forward(old(Current()), base, Move.WasteToTableau(k)), old(Current()), Current(),
                      old(history), history, old(past), past, r)
      ensures r.Ok? ==> fresh(history[|history| - 1])
    {
      r := Perform(Move.WasteToTableau(k));
    }

    /** reserveToTableau(k) */
    method ReserveToTableau(k: int) returns (r: Result<()>)
      requires Valid()
      modifies this`history, this`past, this`saves, piles
      ensures Valid() && (old(Chain()) ==> Chain())
      ensures Stepped(Forward(old(Current()), base, Move.ReserveToTableau(k)), old(Current()), Current(),
                      old(history), history, old(past), past, r)
      ensures r.Ok? ==> fresh(history[|history| - 1])
    {
      r := Perform(Move.ReserveToTableau(k));
    }

    /** deal() on a shuffled deck (the shuffle itself, by the game's random
        source, is the caller's): clears the layout and deals a new one. As
        written, the history of the earlier game is left in place. */
    method Deal(shuffled: seq<Card>)
      requires Valid() && |shuffled| == NUM_SUITS * NUM_RANKS
      modifies this`base, piles
      ensures Valid() && history == old(history) && past == old(past) && saves == old(saves)
      ensures Current() == Dealt(shuffled) && base == Some(shuffled[38])
    {
      var deck := new Pile(shuffled);
      base := DealFrom(deck);
    }

    /** The dealing of deal(): the cards of deck onto my piles; the result
        is the new base card. */
    method DealFrom(deck: Pile) returns (b: Option<Card>)
      requires Wf() && |deck.cards| == NUM_SUITS * NUM_RANKS && deck !in piles
      modifies piles, deck
      ensures Current() == Dealt(old(deck.cards)) && b == Some(old(deck.cards)[38])
    {
      ghost var shuffled := deck.cards;
      b := DealReserve(deck);
      for t := 0 to TABLEAU_SIZE
        invariant deck.cards == shuffled[..38 - t]
        invariant forall k :: 0 <= k < t ==> piles[Tab(k)].cards == [shuffled[37 - k]]
        invariant piles[RESERVE].cards == shuffled[39..] && piles[Fnd(0)].cards == [shuffled[38]]
        invariant forall k :: 1 <= k < NUM_SUITS ==> piles[Fnd(k)].cards == []
      {
        piles[Tab(t)].Clear();
        piles[Tab(t)].Move(deck, 1);
        assert piles[Tab(t)].cards == [shuffled[37 - t]] && deck.cards == shuffled[..37 - t];
      }
      assert deck.cards == shuffled[..34];
      piles[STOCK].Clear();
      piles[STOCK].MoveAll(deck);
      assert piles[STOCK].cards == shuffled[..34];
      piles[WASTE].Clear();
      ghost var L := Dealt(shuffled);
      forall i | 0 <= i < PILES
        ensures piles[i].cards == L[i]
      {
        if Tab(0) <= i < Fnd(0) {
          assert i == Tab(i - Tab(0));
        } else if Fnd(0) <= i {
          assert i == Fnd(i - Fnd(0));
        }
      }
    }

    /** The first part of deal(): the top 13 cards of deck to the reserve,
        the foundations cleared and the next card to the first of them. */
    method DealReserve(deck: Pile) returns (b: Option<Card>)
      requires Wf() && |deck.cards| == NUM_SUITS * NUM_RANKS && deck !in piles
      modifies piles, deck
      ensures piles[RESERVE].cards == old(deck.cards)[39..] && deck.cards == old(deck.cards)[..38]
      ensures piles[Fnd(0)].cards == [old(deck.cards)[38]] && b == Some(old(deck.cards)[38])
      ensures forall k :: 1 <= k < NUM_SUITS ==> piles[Fnd(k)].cards == []
    {
      ghost var shuffled := deck.cards;
      piles[RESERVE].Clear();
      piles[RESERVE].Move(deck, RESERVE_SIZE);
      assert deck.cards == shuffled[..39] && piles[RESERVE].cards == shuffled[39..];
      for f := 0 to NUM_SUITS
        invariant forall k :: 0 <= k < f ==> piles[Fnd(k)].cards == []
        invariant piles[RESERVE].cards == shuffled[39..] && deck.cards == shuffled[..39]
      {
        piles[Fnd(f)].Clear();
      }
      piles[Fnd(0)].Move(deck, 1);
      assert piles[Fnd(0)].cards == [shuffled[38]] && deck.cards == shuffled[..38];
      b := piles[Fnd(0)].Top();
    }

    /** deal() as evidently intended: a new game also starts a new history,
        so that there is nothing to undo. */
    method DealAfresh(shuffled: seq<Card>)
      requires Valid() && |shuffled| == NUM_SUITS * NUM_RANKS
      modifies this`base, this`history, this`past, this`saves, piles
      ensures Valid() && Chain() && history == []
      ensures Current() == Dealt(shuffled) && base == Some(shuffled[38])
    {
      Deal(shuffled);
      history := [];
      past := [];
      saves := [];
    }
  }

  /** Undoing the recorded steps newest first, starting from cur, passes
      back through the layouts of past. */
  ghost predicate Replays(past: seq<Layout>, saves: seq<Done>, cur: Layout)
    requires |past| == |saves| && |cur| == PILES
    requires forall i :: 0 <= i < |saves| ==> DoneOk(saves[i]) && |past[i]| == PILES
  {
    if saves == [] then true
    else
      var n := |saves| - 1;
      Revert(cur, saves[n]) == past[n] && Replays(past[..n], saves[..n], past[n])
  }

  /** What an act did: a legal move changes the layout as the rules say;
      an illegal one throws the rules' message and changes nothing. */
  predicate Acted(e: Result<(Layout, Done)>, before: Layout, after: Layout, r: Result<()>)
  {
    if e.Ok? then r == Ok(()) && after == e.value.0 else r == Err(e.msg) && after == before
  }

  /** What a public move of the game did: the act, and on success one
      action pushed on the history. */
  ghost predicate Stepped(e: Result<(Layout, Done)>, before: Layout, after: Layout,
                          h0: seq<Action>, h1: seq<Action>, p0: seq<Layout>, p1: seq<Layout>, r: Result<()>)
  {
    && Acted(e, before, after, r)
    && (if r.Ok? then |h1| == |h0| + 1 && h1[..|h0|] == h0 && p1 == p0 + [before] else h1 == h0 && p1 == p0)
  }

  /** Undoing right after a fresh deal finds nothing to undo. */
  method DealThenUndo(g: Game, shuffled: seq<Card>) returns (r: Result<()>)
    requires g.Valid() && |shuffled| == NUM_SUITS * NUM_RANKS
    modifies g, g.piles, g.history
    ensures r == Err("Nothing to undo!") && g.Current() == Dealt(shuffled)
  {
    g.DealAfresh(shuffled);
    r := g.Undo();
  }

  /** A legal move followed by undo restores the layout and the history. */
  method MoveThenUndo(g: Game, m: Move) returns (r1: Result<()>, r2: Result<()>)
    requires g.Valid() && g.Chain()
    modifies g, g.piles, g.history
    ensures r1.Ok? ==> r2 == Ok(())
    ensures g.Current() == old(g.Current()) && g.history == old(g.history)
  {
    r1 := g.Perform(m);
    if r1.Ok? {
      r2 := g.Undo();
    } else {
      r2 := r1;
    }
  }
}
