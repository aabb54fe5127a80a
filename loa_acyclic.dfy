/** The acyclic machine player of Lines of Action: it remembers its last
    ten moves and avoids a best move that would repeat the block of moves
    just played. The scoring of candidate moves belongs to the machine
    player and is a parameter here: the candidates arrive in ascending
    order of score. */
module LoaAcyclic {
  import opened LoaMoves

  /** SEARCH_HISTORY_DEPTH */
  const SEARCH_HISTORY_DEPTH: nat := 10

  /** The first loop of cyclicMove: from index e down, the first index
      holding v, or the first index below 0. */
  function ScanBack(h: seq<Move>, v: Move, e: int): (r: int)
    requires e < |h|
    ensures r <= e
    decreases e + 1
  {
    if e < 0 then e else if h[e] == v then e else ScanBack(h, v, e - 1)
  }

  /** The index the loop stops at is the last one up to e holding v, or
      there is none and it is below 0. */
  lemma {:induction false} ScanBackMeaning(h: seq<Move>, v: Move, e: int)
    requires e < |h|
    ensures var r := ScanBack(h, v, e);
            && (r >= 0 ==> h[r] == v)
            && (r < 0 ==> r == (if e < 0 then e else -1))
            && forall j :: r < j <= e && 0 <= j ==> h[j] != v
  {
    if e >= 0 && h[e] != v {
      ScanBackMeaning(h, v, e - 1);
    }
  }

  /** Where the cycle of v would end: the last occurrence of v before the
      last move, -1 when there is none, and -2 for an empty history. */
  function EndCycle(h: seq<Move>, v: Move): int
  {
    ScanBack(h, v, |h| - 2)
  }

  /** cyclicMove(value): false unless the end e of the cycle is in the
      later half of the history; then whether every move h[e - i] before it
      (i = 1, 2, ... while i < |h| - e and e - i >= 0) matches the move
      h[|h| - i] as far back from the end, written here with j = e - i. */
  predicate Cyclic(h: seq<Move>, v: Move)
  {
    var e := EndCycle(h, v);
    e >= |h| / 2 && forall j :: 0 <= j < e && 2 * e - |h| < j ==> h[j] == h[j + |h| - e]
  }

  /** When v is cyclic, playing it ends a block of moves that repeats the
      block of the same length just before it. */
  lemma CyclicRepeats(h: seq<Move>, v: Move)
    requires Cyclic(h, v)
    ensures var w := h + [v];
            var len := |h| - EndCycle(h, v);
            && 1 <= len && 2 * len <= |w|
            && w[|w| - 2 * len..|w| - len] == w[|w| - len..]
  {
    var e := EndCycle(h, v);
    ScanBackMeaning(h, v, |h| - 2);
    var w := h + [v];
    var len := |h| - e;
    var n := |w|;
    assert 0 <= e && h[e] == v;
    forall j | n - 2 * len <= j < n - len
      ensures w[j] == w[j + len]
    {
      if j < e {
        assert h[j] == h[j + |h| - e];
      }
    }
    assert w[n - 2 * len..n - len] == w[n - len..];
  }

  /** And back: when such a repetition ends at the cycle's end, in the
      later half of the history, v is cyclic. */
  lemma RepeatsCyclic(h: seq<Move>, v: Move)
    requires EndCycle(h, v) >= |h| / 2
    requires var w := h + [v];
             var len := |h| - EndCycle(h, v);
             2 * len <= |w| && w[|w| - 2 * len..|w| - len] == w[|w| - len..]
    ensures Cyclic(h, v)
  {
    var e := EndCycle(h, v);
    var w := h + [v];
    var len := |h| - e;
    var n := |w|;
    forall j | 0 <= j < e && 2 * e - |h| < j
      ensures h[j] == h[j + |h| - e]
    {
      var k := j - (n - 2 * len);
      assert w[n - 2 * len..n - len][k] == w[j] == h[j];
      assert w[n - len..][k] == w[j + len] == h[j + len];
    }
  }

  /** The cases of the unit test, for four different moves a, b, c, d:
      the odd ones are cycles and the even ones are not. */
  lemma CyclicCases(a: Move, b: Move, c: Move, d: Move)
    requires a != b && a != c && a != d && b != c && b != d && c != d
    ensures !Cyclic([], a)
    ensures Cyclic([a, b, a], b)
    ensures !Cyclic([a, b, a], c)
    ensures Cyclic([a, b, d, a, b], d)
    ensures !Cyclic([a, b, d, a, b], b)
    ensures Cyclic([a, a, a, a, a], a)
    ensures !Cyclic([a, b, d, a], b)
  {
    var h1, h3, h5, h6 := [a, b, a], [a, b, d, a, b], [a, a, a, a, a], [a, b, d, a];
    assert EndCycle(h1, b) == 1;
    assert ScanBack(h1, c, 0) == -1;
    assert ScanBack(h3, d, 2) == 2;
    assert ScanBack(h3, b, 2) == ScanBack(h3, b, 1) == 1;
    assert EndCycle(h5, a) == 3;
    assert ScanBack(h6, b, 1) == 1;
  }

  /** The move act plays: the best candidate, or the second best when the
      best is cyclic and there is another. */
  function Choose(h: seq<Move>, candidates: seq<Move>): (m: Move)
    requires |candidates| >= 1
    ensures m in candidates
    ensures Cyclic(h, candidates[|candidates| - 1]) && |candidates| > 1 ==> m == candidates[|candidates| - 2]
    ensures !(Cyclic(h, candidates[|candidates| - 1]) && |candidates| > 1) ==> m == candidates[|candidates| - 1]
  {
    var best := candidates[|candidates| - 1];
    if Cyclic(h, best) && |candidates| > 1 then candidates[|candidates| - 2] else best
  }

  /** history.add(m), then the oldest move dropped when there are more than
      SEARCH_HISTORY_DEPTH. */
  function Remember(h: seq<Move>, m: Move): seq<Move>
  {
    var h' := h + [m];
    if |h'| > SEARCH_HISTORY_DEPTH then h'[1..] else h'
  }

  /** A history of at most SEARCH_HISTORY_DEPTH moves keeps its length
      bound, ends with the move played, and is the last moves played. */
  lemma RememberMeaning(h: seq<Move>, m: Move)
    requires |h| <= SEARCH_HISTORY_DEPTH
    ensures var h' := Remember(h, m);
            && |h'| <= SEARCH_HISTORY_DEPTH && |h'| == (if |h| < SEARCH_HISTORY_DEPTH then |h| + 1 else |h|)
            && h'[|h'| - 1] == m
            && h' == (h + [m])[|h| + 1 - |h'|..]
  {
  }

  /** The while loop of cyclicMove: from the next-to-last move back, the
      first index holding v, or -1 (-2 for an empty history). */
  method FindEndCycle(quickHist: seq<Move>, value: Move) returns (endCycle: int)
    ensures endCycle == EndCycle(quickHist, value)
  {
    endCycle := |quickHist| - 2;
    while endCycle >= 0 && !MoveEquals(quickHist[endCycle], value)
      invariant endCycle < |quickHist|
      invariant ScanBack(quickHist, value, endCycle) == EndCycle(quickHist, value)
      decreases endCycle + 1
    {
      endCycle := endCycle - 1;
    }
    MoveEqualsIff(if endCycle >= 0 then quickHist[endCycle] else value, value);
  }

  /** The for loop of cyclicMove: whether each move h[e - i] before the end
      e of the cycle, back to the start of the history or as many moves as
      follow e, equals the move h[|h| - i] as far back from the end. */
  method MatchesBack(quickHist: seq<Move>, endCycle: int) returns (b: bool)
    requires 0 <= endCycle < |quickHist|
    ensures b <==> forall j :: 0 <= j < endCycle && 2 * endCycle - |quickHist| < j ==>
                     quickHist[j] == quickHist[j + |quickHist| - endCycle]
  {
    var i := 1;
    while i < |quickHist| - endCycle && endCycle - i >= 0
      invariant 1 <= i <= |quickHist| - endCycle
      invariant forall j :: 0 <= j && endCycle - i < j < endCycle && 2 * endCycle - |quickHist| < j ==>
                  quickHist[j] == quickHist[j + |quickHist| - endCycle]
    {
      MoveEqualsIff(quickHist[endCycle - i], quickHist[|quickHist| - i]);
      if !MoveEquals(quickHist[endCycle - i], quickHist[|quickHist| - i]) {
        return false;
      }
      i := i + 1;
    }
    return true;
  }

  class AcyclicPlayer {
    /** The moves played, the oldest first. */
    var history: seq<Move>

    ghost predicate Valid()
      reads this
    {
      |history| <= SEARCH_HISTORY_DEPTH
    }

    constructor ()
      ensures Valid() && history == []
    {
      history := [];
    }

    /** cyclicMove(value): the scan back for the end of the cycle, then the
        comparison of the moves before it with those at the end. */
    method CyclicMove(value: Move) returns (b: bool)
      ensures b == Cyclic(history, value)
    {
      var quickHist := history;
      var endCycle := FindEndCycle(quickHist, value);
      if endCycle < |quickHist| / 2 {
        return false;
      }
      b := MatchesBack(quickHist, endCycle);
    }

    /** act(input), with the candidates the machine player suggests in
        ascending order of score: the best that is not cyclic, or the
        second best, remembered in the history. */
    method Act(candidates: seq<Move>) returns (finalMove: Move)
      requires Valid() && |candidates| >= 1
      modifies this
      ensures Valid()
      ensures finalMove == Choose(old(history), candidates)
      ensures history == Remember(old(history), finalMove)
    {
      var best := candidates[|candidates| - 1];
      var cyclic := CyclicMove(best);
      if cyclic && |candidates| > 1 {
        finalMove := candidates[|candidates| - 2];
      } else {
        finalMove := best;
      }
      history := history + [finalMove];
      if |history| > SEARCH_HISTORY_DEPTH {
        history := history[1..];
      }
    }
  }
}
