/** The Lines of Action board: an 8x8 array of pieces and the number of
    each piece on it; the lines of action, blocking, the possible moves of
    a piece, performing a move, and the depth-first count of a group of
    touching pieces. */
module LoaBoards {
  import opened Common
  import opened LoaPieces
  import opened LoaMoves
  import opened LoaBitMatrices

  /** The number of cells of a row holding p. */
  function RowTally(row: seq<Piece>, p: Piece): nat
  {
    if row == [] then 0
    else RowTally(row[..|row| - 1], p) + (if row[|row| - 1] == p then 1 else 0)
  }

  /** The number of cells of the rows of g holding p. */
  function Tally(g: seq<seq<Piece>>, p: Piece): nat
  {
    if g == [] then 0
    else Tally(g[..|g| - 1], p) + RowTally(g[|g| - 1], p)
  }

  /** Every cell holds one of the three pieces. */
  lemma {:induction false} RowTallyTotal(row: seq<Piece>)
    ensures RowTally(row, BP) + RowTally(row, WP) + RowTally(row, EMP) == |row|
  {
    if row != [] {
      RowTallyTotal(row[..|row| - 1]);
    }
  }

  /** The three counts of a board add up to its 64 cells. */
  lemma {:induction false} TallyTotal(g: seq<seq<Piece>>, width: nat)
    requires forall i :: 0 <= i < |g| ==> |g[i]| == width
    ensures Tally(g, BP) + Tally(g, WP) + Tally(g, EMP) == |g| * width
  {
    if g != [] {
      var n := |g| - 1;
      assert forall i :: 0 <= i < n ==> g[..n][i] == g[i];
      TallyTotal(g[..n], width);
      RowTallyTotal(g[n]);
      MulSucc(n, width);
    }
  }

  lemma MulSucc(n: nat, width: nat)
    ensures (n + 1) * width == n * width + width
  {
  }

  /** Changing cell j of a row changes its counts by the pieces taken out
      and put in. */
  lemma {:induction false} RowTallyUpdate(row: seq<Piece>, j: nat, q: Piece, p: Piece)
    requires j < |row|
    ensures RowTally(row[j := q], p) + (if row[j] == p then 1 else 0) == RowTally(row, p) + (if q == p then 1 else 0)
  {
    var n := |row| - 1;
    if j < n {
      assert row[j := q][..n] == row[..n][j := q];
      RowTallyUpdate(row[..n], j, q, p);
    } else {
      assert row[j := q][..n] == row[..n];
    }
  }

  /** Changing cell (i, j) of a grid changes its counts likewise. */
  lemma {:induction false} TallyUpdate(g: seq<seq<Piece>>, i: nat, j: nat, q: Piece, p: Piece)
    requires i < |g| && j < |g[i]|
    ensures Tally(g[i := g[i][j := q]], p) + (if g[i][j] == p then 1 else 0) == Tally(g, p) + (if q == p then 1 else 0)
  {
    var n := |g| - 1;
    var g' := g[i := g[i][j := q]];
    if i < n {
      assert g'[..n] == g[..n][i := g[i][j := q]];
      TallyUpdate(g[..n], i, j, q, p);
    } else {
      assert g'[..n] == g[..n];
      RowTallyUpdate(g[i], j, q, p);
    }
  }

  /** A prefix one longer counts the next cell once more. */
  lemma RowTallyStep(row: seq<Piece>, j: nat, p: Piece)
    requires j < |row|
    ensures RowTally(row[..j + 1], p) == RowTally(row[..j], p) + (if row[j] == p then 1 else 0)
  {
    assert row[..j + 1][..j] == row[..j];
  }

  /** A prefix of rows one longer counts the next row once more. */
  lemma TallyStep(g: seq<seq<Piece>>, i: nat, p: Piece)
    requires i < |g|
    ensures Tally(g[..i + 1], p) == Tally(g[..i], p) + RowTally(g[i], p)
  {
    assert g[..i + 1][..i] == g[..i];
  }

  /** The board's contents with piece p put at (row, col). */
  function Put(g: Grid, row: int, col: int, p: Piece): (g': Grid)
    requires IsGrid(g) && InBounds(col, row)
    ensures IsGrid(g') && At(g', row, col) == p
    ensures forall r, c :: InBounds(c, r) && (r, c) != (row, col) ==> At(g', r, c) == At(g, r, c)
  {
    g[row - 1 := g[row - 1][col - 1 := p]]
  }

  /** Grids with the same cells are equal. */
  lemma GridEquality(g: Grid, h: Grid)
    requires IsGrid(g) && IsGrid(h)
    requires forall i, j :: 0 <= i < SIZE && 0 <= j < SIZE ==> g[i][j] == h[i][j]
    ensures g == h
  {
    forall i | 0 <= i < SIZE
      ensures g[i] == h[i]
    {
    }
  }

  /** The opposite direction. */
  function Opposite(d: Direction): (o: Direction)
    ensures DR(o) == -DR(d) && DC(o) == -DC(d)
  {
    match d
    case N => S
    case NE => SW
    case E => W
    case SE => NW
    case S => N
    case SW => NE
    case W => E
    case NW => SE
  }

  function Clamp(x: int): nat { if x < 0 then 0 else x }

  /** An upper bound on the squares left on the board from (r, c) in
      direction d. */
  function Measure(r: int, c: int, d: Direction): nat
  {
    if DR(d) == 1 then Clamp(SIZE + 1 - r)
    else if DR(d) == -1 then Clamp(r)
    else if DC(d) == 1 then Clamp(SIZE + 1 - c)
    else Clamp(c)
  }

  /** The number of pieces from (r, c) on, in direction d, to the edge of
      the board. */
  function Ray(g: Grid, r: int, c: int, d: Direction): nat
    requires IsGrid(g)
    decreases Measure(r, c, d)
  {
    if !InBounds(c, r) then 0
    else (if At(g, r, c) != EMP then 1 else 0) + Ray(g, r + DR(d), c + DC(d), d)
  }

  /** What lineOfAction computes: the pieces of the ray in direction d
      and of the ray in the opposite direction, less one, since both rays
      start at (row, col). */
  function LineCount(g: Grid, row: int, col: int, d: Direction): int
    requires IsGrid(g)
  {
    Ray(g, row, col, d) + Ray(g, row, col, Opposite(d)) - 1
  }

  /** The pieces on the line through (row, col) in direction d, each
      counted once: those ahead, those behind, and the one on the square. */
  function PiecesOnLine(g: Grid, row: int, col: int, d: Direction): nat
    requires IsGrid(g) && InBounds(col, row)
  {
    Ray(g, row + DR(d), col + DC(d), d) + Ray(g, row - DR(d), col - DC(d), Opposite(d)) + (if At(g, row, col) != EMP then 1 else 0)
  }

  /** From a piece, lineOfAction is the number of pieces on its line, at
      least one; from an empty square, one less. The line is the same both
      ways. */
  lemma LineCountIsPieces(g: Grid, row: int, col: int, d: Direction)
    requires IsGrid(g) && InBounds(col, row)
    ensures At(g, row, col) != EMP ==> LineCount(g, row, col, d) == PiecesOnLine(g, row, col, d) >= 1
    ensures At(g, row, col) == EMP ==> LineCount(g, row, col, d) == PiecesOnLine(g, row, col, d) - 1
    ensures PiecesOnLine(g, row, col, d) == PiecesOnLine(g, row, col, Opposite(d))
    ensures LineCount(g, row, col, d) == LineCount(g, row, col, Opposite(d))
  {
    assert Opposite(Opposite(d)) == d;
  }

  /** A square that stops a move along its path: off the board, or holding
      a piece of the other side. */
  predicate Obstructs(g: Grid, start: Piece, r: int, c: int)
    requires IsGrid(g)
  {
    !InBounds(c, r) || (At(g, r, c) != start && At(g, r, c) != EMP)
  }

  /** Some square of the n squares from (r, c) on in direction d
      obstructs a move of start. */
  predicate PathObstructed(g: Grid, start: Piece, r: int, c: int, d: Direction, n: nat)
    requires IsGrid(g)
    decreases n
  {
    n > 0 && (Obstructs(g, start, r, c) || PathObstructed(g, start, r + DR(d), c + DC(d), d, n - 1))
  }

  /** What blocked computes: a move of len steps from (row, col) in
      direction d passes an obstructing square before its last step, or
      lands off the board or on a piece of its own side. A negative len
      takes no step. */
  predicate IsBlocked(g: Grid, row: int, col: int, d: Direction, len: int)
    requires IsGrid(g) && InBounds(col, row)
  {
    var n := Clamp(len);
    || PathObstructed(g, At(g, row, col), row, col, d, n)
    || !InBounds(col + n * DC(d), row + n * DR(d))
    || At(g, row + n * DR(d), col + n * DC(d)) == At(g, row, col)
  }

  /** An unblocked line of action from a piece ends on the board, on a
      square not holding a piece of its own side, at least one step away. */
  lemma UnblockedLands(g: Grid, row: int, col: int, d: Direction)
    requires IsGrid(g) && InBounds(col, row) && At(g, row, col) != EMP
    requires !IsBlocked(g, row, col, d, LineCount(g, row, col, d))
    ensures var len := LineCount(g, row, col, d);
            && len >= 1 && InBounds(col + len * DC(d), row + len * DR(d))
            && At(g, row + len * DR(d), col + len * DC(d)) != At(g, row, col)
  {
    LineCountIsPieces(g, row, col, d);
  }

  /** The move of an unblocked line of action. */
  function LineMove(g: Grid, row: int, col: int, d: Direction): (m: Move)
    requires IsGrid(g) && InBounds(col, row) && At(g, row, col) != EMP
    requires !IsBlocked(g, row, col, d, LineCount(g, row, col, d))
    ensures var len := LineCount(g, row, col, d);
            && Ok(Some(m)) == CreateStep(col, row, len, d, g)
            && m == Play(col, row, col + len * DC(d), row + len * DR(d), At(g, row, col), At(g, row + len * DR(d), col + len * DC(d)))
            && Length(m) == len
  {
    var len := LineCount(g, row, col, d);
    UnblockedLands(g, row, col, d);
    CreateStepLength(col, row, len, d, g);
    CreateStep(col, row, len, d, g).value.value
  }

  /** lineOfAction(row, col, dir) on a board whose contents are g: the
      loop forward and the loop back, each counting the pieces from the
      start to the edge, from -1. The loops pass the row to inBounds where
      the column belongs, which on a square board changes nothing. */
  method LineOfAction(g: Grid, row: int, col: int, d: Direction) returns (count: int)
    requires IsGrid(g)
    ensures count == LineCount(g, row, col, d)
  {
    count := -1;
    count := CountAlong(g, row, col, d, count);
    count := CountAlong(g, row, col, Opposite(d), count);
  }

  /** One loop of lineOfAction: from (row, col) to the edge in direction
      d, one more for each square holding a piece. */
  method CountAlong(g: Grid, row: int, col: int, d: Direction, count0: int) returns (count: int)
    requires IsGrid(g)
    ensures count == count0 + Ray(g, row, col, d)
  {
    count := count0;
    var r0, c0 := row, col;
    while InBounds(r0, c0)
      invariant count + Ray(g, r0, c0, d) == count0 + Ray(g, row, col, d)
      decreases Measure(r0, c0, d)
    {
      RayStep(g, r0, c0, d);
      if At(g, r0, c0) != EMP {
        count := count + 1;
      }
      r0, c0 := r0 + DR(d), c0 + DC(d);
    }
  }

  /** One square of a ray: its piece, if any, and the ray from the next
      square, which is nearer the edge. */
  lemma RayStep(g: Grid, r: int, c: int, d: Direction)
    requires IsGrid(g) && InBounds(r, c)
    ensures Ray(g, r, c, d) == (if At(g, r, c) != EMP then 1 else 0) + Ray(g, r + DR(d), c + DC(d), d)
    ensures Measure(r + DR(d), c + DC(d), d) < Measure(r, c, d)
  {
  }

  /** blocked(row, col, dir, len) on a board whose contents are g: the
      loop over the squares of the path, then the landing square. */
  method Blocked(g: Grid, row: int, col: int, d: Direction, len: int) returns (b: bool)
    requires IsGrid(g) && InBounds(col, row)
    ensures b == IsBlocked(g, row, col, d, len)
  {
    var start := At(g, row, col);
    var obstructed, r, c := ScanPath(g, start, row, col, d, len);
    if obstructed {
      return true;
    }
    if !InBounds(c, r) {
      return true;
    }
    b := At(g, r, c) == start;
  }

  /** The loop of blocked: whether a square of the first len squares of
      the path obstructs, and the landing square when none does. */
  method ScanPath(g: Grid, start: Piece, row: int, col: int, d: Direction, len: int) returns (obstructed: bool, r: int, c: int)
    requires IsGrid(g)
    ensures obstructed == PathObstructed(g, start, row, col, d, Clamp(len))
    ensures !obstructed ==> r == row + Clamp(len) * DR(d) && c == col + Clamp(len) * DC(d)
  {
    ghost var n := Clamp(len);
    r, c := row, col;
    var i := 0;
    while i < len
      invariant 0 <= i <= n
      invariant r == row + i * DR(d) && c == col + i * DC(d)
      invariant PathObstructed(g, start, row, col, d, n) == PathObstructed(g, start, r, c, d, n - i)
    {
      if !InBounds(c, r) {
        return true, r, c;
      } else if At(g, r, c) != start && At(g, r, c) != EMP {
        return true, r, c;
      }
      assert (i + 1) * DR(d) == i * DR(d) + DR(d) && (i + 1) * DC(d) == i * DC(d) + DC(d);
      i, r, c := i + 1, r + DR(d), c + DC(d);
    }
    obstructed := false;
  }

  /** The moves of possibleMoves from a piece, for the directions ds in
      turn: one per direction whose line of action is not blocked. */
  function MovesIn(g: Grid, row: int, col: int, ds: seq<Direction>): (ms: seq<Move>)
    requires IsGrid(g) && InBounds(col, row) && At(g, row, col) != EMP
  {
    if ds == [] then [] else DirectionMoves(g, row, col, ds[0]) + MovesIn(g, row, col, ds[1..])
  }

  /** The move along the line of action in direction d, unless it is
      blocked. */
  function DirectionMoves(g: Grid, row: int, col: int, d: Direction): (ms: seq<Move>)
    requires IsGrid(g) && InBounds(col, row) && At(g, row, col) != EMP
  {
    if !IsBlocked(g, row, col, d, LineCount(g, row, col, d)) then [LineMove(g, row, col, d)] else []
  }

  /** What possibleMoves computes: nothing from an empty square, otherwise
      the unblocked moves in the order of the directions. */
  function Moves(g: Grid, row: int, col: int): seq<Move>
    requires IsGrid(g) && InBounds(col, row)
  {
    if At(g, row, col) == EMP then [] else MovesIn(g, row, col, DIRECTIONS)
  }

  /** The loop of possibleMoves over the directions ds, on a board whose
      contents are g. */
  method PossibleMovesIn(g: Grid, row: int, col: int, ds: seq<Direction>) returns (moves: seq<Move>)
    requires IsGrid(g) && InBounds(col, row) && At(g, row, col) != EMP
    ensures moves == MovesIn(g, row, col, ds)
  {
    moves := [];
    for i := 0 to |ds|
      invariant moves + MovesIn(g, row, col, ds[i..]) == MovesIn(g, row, col, ds)
    {
      var m := MovesAlong(g, row, col, ds[i]);
      MovesInStep(g, row, col, ds, i, moves, m);
      moves := moves + m;
    }
  }

  /** One pass of possibleMoves's loop: the move of the line of action in
      direction d, unless it is blocked. */
  method MovesAlong(g: Grid, row: int, col: int, d: Direction) returns (ms: seq<Move>)
    requires IsGrid(g) && InBounds(col, row) && At(g, row, col) != EMP
    ensures ms == DirectionMoves(g, row, col, d)
  {
    var len := LineOfAction(g, row, col, d);
    var blocked := Blocked(g, row, col, d, len);
    ms := [];
    if !blocked {
      var m := CreateStep(col, row, len, d, g);
      assert m == Ok(Some(LineMove(g, row, col, d)));
      ms := [m.value.value];
    }
  }

  /** The possible moves move the piece on the square, along a line of
      action of some direction, onto the board and onto no piece of its
      own side; every unblocked direction gives one, and an empty square
      gives none. */
  lemma MovesMeaning(g: Grid, row: int, col: int)
    requires IsGrid(g) && InBounds(col, row)
    ensures At(g, row, col) == EMP ==> Moves(g, row, col) == []
    ensures forall m :: m in Moves(g, row, col) ==>
              && m.Play? && m.col0 == col && m.row0 == row && m.moved == At(g, row, col) != EMP
              && InBounds(m.col1, m.row1) && m.replaced == At(g, m.row1, m.col1) != m.moved
    ensures At(g, row, col) != EMP ==>
              forall d :: !IsBlocked(g, row, col, d, LineCount(g, row, col, d)) ==> LineMove(g, row, col, d) in Moves(g, row, col)
    ensures |Moves(g, row, col)| <= 8
  {
    if At(g, row, col) != EMP {
      MovesInMeaning(g, row, col, DIRECTIONS);
      forall d | !IsBlocked(g, row, col, d, LineCount(g, row, col, d))
        ensures LineMove(g, row, col, d) in Moves(g, row, col)
      {
        DirectionsAll(d);
      }
    }
  }

  /** The moves for directions ds are moves of the table from the square,
      of its piece, onto the board and onto no piece of its side; at most
      one per direction, and one for each unblocked direction. */
  lemma {:induction false} MovesInMeaning(g: Grid, row: int, col: int, ds: seq<Direction>)
    requires IsGrid(g) && InBounds(col, row) && At(g, row, col) != EMP
    ensures var ms := MovesIn(g, row, col, ds);
            && |ms| <= |ds|
            && (forall m :: m in ms ==> && m.Play? && m.col0 == col && m.row0 == row && m.moved == At(g, row, col)
                                        && InBounds(m.col1, m.row1) && m.replaced == At(g, m.row1, m.col1) != m.moved
                                        && TableEntry(Key(col, row, m.col1, m.row1, m.moved, m.replaced)) == Some(m))
            && (forall d :: d in ds && !IsBlocked(g, row, col, d, LineCount(g, row, col, d)) ==> LineMove(g, row, col, d) in ms)
  {
    if ds != [] {
      MovesInMeaning(g, row, col, ds[1..]);
      var d := ds[0];
      if !IsBlocked(g, row, col, d, LineCount(g, row, col, d)) {
        var m := LineMove(g, row, col, d);
        assert TableEntry(Key(col, row, m.col1, m.row1, m.moved, m.replaced)) == Some(m);
      }
    }
  }

  /** In the initial position the piece on b1 has exactly the moves b1-b3,
      b1-d3 and b1-h1, and the piece on a2 exactly a2-a8, a2-c4 and
      a2-c2. */
  /** The initial position, square by square. */
  function InitialAt(r: int, c: int): Piece
  {
    if r == 1 || r == SIZE then (if c == 1 || c == SIZE then EMP else BP)
    else if c == 1 || c == SIZE then WP else EMP
  }

  lemma InitialPiecesAt(r: int, c: int)
    requires InBounds(c, r)
    ensures At(InitialPieces(), r, c) == InitialAt(r, c)
  {
    var edge := [EMP, BP, BP, BP, BP, BP, BP, EMP];
    var side := [WP, EMP, EMP, EMP, EMP, EMP, EMP, WP];
    assert InitialPieces()[r - 1] == if r == 1 || r == SIZE then edge else side;
  }

  /** g is the initial position. */
  ghost predicate IsInitial(g: Grid)
  {
    IsGrid(g) && forall r, c :: InBounds(c, r) ==> At(g, r, c) == InitialAt(r, c)
  }

  lemma InitialIsInitial()
    ensures IsInitial(InitialPieces())
  {
    forall r, c | InBounds(c, r)
      ensures At(InitialPieces(), r, c) == InitialAt(r, c)
    {
      InitialPiecesAt(r, c);
    }
  }

  /** From b1 in the initial position the lines of action to the south
      and west are all blocked. */
  lemma InitialB1Blocked(g: Grid)
    requires IsInitial(g)
    ensures MovesIn(g, 1, 2, [SE, S, SW, W, NW]) == []
  {
    InitialB1SE(g);
    InitialB1S(g);
    InitialB1SW(g);
    InitialB1W(g);
    InitialB1NW(g);
    var d0 := [SE, S, SW, W, NW];
    var d1 := d0[1..];
    var d2 := d1[1..];
    var d3 := d2[1..];
    var d4 := d3[1..];
    assert d4 == [NW] && d4[1..] == [];
    assert MovesIn(g, 1, 2, d4) == [];
    assert MovesIn(g, 1, 2, d3) == [];
    assert MovesIn(g, 1, 2, d2) == [];
    assert MovesIn(g, 1, 2, d1) == [];
  }

  /** From b1 in the initial position the line of action to the east is
      the only open one after the first two. */
  lemma InitialB1East(g: Grid)
    requires IsInitial(g)
    ensures MovesIn(g, 1, 2, [E, SE, S, SW, W, NW]) == [Play(2, 1, 8, 1, BP, EMP)]
  {
    InitialB1E(g);
    InitialB1Blocked(g);
    assert [E, SE, S, SW, W, NW][1..] == [SE, S, SW, W, NW];
  }

  /** testPossibleMoves: in the initial position the piece on b1 has
      exactly the moves b1-b3, b1-d3 and b1-h1. */
  lemma InitialMovesB1(g: Grid)
    requires IsInitial(g)
    ensures Moves(g, 1, 2) == [Play(2, 1, 2, 3, BP, EMP), Play(2, 1, 4, 3, BP, EMP), Play(2, 1, 8, 1, BP, EMP)]
  {
    InitialB1N(g);
    OpenDirection(g, 1, 2, N, Play(2, 1, 2, 3, BP, EMP));
    InitialB1NE(g);
    OpenDirection(g, 1, 2, NE, Play(2, 1, 4, 3, BP, EMP));
    InitialB1East(g);
    MovesOfB1(g);
  }

  /** An unblocked line of action gives its one move. */
  lemma OpenDirection(g: Grid, row: int, col: int, d: Direction, m: Move)
    requires IsGrid(g) && InBounds(col, row) && At(g, row, col) != EMP
    requires !IsBlocked(g, row, col, d, LineCount(g, row, col, d)) && LineMove(g, row, col, d) == m
    ensures DirectionMoves(g, row, col, d) == [m]
  {
  }

  /** The moves from b1 once those in each direction are known: the
      position itself no longer matters. */
  lemma MovesOfB1(g: Grid)
    requires IsGrid(g) && At(g, 1, 2) == BP
    requires DirectionMoves(g, 1, 2, N) == [Play(2, 1, 2, 3, BP, EMP)]
    requires DirectionMoves(g, 1, 2, NE) == [Play(2, 1, 4, 3, BP, EMP)]
    requires MovesIn(g, 1, 2, [E, SE, S, SW, W, NW]) == [Play(2, 1, 8, 1, BP, EMP)]
    ensures Moves(g, 1, 2) == [Play(2, 1, 2, 3, BP, EMP), Play(2, 1, 4, 3, BP, EMP), Play(2, 1, 8, 1, BP, EMP)]
  {
    var rest := [E, SE, S, SW, W, NW];
    DirectionsParts();
    MovesInCons(g, 1, 2, NE, rest);
    MovesInCons(g, 1, 2, N, [NE] + rest);
  }

  /** The moves for the directions d then ds: those of d, then those of
      ds. */
  /** One direction more of the loop of getPossibleMoves: the moves so
      far and those of direction ds[i] leave the moves of ds[i + 1..]. */
  lemma MovesInStep(g: Grid, row: int, col: int, ds: seq<Direction>, i: int, moves: seq<Move>, m: seq<Move>)
    requires IsGrid(g) && InBounds(col, row) && At(g, row, col) != EMP && 0 <= i < |ds|
    requires moves + MovesIn(g, row, col, ds[i..]) == MovesIn(g, row, col, ds)
    requires m == DirectionMoves(g, row, col, ds[i])
    ensures moves + m + MovesIn(g, row, col, ds[i + 1..]) == MovesIn(g, row, col, ds)
  {
    MovesInAt(g, row, col, ds, i);
    Associative(moves, m, MovesIn(g, row, col, ds[i + 1..]));
  }

  /** The moves of ds[i..] are those of direction ds[i], then those of
      ds[i + 1..]. */
  lemma MovesInAt(g: Grid, row: int, col: int, ds: seq<Direction>, i: int)
    requires IsGrid(g) && InBounds(col, row) && At(g, row, col) != EMP && 0 <= i < |ds|
    ensures MovesIn(g, row, col, ds[i..]) == DirectionMoves(g, row, col, ds[i]) + MovesIn(g, row, col, ds[i + 1..])
  {
    assert ds[i..][1..] == ds[i + 1..];
  }

  lemma Associative<T>(a: seq<T>, b: seq<T>, c: seq<T>)
    ensures a + b + c == a + (b + c)
  {
  }

  lemma MovesInCons(g: Grid, row: int, col: int, d: Direction, ds: seq<Direction>)
    requires IsGrid(g) && InBounds(col, row) && At(g, row, col) != EMP
    ensures MovesIn(g, row, col, [d] + ds) == DirectionMoves(g, row, col, d) + MovesIn(g, row, col, ds)
  {
    assert ([d] + ds)[1..] == ds;
  }

  lemma InitialB1N(g: Grid)
    requires IsInitial(g)
    ensures LineCount(g, 1, 2, N) == 2 && !IsBlocked(g, 1, 2, N, 2)
    ensures LineMove(g, 1, 2, N) == Play(2, 1, 2, 3, BP, EMP)
  {
    assert Ray(g, 9, 2, N) == 0;
    assert Ray(g, 8, 2, N) == 1;
    assert Ray(g, 7, 2, N) == 1;
    assert Ray(g, 6, 2, N) == 1;
    assert Ray(g, 5, 2, N) == 1;
    assert Ray(g, 4, 2, N) == 1;
    assert Ray(g, 3, 2, N) == 1;
    assert Ray(g, 2, 2, N) == 1;
    assert Ray(g, 1, 2, N) == 2;
    assert Ray(g, 0, 2, S) == 0;
    assert Ray(g, 1, 2, S) == 1;
    assert LineCount(g, 1, 2, N) == 2;
    assert !PathObstructed(g, BP, 3, 2, N, 0);
    assert !PathObstructed(g, BP, 2, 2, N, 1);
    assert !PathObstructed(g, BP, 1, 2, N, 2);
  }

  lemma InitialB1NE(g: Grid)
    requires IsInitial(g)
    ensures LineCount(g, 1, 2, NE) == 2 && !IsBlocked(g, 1, 2, NE, 2)
    ensures LineMove(g, 1, 2, NE) == Play(2, 1, 4, 3, BP, EMP)
  {
    assert Ray(g, 8, 9, NE) == 0;
    assert Ray(g, 7, 8, NE) == 1;
    assert Ray(g, 6, 7, NE) == 1;
    assert Ray(g, 5, 6, NE) == 1;
    assert Ray(g, 4, 5, NE) == 1;
    assert Ray(g, 3, 4, NE) == 1;
    assert Ray(g, 2, 3, NE) == 1;
    assert Ray(g, 1, 2, NE) == 2;
    assert Ray(g, 0, 1, SW) == 0;
    assert Ray(g, 1, 2, SW) == 1;
    assert LineCount(g, 1, 2, NE) == 2;
    assert !PathObstructed(g, BP, 3, 4, NE, 0);
    assert !PathObstructed(g, BP, 2, 3, NE, 1);
    assert !PathObstructed(g, BP, 1, 2, NE, 2);
  }

  lemma InitialB1E(g: Grid)
    requires IsInitial(g)
    ensures LineCount(g, 1, 2, E) == 6 && !IsBlocked(g, 1, 2, E, 6)
    ensures LineMove(g, 1, 2, E) == Play(2, 1, 8, 1, BP, EMP)
  {
    assert Ray(g, 1, 9, E) == 0;
    assert Ray(g, 1, 8, E) == 0;
    assert Ray(g, 1, 7, E) == 1;
    assert Ray(g, 1, 6, E) == 2;
    assert Ray(g, 1, 5, E) == 3;
    assert Ray(g, 1, 4, E) == 4;
    assert Ray(g, 1, 3, E) == 5;
    assert Ray(g, 1, 2, E) == 6;
    assert Ray(g, 1, 0, W) == 0;
    assert Ray(g, 1, 1, W) == 0;
    assert Ray(g, 1, 2, W) == 1;
    assert LineCount(g, 1, 2, E) == 6;
    assert !PathObstructed(g, BP, 1, 8, E, 0);
    assert !PathObstructed(g, BP, 1, 7, E, 1);
    assert !PathObstructed(g, BP, 1, 6, E, 2);
    assert !PathObstructed(g, BP, 1, 5, E, 3);
    assert !PathObstructed(g, BP, 1, 4, E, 4);
    assert !PathObstructed(g, BP, 1, 3, E, 5);
    assert !PathObstructed(g, BP, 1, 2, E, 6);
  }

  lemma InitialB1SE(g: Grid)
    requires IsInitial(g)
    ensures LineCount(g, 1, 2, SE) == 2 && IsBlocked(g, 1, 2, SE, 2)
  {
    assert Ray(g, 0, 3, SE) == 0;
    assert Ray(g, 1, 2, SE) == 1;
    assert Ray(g, 3, 0, NW) == 0;
    assert Ray(g, 2, 1, NW) == 1;
    assert Ray(g, 1, 2, NW) == 2;
    assert LineCount(g, 1, 2, SE) == 2;
    assert Obstructs(g, BP, 0, 3);
    assert PathObstructed(g, BP, 0, 3, SE, 1);
    assert PathObstructed(g, BP, 1, 2, SE, 2);
  }

  lemma InitialB1S(g: Grid)
    requires IsInitial(g)
    ensures LineCount(g, 1, 2, S) == 2 && IsBlocked(g, 1, 2, S, 2)
  {
    assert Ray(g, 0, 2, S) == 0;
    assert Ray(g, 1, 2, S) == 1;
    assert Ray(g, 9, 2, N) == 0;
    assert Ray(g, 8, 2, N) == 1;
    assert Ray(g, 7, 2, N) == 1;
    assert Ray(g, 6, 2, N) == 1;
    assert Ray(g, 5, 2, N) == 1;
    assert Ray(g, 4, 2, N) == 1;
    assert Ray(g, 3, 2, N) == 1;
    assert Ray(g, 2, 2, N) == 1;
    assert Ray(g, 1, 2, N) == 2;
    assert LineCount(g, 1, 2, S) == 2;
    assert Obstructs(g, BP, 0, 2);
    assert PathObstructed(g, BP, 0, 2, S, 1);
    assert PathObstructed(g, BP, 1, 2, S, 2);
  }

  lemma InitialB1SW(g: Grid)
    requires IsInitial(g)
    ensures LineCount(g, 1, 2, SW) == 2 && IsBlocked(g, 1, 2, SW, 2)
  {
    assert Ray(g, 0, 1, SW) == 0;
    assert Ray(g, 1, 2, SW) == 1;
    assert Ray(g, 8, 9, NE) == 0;
    assert Ray(g, 7, 8, NE) == 1;
    assert Ray(g, 6, 7, NE) == 1;
    assert Ray(g, 5, 6, NE) == 1;
    assert Ray(g, 4, 5, NE) == 1;
    assert Ray(g, 3, 4, NE) == 1;
    assert Ray(g, 2, 3, NE) == 1;
    assert Ray(g, 1, 2, NE) == 2;
    assert LineCount(g, 1, 2, SW) == 2;
    assert Obstructs(g, BP, 0, 1);
    assert PathObstructed(g, BP, 0, 1, SW, 1);
    assert PathObstructed(g, BP, 1, 2, SW, 2);
  }

  lemma InitialB1W(g: Grid)
    requires IsInitial(g)
    ensures LineCount(g, 1, 2, W) == 6 && IsBlocked(g, 1, 2, W, 6)
  {
    assert Ray(g, 1, 0, W) == 0;
    assert Ray(g, 1, 1, W) == 0;
    assert Ray(g, 1, 2, W) == 1;
    assert Ray(g, 1, 9, E) == 0;
    assert Ray(g, 1, 8, E) == 0;
    assert Ray(g, 1, 7, E) == 1;
    assert Ray(g, 1, 6, E) == 2;
    assert Ray(g, 1, 5, E) == 3;
    assert Ray(g, 1, 4, E) == 4;
    assert Ray(g, 1, 3, E) == 5;
    assert Ray(g, 1, 2, E) == 6;
    assert LineCount(g, 1, 2, W) == 6;
    assert Obstructs(g, BP, 1, 0);
    assert PathObstructed(g, BP, 1, 0, W, 4);
    assert PathObstructed(g, BP, 1, 1, W, 5);
    assert PathObstructed(g, BP, 1, 2, W, 6);
  }

  lemma InitialB1NW(g: Grid)
    requires IsInitial(g)
    ensures LineCount(g, 1, 2, NW) == 2 && IsBlocked(g, 1, 2, NW, 2)
  {
    assert Ray(g, 3, 0, NW) == 0;
    assert Ray(g, 2, 1, NW) == 1;
    assert Ray(g, 1, 2, NW) == 2;
    assert Ray(g, 0, 3, SE) == 0;
    assert Ray(g, 1, 2, SE) == 1;
    assert LineCount(g, 1, 2, NW) == 2;
    assert Obstructs(g, BP, 2, 1);
    assert PathObstructed(g, BP, 2, 1, NW, 1);
    assert PathObstructed(g, BP, 1, 2, NW, 2);
  }

  class Board {
    var data: array2<Piece>
    var pieceCount: array<int>

    /** An 8x8 board whose piece counts are the numbers of each piece on
        it. */
    ghost predicate Valid()
      reads this, data, pieceCount
    {
      && data.Length0 == SIZE && data.Length1 == SIZE && pieceCount.Length == 3
      && forall p :: pieceCount[Ordinal(p)] == Tally(Cells(), p)
    }

    /** The contents of the board, row r - 1 holding row r. */
    function Cells(): (g: Grid)
      reads this, data
      requires data.Length0 == SIZE && data.Length1 == SIZE
      ensures IsGrid(g)
      ensures forall i, j :: 0 <= i < SIZE && 0 <= j < SIZE ==> g[i][j] == data[i, j]
    {
      var d := data;
      seq(SIZE, i requires 0 <= i < SIZE reads d => seq(SIZE, j requires 0 <= j < SIZE reads d => d[i, j]))
    }

    /** new Board(owner): the initial position. */
    constructor ()
      ensures Valid() && Cells() == InitialPieces()
    {
      data := new Piece[SIZE, SIZE]((i, j) => EMP);
      pieceCount := new int[3];
      new;
      Clear(InitialPieces());
    }

    /** clear(newData): fresh arrays holding a copy of newData, and its
        piece counts. */
    method Clear(newData: Grid)
      requires IsGrid(newData)
      modifies this
      ensures Valid() && Cells() == newData && fresh(data) && fresh(pieceCount)
    {
      data := new Piece[SIZE, SIZE]((i, j) => EMP);
      pieceCount := new int[3](_ => 0);
      for i := 0 to SIZE
        invariant fresh(data) && fresh(pieceCount) && data.Length0 == SIZE && data.Length1 == SIZE && pieceCount.Length == 3
        invariant forall i', j :: 0 <= i' < i && 0 <= j < SIZE ==> data[i', j] == newData[i'][j]
        invariant forall p :: pieceCount[Ordinal(p)] == Tally(newData[..i], p)
      {
        CopyRow(newData, i);
        forall p {
          TallyStep(newData, i, p);
        }
      }
      assert newData[..SIZE] == newData;
      GridEquality(Cells(), newData);
    }

    /** One pass of clear's inner loop: row i copied and counted. */
    method CopyRow(newData: Grid, i: nat)
      requires IsGrid(newData) && i < SIZE
      requires data.Length0 == SIZE && data.Length1 == SIZE && pieceCount.Length == 3
      modifies data, pieceCount
      ensures forall i', j :: 0 <= i' < SIZE && 0 <= j < SIZE && i' != i ==> data[i', j] == old(data[i', j])
      ensures forall j :: 0 <= j < SIZE ==> data[i, j] == newData[i][j]
      ensures forall p :: pieceCount[Ordinal(p)] == old(pieceCount[Ordinal(p)]) + RowTally(newData[i], p)
    {
      for j := 0 to SIZE
        invariant forall i', j' :: 0 <= i' < SIZE && 0 <= j' < SIZE && (i' != i || j <= j') ==> data[i', j'] == old(data[i', j'])
        invariant forall j' :: 0 <= j' < j ==> data[i, j'] == newData[i][j']
        invariant forall p :: pieceCount[Ordinal(p)] == old(pieceCount[Ordinal(p)]) + RowTally(newData[i][..j], p)
      {
        data[i, j] := newData[i][j];
        pieceCount[Ordinal(data[i, j])] := pieceCount[Ordinal(data[i, j])] + 1;
        forall p {
          RowTallyStep(newData[i], j, p);
        }
      }
      assert newData[i][..SIZE] == newData[i];
    }

    /** get(row, col) */
    function Get(row: int, col: int): (p: Piece)
      reads this, data
      requires data.Length0 == SIZE && data.Length1 == SIZE && InBounds(col, row)
      ensures p == At(Cells(), row, col)
    {
      data[row - 1, col - 1]
    }

    /** set(row, col, p): the cell holds p, one fewer of the piece it held
        is counted and one more of p. */
    method Set(row: int, col: int, p: Piece)
      requires Valid() && InBounds(col, row)
      modifies data, pieceCount
      ensures Valid() && Cells() == Put(old(Cells()), row, col, p)
      ensures forall q :: pieceCount[Ordinal(q)] + (if old(Get(row, col)) == q then 1 else 0)
                          == old(pieceCount[Ordinal(q)]) + (if p == q then 1 else 0)
    {
      ghost var g := Cells();
      var was := data[row - 1, col - 1];
      pieceCount[Ordinal(was)] := pieceCount[Ordinal(was)] - 1;
      data[row - 1, col - 1] := p;
      pieceCount[Ordinal(p)] := pieceCount[Ordinal(p)] + 1;
      GridEquality(Cells(), Put(g, row, col, p));
      forall q {
        TallyUpdate(g, row - 1, col - 1, p, q);
      }
    }

    /** possibleMoves(row, col): nothing from an empty square; otherwise,
        for each direction, the move of its line of action unless that is
        blocked. */
    method PossibleMoves(row: int, col: int) returns (moves: seq<Move>)
      requires Valid() && InBounds(col, row)
      ensures moves == Moves(Cells(), row, col)
    {
      moves := [];
      if Get(row, col) == EMP {
        return;
      }
      moves := PossibleMovesIn(Cells(), row, col, DIRECTIONS);
    }

    /** performMove(todo): an InvalidMoveException, with the board
        unchanged, unless todo is one of the possible moves from its start;
        otherwise its start is emptied and its piece put on its
        destination. */
    method PerformMove(m: Move) returns (r: Result<Move>)
      requires Valid() && m.Play? && InBounds(m.col0, m.row0)
      modifies data, pieceCount
      ensures Valid()
      ensures m !in Moves(old(Cells()), m.row0, m.col0) ==>
                r == Err("InvalidMoveException") && Cells() == old(Cells()) && unchanged(data, pieceCount)
      ensures m in Moves(old(Cells()), m.row0, m.col0) ==>
                && r == Ok(m) && InBounds(m.col1, m.row1)
                && Cells() == Put(Put(old(Cells()), m.row0, m.col0, EMP), m.row1, m.col1, m.moved)
    {
      var moves := PossibleMoves(m.row0, m.col0);
      if m !in moves {
        return Err("InvalidMoveException");
      }
      MovesMeaning(Cells(), m.row0, m.col0);
      var toMove := Get(m.row0, m.col0);
      Set(m.row0, m.col0, EMP);
      Set(m.row1, m.col1, toMove);
      r := Ok(m);
    }

    /** contiguityCount(team, row, col, explored): the depth-first search
        from (row, col) through the team's pieces not yet explored, in all
        eight directions. It marks what it visits, marks only team cells,
        and returns how many it marked; every marked cell's team neighbours
        end up marked, and so does the start when it is an unexplored team
        cell. */
    method ContiguityCount(team: Piece, row: int, col: int, explored: BitMatrix) returns (sum: nat)
      requires Valid() && explored.Valid() && explored.rows.Length == SIZE + 1
      modifies explored, explored.rows
      ensures explored.Valid()
      ensures Searched(old(explored.bits), explored.bits, TeamCells(Cells(), team), sum)
      ensures (row, col) in TeamCells(Cells(), team) ==> (row, col) in explored.bits
    {
      sum := Contiguity(Cells(), team, row, col, explored);
    }
  }

  /** The search of contiguityCount on a board whose contents are g. */
  method Contiguity(g: Grid, team: Piece, row: int, col: int, explored: BitMatrix) returns (sum: nat)
    requires IsGrid(g) && explored.Valid() && explored.rows.Length == SIZE + 1
    modifies explored, explored.rows
    ensures explored.Valid()
    ensures Searched(old(explored.bits), explored.bits, TeamCells(g, team), sum)
    ensures (row, col) in TeamCells(g, team) ==> (row, col) in explored.bits
    decreases TeamCells(g, team) - explored.bits
  {
    if InBounds(col, row) && At(g, row, col) == team && !explored.Get(row, col) {
      ghost var entry := explored.bits;
      ghost var cells := TeamCells(g, team);
      explored.Set(row, col);
      sum := 1;
      for k := 0 to |DIRECTIONS|
        invariant explored.Valid()
        invariant Explored(entry, explored.bits, (row, col), cells, sum)
        invariant NeighboursMarked((row, col), k, explored.bits, cells)
      {
        var next := Neighbour(row, col, DIRECTIONS[k]);
        ghost var before := explored.bits;
        var s := Contiguity(g, team, next.0, next.1, explored);
        NeighboursStep((row, col), k, before, explored.bits, cells);
        ExploredStep(entry, before, explored.bits, (row, col), cells, sum, s);
        sum := sum + s;
      }
      ExploredDone(entry, explored.bits, (row, col), cells, sum);
      return;
    }
    return 0;
  }

  /** The square one step from (row, col) in direction d. */
  function Neighbour(row: int, col: int, d: Direction): (int, int)
  {
    (row + DR(d), col + DC(d))
  }

  /** The cells of the board, as (row, col), holding team. */
  function TeamCells(g: Grid, team: Piece): set<(int, int)>
    requires IsGrid(g)
  {
    set r, c | 1 <= r <= SIZE && 1 <= c <= SIZE && At(g, r, c) == team :: (r, c)
  }

  /** Every team neighbour of a cell in added is in marked. */
  ghost predicate Closed(added: set<(int, int)>, marked: set<(int, int)>, cells: set<(int, int)>)
  {
    forall p, d :: p in added && Neighbour(p.0, p.1, d) in cells ==> Neighbour(p.0, p.1, d) in marked
  }

  /** What a search from entry to marked did: marked only team cells,
      counted them in sum, and closed them under team neighbours. */
  ghost predicate Searched(entry: set<(int, int)>, marked: set<(int, int)>, cells: set<(int, int)>, sum: nat)
  {
    && entry <= marked && marked - entry <= cells && sum == |marked - entry|
    && Closed(marked - entry, marked, cells)
  }

  /** The state of the search from start partway through its directions:
      start marked, and every other newly marked cell closed. */
  ghost predicate Explored(entry: set<(int, int)>, marked: set<(int, int)>, start: (int, int), cells: set<(int, int)>, sum: nat)
  {
    && start !in entry && start in cells
    && entry + {start} <= marked && marked - entry <= cells && sum == |marked - entry|
    && Closed(marked - entry - {start}, marked, cells)
  }

  /** The team neighbours of start in the first k directions are
      marked. */
  ghost predicate NeighboursMarked(start: (int, int), k: nat, marked: set<(int, int)>, cells: set<(int, int)>)
  {
    forall j :: 0 <= j < k && j < |DIRECTIONS| ==> Neighbour(start.0, start.1, DIRECTIONS[j]) in cells ==>
      Neighbour(start.0, start.1, DIRECTIONS[j]) in marked
  }

  lemma NeighboursStep(start: (int, int), k: nat, before: set<(int, int)>, after: set<(int, int)>, cells: set<(int, int)>)
    requires k < |DIRECTIONS| && NeighboursMarked(start, k, before, cells) && before <= after
    requires Neighbour(start.0, start.1, DIRECTIONS[k]) in cells ==> Neighbour(start.0, start.1, DIRECTIONS[k]) in after
    ensures NeighboursMarked(start, k + 1, after, cells)
  {
  }

  /** A search from one neighbour keeps the state of the search from
      start. */
  lemma ExploredStep(entry: set<(int, int)>, before: set<(int, int)>, after: set<(int, int)>, start: (int, int),
                     cells: set<(int, int)>, sum: nat, s: nat)
    requires Explored(entry, before, start, cells, sum) && Searched(before, after, cells, s)
    ensures Explored(entry, after, start, cells, sum + s)
  {
    assert after - entry == (before - entry) + (after - before);
    assert (before - entry) * (after - before) == {};
    assert after - entry - {start} == (before - entry - {start}) + (after - before);
  }

  /** Once every team neighbour of start is marked, the search from start
      is complete. */
  lemma ExploredDone(entry: set<(int, int)>, marked: set<(int, int)>, start: (int, int), cells: set<(int, int)>, sum: nat)
    requires Explored(entry, marked, start, cells, sum)
    requires NeighboursMarked(start, |DIRECTIONS|, marked, cells)
    ensures Searched(entry, marked, cells, sum)
  {
    forall d | Neighbour(start.0, start.1, d) in cells
      ensures Neighbour(start.0, start.1, d) in marked
    {
      DirectionsAll(d);
      var j :| 0 <= j < |DIRECTIONS| && DIRECTIONS[j] == d;
    }
    assert marked - entry == (marked - entry - {start}) + {start};
  }

  /** performMove keeps the number of pieces of the mover's side, and a
      capture takes one piece of the other side off the board. */
  lemma MoveTallies(g: Grid, m: Move)
    requires IsGrid(g) && m.Play? && InBounds(m.col0, m.row0) && m in Moves(g, m.row0, m.col0)
    ensures InBounds(m.col1, m.row1)
    ensures var h := Put(Put(g, m.row0, m.col0, EMP), m.row1, m.col1, m.moved);
            && Tally(h, m.moved) == Tally(g, m.moved)
            && (m.replaced != EMP ==> Tally(h, m.replaced) + 1 == Tally(g, m.replaced))
            && Tally(h, EMP) == Tally(g, EMP) + (if m.replaced != EMP then 1 else 0)
  {
    MovesMeaning(g, m.row0, m.col0);
    var g1 := Put(g, m.row0, m.col0, EMP);
    assert (m.row0, m.col0) != (m.row1, m.col1);
    TallyUpdate(g, m.row0 - 1, m.col0 - 1, EMP, m.moved);
    TallyUpdate(g1, m.row1 - 1, m.col1 - 1, m.moved, m.moved);
    TallyUpdate(g, m.row0 - 1, m.col0 - 1, EMP, m.replaced);
    TallyUpdate(g1, m.row1 - 1, m.col1 - 1, m.moved, m.replaced);
    TallyUpdate(g, m.row0 - 1, m.col0 - 1, EMP, EMP);
    TallyUpdate(g1, m.row1 - 1, m.col1 - 1, m.moved, EMP);
  }
}
