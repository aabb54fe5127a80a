/** Lines of Action moves: the table of every move a piece can make, the
    lookup that turns squares (or a move's text) into a move, and a move's
    length, text and equality. */
module LoaMoves {
  import opened Common
  import opened LoaPieces

  /** A move of the piece moved from (col0, row0) to (col1, row1), where
      it replaces the piece replaced (EMP when the square is free); or the
      invalid move made from the text creationString. */
  datatype Move =
    | Play(col0: int, row0: int, col1: int, row1: int, moved: Piece, replaced: Piece)
    | Invalid(creationString: string)

  // The getters: an invalid move has -1 for every square position and no
  // pieces; a valid move has no creation string.

  function Col0(m: Move): int { if m.Play? then m.col0 else -1 }
  function Row0(m: Move): int { if m.Play? then m.row0 else -1 }
  function Col1(m: Move): int { if m.Play? then m.col1 else -1 }
  function Row1(m: Move): int { if m.Play? then m.row1 else -1 }
  function MovedPiece(m: Move): Option<Piece> { if m.Play? then Some(m.moved) else None }
  function ReplacedPiece(m: Move): Option<Piece> { if m.Play? then Some(m.replaced) else None }
  function IsInvalid(m: Move): bool { m.Invalid? }
  function CreationString(m: Move): Option<string> { if m.Invalid? then Some(m.creationString) else None }

  /** equals(obj): field by field, in the order of the source. */
  predicate MoveEquals(a: Move, b: Move)
  {
    && Col0(a) == Col0(b) && Col1(a) == Col1(b)
    && CreationString(a) == CreationString(b)
    && IsInvalid(a) == IsInvalid(b)
    && MovedPiece(a) == MovedPiece(b) && ReplacedPiece(a) == ReplacedPiece(b)
    && Row0(a) == Row0(b) && Row1(a) == Row1(b)
  }

  /** Comparing every field is equality of moves. */
  lemma MoveEqualsIff(a: Move, b: Move)
    ensures MoveEquals(a, b) <==> a == b
  {
  }

  /** length(): the larger of the row and the column distance. */
  function Length(m: Move): (n: nat)
    ensures n >= Abs(Row1(m) - Row0(m)) && n >= Abs(Col1(m) - Col0(m))
    ensures n == Abs(Row1(m) - Row0(m)) || n == Abs(Col1(m) - Col0(m))
  {
    Max(Abs(Row1(m) - Row0(m)), Abs(Col1(m) - Col0(m)))
  }

  function Abs(x: int): nat { if x < 0 then -x else x }
  function Max(a: nat, b: nat): nat { if a < b then b else a }

  /** On one row, one column or one of the two diagonals. */
  predicate OnLine(c0: int, r0: int, c1: int, r1: int)
  {
    c0 == c1 || r0 == r1 || c0 + r0 == c1 + r1 || c0 - r0 == c1 - r1
  }

  /** An index of the table _moves: start, destination, piece moved and
      piece replaced. */
  datatype Key = Key(c0: int, r0: int, c1: int, r1: int, moved: Piece, replaced: Piece)

  /** What the table holds at a key: a move between two different squares
      of the board on one line, of a piece onto a square it does not
      already hold; null (None) everywhere else. */
  function TableEntry(k: Key): (r: Option<Move>)
    ensures r.Some? ==> r.value == Play(k.c0, k.r0, k.c1, k.r1, k.moved, k.replaced)
  {
    if && InBounds(k.c0, k.r0) && InBounds(k.c1, k.r1) && (k.c0, k.r0) != (k.c1, k.r1)
       && OnLine(k.c0, k.r0, k.c1, k.r1) && k.moved != EMP && k.moved != k.replaced
    then Some(Play(k.c0, k.r0, k.c1, k.r1, k.moved, k.replaced))
    else None
  }

  /** Every entry of a table is the entry TableEntry describes. */
  ghost predicate Sound(t: map<Key, Move>)
  {
    forall k :: k in t ==> TableEntry(k) == Some(t[k])
  }

  /** Java's (char) conversion of an int: its low sixteen bits, unsigned. */
  function CharCast(x: int): (c: nat)
    ensures c < 0x1_0000 && (0 <= x < 0x1_0000 ==> c == x)
  {
    x % 0x1_0000
  }

  /** Squares the initializer reaches from (c0, r0) in the steps before
      k of its innermost loop: along the column and the diagonal to the rows
      before k, along the row and the anti-diagonal to the columns before
      k. */
  ghost predicate Reached(c0: int, r0: int, c1: int, r1: int, k: int)
  {
    ((c1 == c0 || c1 - r1 == c0 - r0) && r1 < k) || ((r1 == r0 || c1 + r1 == c0 + r0) && c1 < k)
  }

  /** New entries of t beyond t0 are all moves from (c0, r0) of pm onto
      pr. */
  ghost predicate AddsOnly(t0: map<Key, Move>, t: map<Key, Move>, c0: int, r0: int, pm: Piece, pr: Piece)
  {
    && t0.Keys <= t.Keys
    && forall k :: k in t && k !in t0 ==> k.c0 == c0 && k.r0 == r0 && k.moved == pm && k.replaced == pr
  }

  /** Entries added in two rounds, each only from (c0, r0), are added only
      from (c0, r0). */
  lemma AddsOnlyTrans(t0: map<Key, Move>, t1: map<Key, Move>, t2: map<Key, Move>, c0: int, r0: int, pm: Piece, pr: Piece)
    requires AddsOnly(t0, t1, c0, r0, pm, pr) && AddsOnly(t1, t2, c0, r0, pm, pr)
    ensures AddsOnly(t0, t2, c0, r0, pm, pr)
  {
  }

  /** t with its entry at key set to the move there. */
  function PutEntry(t: map<Key, Move>, key: Key): (t': map<Key, Move>)
    requires Sound(t) && TableEntry(key).Some?
    ensures Sound(t') && t'.Keys == t.Keys + {key}
  {
    t[key := TableEntry(key).value]
  }

  /** One step k of the innermost loop of the static initializer: the
      moves from (c0, r0) along its column to row k, and along the diagonal
      when the destination's column is on the board; then along its row to
      column k, and along the anti-diagonal likewise. */
  method FillStep(t0: map<Key, Move>, c0: int, r0: int, k: int, pm: Piece, pr: Piece) returns (t: map<Key, Move>)
    requires InBounds(c0, r0) && 1 <= k <= SIZE && pm != EMP && pm != pr && Sound(t0)
    ensures Sound(t) && AddsOnly(t0, t, c0, r0, pm, pr)
    ensures k != r0 ==> Key(c0, r0, c0, k, pm, pr) in t
    ensures k != r0 && InBounds(c0 - r0 + k, k) ==> Key(c0, r0, c0 - r0 + k, k, pm, pr) in t
    ensures k != c0 ==> Key(c0, r0, k, r0, pm, pr) in t
    ensures k != c0 && InBounds(k, c0 + r0 - k) ==> Key(c0, r0, k, c0 + r0 - k, pm, pr) in t
  {
    var t1 := FillToRow(t0, c0, r0, k, pm, pr);
    t := FillToColumn(t1, c0, r0, k, pm, pr);
  }

  /** The first half of a step: to row k along the column and the
      diagonal. */
  method FillToRow(t0: map<Key, Move>, c0: int, r0: int, k: int, pm: Piece, pr: Piece) returns (t: map<Key, Move>)
    requires InBounds(c0, r0) && 1 <= k <= SIZE && pm != EMP && pm != pr && Sound(t0)
    ensures Sound(t) && AddsOnly(t0, t, c0, r0, pm, pr)
    ensures k != r0 ==> Key(c0, r0, c0, k, pm, pr) in t
    ensures k != r0 && InBounds(c0 - r0 + k, k) ==> Key(c0, r0, c0 - r0 + k, k, pm, pr) in t
  {
    t := t0;
    if k != r0 {
      t := PutEntry(t, Key(c0, r0, c0, k, pm, pr));
      if CharCast(c0 - r0 + k - 1) < SIZE {
        t := PutEntry(t, Key(c0, r0, c0 - r0 + k, k, pm, pr));
      }
    }
  }

  /** The second half of a step: to column k along the row and the
      anti-diagonal. */
  method FillToColumn(t0: map<Key, Move>, c0: int, r0: int, k: int, pm: Piece, pr: Piece) returns (t: map<Key, Move>)
    requires InBounds(c0, r0) && 1 <= k <= SIZE && pm != EMP && pm != pr && Sound(t0)
    ensures Sound(t) && AddsOnly(t0, t, c0, r0, pm, pr)
    ensures k != c0 ==> Key(c0, r0, k, r0, pm, pr) in t
    ensures k != c0 && InBounds(k, c0 + r0 - k) ==> Key(c0, r0, k, c0 + r0 - k, pm, pr) in t
  {
    t := t0;
    if k != c0 {
      t := PutEntry(t, Key(c0, r0, k, r0, pm, pr));
      if CharCast(c0 + r0 - k - 1) < SIZE {
        t := PutEntry(t, Key(c0, r0, k, c0 + r0 - k, pm, pr));
      }
    }
  }

  /** A move of the table reached at step k is one of the four FillStep
      adds. */
  lemma ReachedStep(c0: int, r0: int, c1: int, r1: int, k: int, pm: Piece, pr: Piece)
    requires TableEntry(Key(c0, r0, c1, r1, pm, pr)).Some?
    requires Reached(c0, r0, c1, r1, k + 1) && !Reached(c0, r0, c1, r1, k)
    ensures || (k != r0 && (c1, r1) == (c0, k))
            || (k != r0 && InBounds(c0 - r0 + k, k) && (c1, r1) == (c0 - r0 + k, k))
            || (k != c0 && (c1, r1) == (k, r0))
            || (k != c0 && InBounds(k, c0 + r0 - k) && (c1, r1) == (k, c0 + r0 - k))
  {
  }

  /** The innermost loop of the static initializer: steps 1 to 8, which
      between them reach every square on a line through (c0, r0). */
  method FillFrom(t0: map<Key, Move>, c0: int, r0: int, pm: Piece, pr: Piece) returns (t: map<Key, Move>)
    requires InBounds(c0, r0) && pm != EMP && pm != pr && Sound(t0)
    ensures Sound(t) && AddsOnly(t0, t, c0, r0, pm, pr)
    ensures forall c1, r1 :: TableEntry(Key(c0, r0, c1, r1, pm, pr)).Some? ==> Key(c0, r0, c1, r1, pm, pr) in t
  {
    t := t0;
    for k := 1 to SIZE + 1
      invariant Sound(t) && AddsOnly(t0, t, c0, r0, pm, pr)
      invariant forall c1, r1 :: TableEntry(Key(c0, r0, c1, r1, pm, pr)).Some? && Reached(c0, r0, c1, r1, k) ==>
                  Key(c0, r0, c1, r1, pm, pr) in t
    {
      ghost var before := t;
      t := FillStep(t, c0, r0, k, pm, pr);
      AddsOnlyTrans(t0, before, t, c0, r0, pm, pr);
      forall c1, r1 | TableEntry(Key(c0, r0, c1, r1, pm, pr)).Some? && Reached(c0, r0, c1, r1, k + 1)
        ensures Key(c0, r0, c1, r1, pm, pr) in t
      {
        if !Reached(c0, r0, c1, r1, k) {
          ReachedStep(c0, r0, c1, r1, k, pm, pr);
        } else {
          assert Key(c0, r0, c1, r1, pm, pr) in before;
        }
      }
    }
  }

  /** The loops over the start square, for one pair of pieces. */
  method FillPair(t0: map<Key, Move>, pm: Piece, pr: Piece) returns (t: map<Key, Move>)
    requires pm != EMP && pm != pr && Sound(t0)
    ensures Sound(t) && t0.Keys <= t.Keys
    ensures forall k :: TableEntry(k).Some? && k.moved == pm && k.replaced == pr ==> k in t
  {
    t := t0;
    for r0 := 1 to SIZE + 1
      invariant Sound(t) && t0.Keys <= t.Keys
      invariant forall k :: TableEntry(k).Some? && k.moved == pm && k.replaced == pr && k.r0 < r0 ==> k in t
    {
      for c0 := 1 to SIZE + 1
        invariant Sound(t) && t0.Keys <= t.Keys
        invariant forall k :: (TableEntry(k).Some? && k.moved == pm && k.replaced == pr
                               && (k.r0 < r0 || (k.r0 == r0 && k.c0 < c0))) ==> k in t
      {
        ghost var before := t;
        t := FillFrom(t, c0, r0, pm, pr);
        assert forall k :: k in before ==> k in t;
      }
    }
  }

  /** The static initializer of _moves: for each piece that can move and
      each piece it can replace, every move. The table it builds holds
      exactly the entries TableEntry describes. */
  method BuildTable() returns (t: map<Key, Move>)
    ensures forall k :: k in t <==> TableEntry(k).Some?
    ensures forall k :: k in t ==> t[k] == TableEntry(k).value
  {
    t := map[];
    for m := 0 to 2
      invariant Sound(t)
      invariant forall k :: TableEntry(k).Some? && Ordinal(k.moved) < m ==> k in t
    {
      for r := 0 to 3
        invariant Sound(t)
        invariant forall k :: TableEntry(k).Some? && (Ordinal(k.moved) < m || (Ordinal(k.moved) == m && Ordinal(k.replaced) < r)) ==> k in t
      {
        var pm, pr := PieceOf(m), PieceOf(r);
        if pm == pr || pm == EMP {
          continue;
        }
        t := FillPair(t, pm, pr);
      }
    }
  }

  /** create(s, column0, row0, column1, row1, board) as written, for a
      board whose contents are g: the invalid move s when a square is off
      the board, otherwise the table's entry. The table has two slots for
      the moved piece, BP and WP, so a start square holding EMP (ordinal
      2) indexes past them. */
  function CreateAt(s: string, c0: int, r0: int, c1: int, r1: int, g: Grid): (r: Result<Option<Move>>)
    requires IsGrid(g)
    ensures r.Err? <==> InBounds(c0, r0) && InBounds(c1, r1) && At(g, r0, c0) == EMP
    ensures r == Ok(Some(Invalid(s))) <==> !InBounds(c0, r0) || !InBounds(c1, r1)
  {
    if !InBounds(c0, r0) || !InBounds(c1, r1) then Ok(Some(Invalid(s)))
    else
      var moved := At(g, r0, c0);
      if Ordinal(moved) >= 2 then Err("ArrayIndexOutOfBoundsException")
      else Ok(TableEntry(Key(c0, r0, c1, r1, moved, At(g, r1, c1))))
  }

  /** create, as its documentation describes it: null (None) for a move
      that is always invalid, a move from an empty square included. */
  function MoveAt(s: string, c0: int, r0: int, c1: int, r1: int, g: Grid): (r: Option<Move>)
    requires IsGrid(g)
    ensures r == Some(Invalid(s)) <==> !InBounds(c0, r0) || !InBounds(c1, r1)
    ensures r.Some? && r.value.Play? ==> r.value.moved == At(g, r0, c0) != EMP
  {
    if !InBounds(c0, r0) || !InBounds(c1, r1) then Some(Invalid(s))
    else TableEntry(Key(c0, r0, c1, r1, At(g, r0, c0), At(g, r1, c1)))
  }

  /** A move from MoveAt is the invalid move s exactly when a square is off
      the board; otherwise it is the move between the two squares of the
      pieces on them, on one line, of a piece onto a square it does not
      hold; and null when there is none. */
  lemma MoveAtMeaning(s: string, c0: int, r0: int, c1: int, r1: int, g: Grid)
    requires IsGrid(g)
    ensures var r := MoveAt(s, c0, r0, c1, r1, g);
            && (r == Some(Invalid(s)) <==> !InBounds(c0, r0) || !InBounds(c1, r1))
            && (r.Some? && r.value.Play? ==>
                  && r.value == Play(c0, r0, c1, r1, At(g, r0, c0), At(g, r1, c1))
                  && OnLine(c0, r0, c1, r1) && (c0, r0) != (c1, r1)
                  && At(g, r0, c0) != EMP && At(g, r1, c1) != At(g, r0, c0))
            && (r.None? <==> InBounds(c0, r0) && InBounds(c1, r1)
                             && !(OnLine(c0, r0, c1, r1) && (c0, r0) != (c1, r1)
                                  && At(g, r0, c0) != EMP && At(g, r1, c1) != At(g, r0, c0)))
  {
  }

  /** The source's lookup throws for a move from an empty square, where
      the documented lookup gives null; everywhere else the two agree. */
  lemma CreateAtEmptyStart(s: string, c0: int, r0: int, c1: int, r1: int, g: Grid)
    requires IsGrid(g)
    ensures InBounds(c0, r0) && InBounds(c1, r1) && At(g, r0, c0) == EMP ==>
              CreateAt(s, c0, r0, c1, r1, g) == Err("ArrayIndexOutOfBoundsException")
              && MoveAt(s, c0, r0, c1, r1, g) == None
    ensures !(InBounds(c0, r0) && InBounds(c1, r1) && At(g, r0, c0) == EMP) ==>
              CreateAt(s, c0, r0, c1, r1, g) == Ok(MoveAt(s, c0, r0, c1, r1, g))
  {
  }

  /** create(column0, row0, k, dir, board): the move k steps in direction
      dir, with no creation string; it throws as create does when the start
      square is empty and both squares are on the board. */
  function CreateStep(c0: int, r0: int, k: int, d: Direction, g: Grid): (r: Result<Option<Move>>)
    requires IsGrid(g)
    ensures r.Err? <==> InBounds(c0, r0) && InBounds(c0 + DC(d) * k, r0 + DR(d) * k) && At(g, r0, c0) == EMP
  {
    CreateAt("", c0, r0, c0 + DC(d) * k, r0 + DR(d) * k, g)
  }

  /** A step move to a square on the board, of a piece onto a square not
      holding one of its own, is in the table, and its length is the
      number of steps. */
  lemma CreateStepLength(c0: int, r0: int, k: nat, d: Direction, g: Grid)
    requires IsGrid(g) && InBounds(c0, r0) && k >= 1
    requires InBounds(c0 + DC(d) * k, r0 + DR(d) * k)
    requires At(g, r0, c0) != EMP && At(g, r0 + DR(d) * k, c0 + DC(d) * k) != At(g, r0, c0)
    ensures var r := CreateStep(c0, r0, k, d, g);
            && r == Ok(Some(Play(c0, r0, c0 + DC(d) * k, r0 + DR(d) * k, At(g, r0, c0), At(g, r0 + DR(d) * k, c0 + DC(d) * k))))
            && Length(r.value.value) == k
  {
    DirectionsAll(d);
  }

  // ---------------------------------------------------------------------
  // Moves as text.

  /** A character String.trim removes from either end. */
  predicate IsTrimmed(c: char) { c <= ' ' }

  /** String.trim(): the string without its leading and trailing characters
      at or below ' '. */
  function Trim(s: string): (r: string)
    ensures |r| <= |s|
    ensures r != [] ==> !IsTrimmed(r[0]) && !IsTrimmed(r[|r| - 1])
    ensures (s != [] && !IsTrimmed(s[0]) && !IsTrimmed(s[|s| - 1])) ==> r == s
  {
    TrimEnd(TrimStart(s))
  }

  function TrimStart(s: string): (r: string)
    ensures |r| <= |s| && (r != [] ==> !IsTrimmed(r[0])) && r == s[|s| - |r|..]
    ensures s != [] && !IsTrimmed(s[0]) ==> r == s
  {
    if s != [] && IsTrimmed(s[0]) then TrimStart(s[1..]) else s
  }

  function TrimEnd(s: string): (r: string)
    ensures |r| <= |s| && (r != [] ==> !IsTrimmed(r[|r| - 1])) && r == s[..|r|]
    ensures s != [] && !IsTrimmed(s[|s| - 1]) ==> r == s
  {
    if s != [] && IsTrimmed(s[|s| - 1]) then TrimEnd(s[..|s| - 1]) else s
  }

  /** A character of \w, ASCII letters, digits and '_': the boundary \b
      lies between one of these and a character that is not. */
  predicate IsWordChar(c: char)
  {
    ('a' <= c <= 'z') || ('A' <= c <= 'Z') || ('0' <= c <= '9') || c == '_'
  }

  /** A line terminator, which `.` does not match unless DOTALL is set. */
  predicate IsLineTerminator(c: char)
  {
    c == '\n' || c == '\r' || c == '\U{0085}' || c == '\U{2028}' || c == '\U{2029}'
  }

  /** s.matches("[a-h][1-9]-[a-h][1-9]\\b.*"): a move's text, then the end
      or a character that is not a word character, and no line terminator
      after the move's text, since `.*` must reach the end. */
  predicate MatchesMove(s: string)
    ensures MatchesMove(s) ==> |s| >= 5 && s[2] == '-' && (|s| == 5 || !IsWordChar(s[5]))
    ensures MatchesMove(s) ==> forall i :: 5 <= i < |s| ==> !IsLineTerminator(s[i])
    ensures MatchesMove(s) ==> && 1 <= SquareCol(s[0]) <= SIZE && 1 <= SquareRow(s[1]) <= SIZE + 1
                               && 1 <= SquareCol(s[3]) <= SIZE && 1 <= SquareRow(s[4]) <= SIZE + 1
  {
    && |s| >= 5
    && 'a' <= s[0] <= 'h' && '1' <= s[1] <= '9' && s[2] == '-'
    && 'a' <= s[3] <= 'h' && '1' <= s[4] <= '9'
    && (|s| == 5 || !IsWordChar(s[5]))
    && forall i :: 5 <= i < |s| ==> !IsLineTerminator(s[i])
  }

  /** create(s, board) for a board whose contents are g: the move named by
      the first five characters of the trimmed text, or the invalid move
      of the trimmed text when it is not a move's text. The lookup is the
      one create(s, column0, row0, column1, row1, board) makes (CreateAt),
      which throws for a start square with no piece. */
  function Create(s: string, g: Grid): (r: Result<Option<Move>>)
    requires IsGrid(g)
    ensures !MatchesMove(Trim(s)) ==> r == Ok(Some(Invalid(Trim(s))))
    ensures MatchesMove(Trim(s)) ==> r == CreateAt(Trim(s), SquareCol(Trim(s)[0]), SquareRow(Trim(s)[1]),
                                                   SquareCol(Trim(s)[3]), SquareRow(Trim(s)[4]), g)
  {
    var t := Trim(s);
    if MatchesMove(t) then Matched(t, g) else Ok(Some(Invalid(t)))
  }

  /** The column a letter a to h names. */
  function SquareCol(c: char): int { c as int - 'a' as int + 1 }

  /** The row a digit names. */
  function SquareRow(c: char): int { c as int - '0' as int }

  /** The lookup for a trimmed text that names a move: the squares p1 and
      p2 of its first two and its fourth and fifth characters. */
  function Matched(t: string, g: Grid): (r: Result<Option<Move>>)
    requires IsGrid(g) && MatchesMove(t)
    ensures r == CreateAt(t, SquareCol(t[0]), SquareRow(t[1]), SquareCol(t[3]), SquareRow(t[4]), g)
  {
    var p1 := t[..2];
    var p2 := t[3..];
    assert p1[1] == t[1] && p2[1] == t[4];
    CreateAt(t, ToColPos(p1), ToRowPos(p1).value, ToColPos(p2), ToRowPos(p2).value, g)
  }

  /** A square's column as a letter. */
  function ColLetter(c: int): (ch: char)
    requires 1 <= c <= SIZE
    ensures 'a' <= ch <= 'h'
  {
    (c - 1 + 'a' as int) as char
  }

  /** toString(): "c0r0-c1r1" with letters for columns; an invalid move's
      text is its creation string. */
  function ToString(m: Move): (s: string)
    requires m.Play? ==> InBounds(m.col0, m.row0) && InBounds(m.col1, m.row1)
    ensures m.Play? ==> |s| == 5 && s[2] == '-'
    ensures m.Invalid? ==> s == m.creationString
  {
    match m
    case Invalid(t) => t
    case Play(c0, r0, c1, r1, _, _) =>
      DigitOf(r0);
      DigitOf(r1);
      [ColLetter(c0)] + IntToString(r0) + "-" + [ColLetter(c1)] + IntToString(r1)
  }

  /** A row number is written as its one digit. */
  lemma DigitOf(r: int)
    requires 1 <= r <= SIZE
    ensures IntToString(r) == [(r + '0' as int) as char]
  {
  }

  /** Reading back the text of a move of the table, on a board with the
      move's pieces on its squares, gives the move. */
  lemma CreateToString(m: Move, g: Grid)
    requires IsGrid(g) && m.Play?
    requires TableEntry(Key(m.col0, m.row0, m.col1, m.row1, m.moved, m.replaced)) == Some(m)
    requires At(g, m.row0, m.col0) == m.moved && At(g, m.row1, m.col1) == m.replaced
    ensures Create(ToString(m), g) == Ok(Some(m))
  {
    MoveText(m);
  }

  /** The text of a move on the board is already trimmed, is a move's text,
      and names the move's two squares. */
  lemma MoveText(m: Move)
    requires m.Play? && InBounds(m.col0, m.row0) && InBounds(m.col1, m.row1)
    ensures var s := ToString(m);
            && Trim(s) == s && MatchesMove(s)
            && SquareCol(s[0]) == m.col0 && SquareRow(s[1]) == m.row0
            && SquareCol(s[3]) == m.col1 && SquareRow(s[4]) == m.row1
  {
    var s := ToString(m);
    DigitOf(m.row0);
    DigitOf(m.row1);
    var a, b := ColLetter(m.col0), (m.row0 + '0' as int) as char;
    var c, d := ColLetter(m.col1), (m.row1 + '0' as int) as char;
    assert s == [a] + [b] + "-" + [c] + [d];
    FiveParts(a, b, c, d);
    assert Trim(s) == s;
  }

  /** The two squares of a move's text. */
  lemma FiveParts(a: char, b: char, c: char, d: char)
    ensures var s := [a] + [b] + "-" + [c] + [d];
            s == [a, b, '-', c, d] && s[..2] == [a, b] && s[3..] == [c, d]
  {
  }

  /** Text naming a square off the board (row 9) is an invalid move. */
  lemma OffBoardText(s: string, g: Grid)
    requires IsGrid(g) && MatchesMove(Trim(s)) && (Trim(s)[1] == '9' || Trim(s)[4] == '9')
    ensures Create(s, g) == Ok(Some(Invalid(Trim(s))))
  {
  }
}
