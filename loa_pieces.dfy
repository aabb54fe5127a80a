/** Lines of Action: pieces, the eight directions, squares of the 8x8
    board and the parsing of square names. Rows and columns run from 1 to
    8; a board's contents as a value is a Grid, row-major and 0-based. */
module LoaPieces {
  import opened Common

  /** The pieces, in ordinal order: black, white, empty. */
  datatype Piece = BP | WP | EMP

  function Ordinal(p: Piece): (n: nat)
    ensures n < 3
  {
    match p
    case BP => 0
    case WP => 1
    case EMP => 2
  }

  /** Piece.values()[n] */
  function PieceOf(n: nat): (p: Piece)
    requires n < 3
    ensures Ordinal(p) == n
  {
    if n == 0 then BP else if n == 1 then WP else EMP
  }

  lemma PieceOfOrdinal(p: Piece)
    ensures PieceOf(Ordinal(p)) == p
  {
  }

  /** The eight directions, each a unit step in rows (DR) and columns
      (DC). */
  datatype Direction = N | NE | E | SE | S | SW | W | NW

  function DR(d: Direction): int
  {
    match d
    case N => 1
    case NE => 1
    case E => 0
    case SE => -1
    case S => -1
    case SW => -1
    case W => 0
    case NW => 1
  }

  function DC(d: Direction): int
  {
    match d
    case N => 0
    case NE => 1
    case E => 1
    case SE => 1
    case S => 0
    case SW => -1
    case W => -1
    case NW => -1
  }

  /** Direction.values() */
  const DIRECTIONS: seq<Direction> := [N, NE, E, SE, S, SW, W, NW]

  /** The directions in order: north, north-east, then the rest. */
  lemma DirectionsParts()
    ensures DIRECTIONS == [N] + ([NE] + [E, SE, S, SW, W, NW])
  {
  }

  lemma DirectionsAll(d: Direction)
    ensures d in DIRECTIONS
    ensures -1 <= DR(d) <= 1 && -1 <= DC(d) <= 1 && (DR(d), DC(d)) != (0, 0)
  {
  }

  /** Board.SIZE */
  const SIZE: nat := 8

  /** inBounds(c, r) */
  predicate InBounds(c: int, r: int)
  {
    1 <= c <= SIZE && 1 <= r <= SIZE
  }

  type Grid = seq<seq<Piece>>

  ghost predicate IsGrid(g: Grid)
  {
    |g| == SIZE && forall i :: 0 <= i < SIZE ==> |g[i]| == SIZE
  }

  /** get(row, col) on a board whose contents are g. */
  function At(g: Grid, row: int, col: int): Piece
    requires IsGrid(g) && InBounds(col, row)
  {
    g[row - 1][col - 1]
  }

  /** INITIAL_PIECES */
  function InitialPieces(): (g: Grid)
    ensures IsGrid(g)
  {
    var edge := [EMP, BP, BP, BP, BP, BP, BP, EMP];
    var side := [WP, EMP, EMP, EMP, EMP, EMP, EMP, WP];
    [edge, side, side, side, side, side, side, edge]
  }

  /** toColPos(col): the first character's distance from '`', so 'a' is
      column 1. */
  function ToColPos(s: string): (c: int)
    requires |s| >= 1
    ensures 'a' <= s[0] <= 'h' ==> 1 <= c <= 8
  {
    s[0] as int - '`' as int
  }

  /** toRowPos(p1): Integer.parseInt of the second character alone. */
  function ToRowPos(s: string): (r: Result<int>)
    requires |s| >= 2
    ensures r.Ok? <==> '0' <= s[1] <= '9'
    ensures r.Ok? ==> r.value == s[1] as int - '0' as int && 0 <= r.value <= 9
  {
    if '0' <= s[1] <= '9' then Ok(s[1] as int - '0' as int) else Err("NumberFormatException")
  }

  /** The column letter and row digit of a square name are its
      positions. */
  lemma SquareName(c: int, r: int)
    requires InBounds(c, r)
    ensures var s := [('a' as int + c - 1) as char, ('0' as int + r) as char];
            ToColPos(s) == c && ToRowPos(s) == Ok(r)
  {
  }
}
