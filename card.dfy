/** Playing cards of Canfield solitaire. A card is its position in the
    enumeration CA, C2, ..., CK, DA, ..., SK: ordered first by suit (Club,
    Diamond, Heart, Spade) and then by rank (Ace through King). */
module Cards {
  import opened Common

  newtype Card = c: int | 0 <= c < 52

  const NUM_SUITS: int := 4
  const NUM_RANKS: int := 13
  const ACE: int := 1
  const JACK: int := 11
  const QUEEN: int := 12
  const KING: int := 13

  /** rank(): ordinal % 13 + 1, from 1 (Ace) to 13 (King). */
  function Rank(c: Card): (r: int)
    ensures ACE <= r <= KING
  {
    c as int % NUM_RANKS + 1
  }

  /** suit(): ordinal / 13 + 1, from 1 (Club) to 4 (Spade). */
  function Suit(c: Card): (s: int)
    ensures 1 <= s <= NUM_SUITS
  {
    c as int / NUM_RANKS + 1
  }

  /** The card of a suit and a rank: suit and rank together name exactly
      one card, and every pair in range is a card. */
  function CardOf(suit: int, rank: int): (c: Card)
    requires 1 <= suit <= NUM_SUITS && ACE <= rank <= KING
    ensures Suit(c) == suit && Rank(c) == rank
  {
    ((suit - 1) * NUM_RANKS + rank - 1) as Card
  }

  lemma SuitRankDetermine(c: Card, d: Card)
    requires Suit(c) == Suit(d) && Rank(c) == Rank(d)
    ensures c == d
  {
    assert c as int == (Suit(c) - 1) * NUM_RANKS + Rank(c) - 1;
    assert d as int == (Suit(d) - 1) * NUM_RANKS + Rank(d) - 1;
  }

  /** suitAbbrev(): the first letter of the card's name. */
  function SuitAbbrev(c: Card): (a: string)
    ensures |a| == 1
  {
    var s := Suit(c);
    if s == 1 then "C" else if s == 2 then "D" else if s == 3 then "H" else "S"
  }

  /** rankAbbrev(): the rest of the card's name. */
  function RankAbbrev(c: Card): (a: string)
    ensures 1 <= |a| <= 2
  {
    var r := Rank(c);
    if r == ACE then "A" else if r == JACK then "J" else if r == QUEEN then "Q"
    else if r == KING then "K" else NatToString(r)
  }

  /** The enumeration constant's name, suit letter first. */
  function Name(c: Card): string
  {
    SuitAbbrev(c) + RankAbbrev(c)
  }

  /** toString(): the name with the suit letter moved to the end, as in
      "10H" for the ten of hearts. */
  function ToString(c: Card): (s: string)
    ensures 2 <= |s| <= 3
    ensures s[|s| - 1 ..] == SuitAbbrev(c) && s[.. |s| - 1] == RankAbbrev(c)
  {
    var name := Name(c);
    name[1..] + name[..1]
  }

  /** The suit a letter abbreviates, if any. */
  function SuitOfAbbrev(a: string): (s: Option<int>)
  {
    if a == "C" then Some(1) else if a == "D" then Some(2)
    else if a == "H" then Some(3) else if a == "S" then Some(4) else None
  }

  /** The rank a rank abbreviation stands for, if any. */
  function RankOfAbbrev(a: string): (r: Option<int>)
  {
    if a == "A" then Some(1) else if a == "2" then Some(2) else if a == "3" then Some(3)
    else if a == "4" then Some(4) else if a == "5" then Some(5) else if a == "6" then Some(6)
    else if a == "7" then Some(7) else if a == "8" then Some(8) else if a == "9" then Some(9)
    else if a == "10" then Some(10) else if a == "J" then Some(11)
    else if a == "Q" then Some(12) else if a == "K" then Some(13) else None
  }

  lemma SuitAbbrevInverse(c: Card)
    ensures SuitOfAbbrev(SuitAbbrev(c)) == Some(Suit(c))
  {
  }

  lemma RankAbbrevInverse(c: Card)
    ensures RankOfAbbrev(RankAbbrev(c)) == Some(Rank(c))
  {
    var r := Rank(c);
    if 2 <= r <= 9 {
      assert NatToString(r) == [Digit(r)];
    } else if r == 10 {
      assert NatToString(10) == NatToString(1) + [Digit(0)];
    }
  }

  /** No two cards share a name. */
  lemma {:induction false} NameInjective(c: Card, d: Card)
    requires Name(c) == Name(d)
    ensures c == d
  {
    assert SuitAbbrev(c) == Name(c)[..1] && SuitAbbrev(d) == Name(d)[..1];
    assert RankAbbrev(c) == Name(c)[1..] && RankAbbrev(d) == Name(d)[1..];
    SuitAbbrevInverse(c);
    SuitAbbrevInverse(d);
    RankAbbrevInverse(c);
    RankAbbrevInverse(d);
    SuitRankDetermine(c, d);
  }

  /** valueOf(name): the card with that constant name, or nothing (Java
      throws IllegalArgumentException). */
  function ValueOf(name: string): (r: Option<Card>)
    ensures r.Some? ==> Name(r.value) == name
  {
    if |name| == 0 then None
    else match (SuitOfAbbrev(name[..1]), RankOfAbbrev(name[1..])) {
      case (Some(s), Some(k)) =>
        if 1 <= s <= NUM_SUITS && ACE <= k <= KING then NameOfCardOf(name, s, k); Some(CardOf(s, k)) else None
      case _ => None
    }
  }

  /** The name of the card of a parsed suit and rank is the parsed string. */
  lemma NameOfCardOf(name: string, s: int, k: int)
    requires |name| >= 1 && 1 <= s <= NUM_SUITS && ACE <= k <= KING
    requires SuitOfAbbrev(name[..1]) == Some(s) && RankOfAbbrev(name[1..]) == Some(k)
    ensures Name(CardOf(s, k)) == name
  {
    var c := CardOf(s, k);
    assert SuitAbbrev(c) == name[..1];
    var a := name[1..];
    assert RankAbbrev(c) == a by {
      if 2 <= k <= 9 {
        assert NatToString(k) == [Digit(k)];
      } else if k == 10 {
        assert NatToString(10) == NatToString(1) + [Digit(0)];
      }
    }
    assert name == name[..1] + name[1..];
  }

  lemma ValueOfName(c: Card)
    ensures ValueOf(Name(c)) == Some(c)
  {
    var name := Name(c);
    assert name[..1] == SuitAbbrev(c) && name[1..] == RankAbbrev(c);
    SuitAbbrevInverse(c);
    RankAbbrevInverse(c);
    assert CardOf(Suit(c), Rank(c)) == c by {
      SuitRankDetermine(CardOf(Suit(c), Rank(c)), c);
    }
  }

  /** toCard(name): the card whose toString is name. An empty name makes
      Java's substring throw StringIndexOutOfBoundsException, and a name
      that is no card's makes valueOf throw IllegalArgumentException. */
  function ToCard(name: string): (r: Result<Card>)
    ensures r.Ok? ==> ToString(r.value) == name
    ensures |name| == 0 ==> r == Err("StringIndexOutOfBoundsException")
  {
    if |name| == 0 then Err("StringIndexOutOfBoundsException")
    else
      var constant := name[|name| - 1 ..] + name[.. |name| - 1];
      match ValueOf(constant) {
        case Some(c) =>
          assert ToString(c) == name by {
            var n := Name(c);
            assert n[1..] == name[.. |name| - 1] && n[..1] == name[|name| - 1 ..];
            assert name == name[.. |name| - 1] + name[|name| - 1 ..];
          }
          Ok(c)
        case None => Err("IllegalArgumentException")
      }
  }

  /** toCard is the inverse of toString. */
  lemma ToCardToString(c: Card)
    ensures ToCard(ToString(c)) == Ok(c)
  {
    var s := ToString(c);
    var n := Name(c);
    assert s[|s| - 1 ..] + s[.. |s| - 1] == n;
    ValueOfName(c);
  }

  /** A string is accepted by toCard exactly when it is some card's
      toString. */
  lemma ToCardAccepts(name: string)
    ensures ToCard(name).Ok? <==> exists c: Card :: ToString(c) == name
  {
    if c: Card :| ToString(c) == name {
      ToCardToString(c);
    }
  }

  /** suitName() */
  function SuitName(c: Card): (n: string)
    ensures Suit(c) == 1 <==> n == "Club"
    ensures Suit(c) == 2 <==> n == "Diamond"
    ensures Suit(c) == 3 <==> n == "Heart"
    ensures Suit(c) == 4 <==> n == "Spade"
  {
    var s := Suit(c);
    if s == 1 then "Club" else if s == 2 then "Diamond" else if s == 3 then "Heart" else "Spade"
  }

  /** rankName(): Ace, Jack, Queen and King by name, other ranks as their
      decimal number. */
  function RankName(c: Card): (n: string)
    ensures Rank(c) == ACE <==> n == "Ace"
    ensures Rank(c) == JACK <==> n == "Jack"
    ensures Rank(c) == QUEEN <==> n == "Queen"
    ensures Rank(c) == KING <==> n == "King"
    ensures 2 <= Rank(c) <= 10 ==> n == IntToString(Rank(c))
  {
    var r := Rank(c);
    if r == ACE then "Ace" else if r == JACK then "Jack" else if r == QUEEN then "Queen"
    else if r == KING then "King" else NumeralName(r)
  }

  /** The decimal numeral of a rank from 2 to 10. */
  function NumeralName(r: int): (n: string)
    requires 2 <= r <= 10
    ensures n == IntToString(r)
    ensures n != "Ace" && n != "Jack" && n != "Queen" && n != "King"
  {
    if r == 10 then
      assert NatToString(10) == NatToString(1) + [Digit(0)];
      "10"
    else
      assert NatToString(r) == [Digit(r)];
      [Digit(r)]
  }

  /** isRed(): diamonds and hearts. */
  predicate IsRed(c: Card)
  {
    Suit(c) == 2 || Suit(c) == 3
  }

  /** The red cards are exactly the diamonds and the hearts, and so the
      red cards are the second and third quarters of the deck. */
  lemma RedSuits(c: Card)
    ensures IsRed(c) <==> SuitName(c) == "Diamond" || SuitName(c) == "Heart"
    ensures IsRed(c) <==> 13 <= c as int < 39
  {
  }
}
