/**
 * The playing card of the game: its suit, its value, which way up it lies,
 * and the cell of the face sprite sheet that shows it. Screen positions are
 * floating-point layout and are not part of the model.
 */
module Cards {

  /** The four suits, in the order of the source's enum (HEARTS = 0 ... SPADES = 3). */
  datatype Suit = Hearts | Clubs | Diamonds | Spades

  /** The enum value of a suit, which is also its row on the sprite sheet and its foundation slot. */
  function SuitIndex(s: Suit): (i: int)
    ensures 0 <= i < 4
  {
    match s
    case Hearts => 0
    case Clubs => 1
    case Diamonds => 2
    case Spades => 3
  }

  /** The suit with a given enum value (the source's `static_cast<Suit>`). */
  function SuitOf(i: int): (s: Suit)
    requires 0 <= i < 4
    ensures SuitIndex(s) == i
  {
    if i == 0 then Hearts else if i == 1 then Clubs else if i == 2 then Diamonds else Spades
  }

  /** The enum values of the suits are distinct: reading a suit's value back gives the suit. */
  lemma SuitOfIndex(s: Suit)
    ensures SuitOf(SuitIndex(s)) == s
  {
  }

  predicate IsRed(s: Suit) {
    s == Hearts || s == Diamonds
  }

  /** A rectangle of the sprite sheet; the source stores floats, but every value here is a whole number. */
  datatype Rect = Rect(x: int, y: int, width: int, height: int)

  datatype Card = Card(suit: Suit, value: int, faceUp: bool, sourceRect: Rect)

  /** Size of one cell of the face sprite sheet: 13 columns (values) by 4 rows (suits). */
  const CellWidth: int := 225
  const CellHeight: int := 315

  /** A card flipped to its other side; nothing else about it changes. */
  function FaceToggle(c: Card): (r: Card)
    ensures r.faceUp == !c.faceUp
    ensures r.suit == c.suit && r.value == c.value && r.sourceRect == c.sourceRect
  {
    if c.faceUp then c.(faceUp := false) else c.(faceUp := true)
  }

  /**
   * The colour-alternation test of the tableau, written as the source's
   * table of sixteen cases: it holds exactly when one card is red and the
   * other black.
   */
  function SuitReliable(c: Card, second: Card): (r: bool)
    ensures r <==> IsRed(c.suit) != IsRed(second.suit)
  {
    match c.suit
    case Hearts =>
      (match second.suit
       case Hearts => false
       case Clubs => true
       case Diamonds => false
       case Spades => true)
    case Clubs =>
      (match second.suit
       case Hearts => true
       case Clubs => false
       case Diamonds => true
       case Spades => false)
    case Diamonds =>
      (match second.suit
       case Hearts => false
       case Clubs => true
       case Diamonds => false
       case Spades => true)
    case Spades =>
      (match second.suit
       case Hearts => true
       case Clubs => false
       case Diamonds => true
       case Spades => false)
  }

  /** The sheet cell of a card: column `value - 1`, row `suit`. */
  function CardRectangle(s: Suit, value: int): Rect {
    Rect((value - 1) * CellWidth, SuitIndex(s) * CellHeight, CellWidth, CellHeight)
  }

  /** The card with its sprite-sheet rectangle recomputed from its suit and value. */
  function SetCardRectangle(c: Card): Card {
    c.(sourceRect := CardRectangle(c.suit, c.value))
  }

  /**
   * For every real card (value 1 to 13) the rectangle is one whole cell
   * inside the 13-by-4 sheet, and reading the cell back gives the card's
   * suit and value.
   */
  lemma CardRectangleLocatesCell(s: Suit, value: int)
    requires 1 <= value <= 13
    ensures var r := CardRectangle(s, value);
      && r.width == CellWidth && r.height == CellHeight
      && 0 <= r.x && r.x + r.width <= 13 * CellWidth
      && 0 <= r.y && r.y + r.height <= 4 * CellHeight
      && r.x % CellWidth == 0 && r.y % CellHeight == 0
      && r.x / CellWidth + 1 == value
      && 0 <= r.y / CellHeight < 4 && SuitOf(r.y / CellHeight) == s
  {
    var r := CardRectangle(s, value);
    assert r.x == (value - 1) * 225;
    assert r.y == SuitIndex(s) * 315;
  }

  /** Distinct real cards are drawn from distinct cells of the sheet. */
  lemma CardRectangleInjective(s1: Suit, v1: int, s2: Suit, v2: int)
    requires 1 <= v1 <= 13 && 1 <= v2 <= 13
    requires CardRectangle(s1, v1) == CardRectangle(s2, v2)
    ensures s1 == s2 && v1 == v2
  {
    CardRectangleLocatesCell(s1, v1);
    CardRectangleLocatesCell(s2, v2);
  }

  /** What identifies a card across containers: its suit and value, not its orientation. */
  type CardId = (Suit, int)

  function Id(c: Card): CardId {
    (c.suit, c.value)
  }

  /** A fresh card as the deck builds it: face down, with its sheet rectangle set. */
  function NewCard(s: Suit, value: int): Card {
    SetCardRectangle(Card(s, value, false, Rect(0, 0, 0, 0)))
  }
}
