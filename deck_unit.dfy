/**
 * src/Deck.cpp: a second copy of the deck, table and hidden-pool classes,
 * which main.cpp does not include. It differs from main.cpp in three ways:
 * takeCard hands out a blank card when the deck is empty instead of
 * requiring a card, the table moves one card at a time with
 * moveCardToColumn, and the hidden pool is a single pile with AddCard and
 * DrawCard. Each class is proved to compute a function or relation stated
 * here or in Rules.
 */
module DeckUnit {
  import opened Cards
  import opened Rules

  /** The value-initialised card `{}` that takeCard hands out when the deck is empty: HEARTS, value 0, face down, empty rectangle. */
  const Blank: Card := Card(Hearts, 0, false, Rect(0, 0, 0, 0))

  /**
   * Card::getCardRectangle: the card with its rectangle set to cell
   * (value - 1, suit) of a sheet whose cells measure w by h.
   */
  function GetCardRectangle(c: Card, w: int, h: int): (r: Card)
    ensures r.suit == c.suit && r.value == c.value && r.faceUp == c.faceUp
    ensures w == CellWidth && h == CellHeight ==> r == SetCardRectangle(c)
  {
    c.(sourceRect := Rect((c.value - 1) * w, SuitIndex(c.suit) * h, w, h))
  }

  /** With the 225-by-315 cells initializeDeck passes, distinct real cards get distinct rectangles. */
  lemma GetCardRectangleInjective(c1: Card, c2: Card)
    requires 1 <= c1.value <= 13 && 1 <= c2.value <= 13
    requires GetCardRectangle(c1, 225, 315).sourceRect == GetCardRectangle(c2, 225, 315).sourceRect
    ensures Id(c1) == Id(c2)
  {
    CardRectangleInjective(c1.suit, c1.value, c2.suit, c2.value);
  }

  // ---------------------------------------------------------------------
  // Dealing from a deck that may run out
  // ---------------------------------------------------------------------

  /**
   * Deck d with blank cards added under its first card until it holds n
   * cards: popping from it gives what takeCard gives from d, blank cards
   * once d is used up.
   */
  function Padded(d: seq<Card>, n: nat): (r: seq<Card>)
    ensures |r| == if |d| >= n then |d| else n
  {
    if |d| >= n then d else seq(n - |d|, _ => Blank) + d
  }

  /** What is left of deck d after k calls of takeCard: its first |d| - k cards, or none. */
  function Remaining(d: seq<Card>, k: nat): (r: seq<Card>)
    ensures |r| == if k <= |d| then |d| - k else 0
  {
    if k <= |d| then d[..|d| - k] else []
  }

  /** A pile ending in c splits into the pile without its last card, and c. */
  lemma SplitLast(a: seq<Card>, c: Card, s: seq<Card>)
    requires a + [c] == s
    ensures |s| == |a| + 1 && a == s[..|s| - 1] && c == s[|s| - 1]
  {
    assert s[..|s| - 1] == a;
  }

  /**
   * Call k + 1 of takeCard on deck d, which takes the deck from x to x' and
   * hands out c, hands out card k from the end of d padded to n > k cards:
   * a card of d while there is one, a blank card after.
   */
  lemma TakeRemaining(d: seq<Card>, p: seq<Card>, n: nat, k: nat, at: int, x: seq<Card>, x': seq<Card>, c: Card)
    requires p == Padded(d, n) && k < n && at == |p| - 1 - k && x == Remaining(d, k)
    requires x != [] ==> x' + [c] == x
    requires x == [] ==> c == Blank && x' == []
    ensures 0 <= at < |p| && x' == Remaining(d, k + 1) && c == p[at]
  {
    if k < |d| {
      SplitLast(x', c, x);
      assert x[..|x| - 1] == d[..|d| - k - 1];
      if |d| < n {
        assert p[|p| - 1 - k] == d[|d| - 1 - k];
      }
    }
  }

  /** A pile of k blank cards holds k copies of the blank card. */
  lemma {:induction false} IdsOfBlanks(k: nat)
    ensures Ids(seq(k, _ => Blank)) == multiset{}[Id(Blank) := k]
  {
    if k > 0 {
      var s := seq(k, _ => Blank);
      assert s[..k - 1] == seq(k - 1, _ => Blank);
      IdsOfBlanks(k - 1);
      assert multiset{}[Id(Blank) := k - 1] + multiset{Id(Blank)} == multiset{}[Id(Blank) := k];
    }
  }

  /** A deck of 28 cards goes to the table whole. */
  lemma DealAllIds(p: seq<Card>)
    requires |p| == 28
    ensures ColumnsIds(Deal(p)) == Ids(p)
  {
    DealKeepsCards(p);
    assert p[..|p| - 28] == [];
  }

  /** A short deck padded to n cards holds its own cards and n - |d| blank cards. */
  lemma PaddedIds(d: seq<Card>, n: nat)
    requires |d| < n
    ensures Ids(Padded(d, n)) == Ids(d) + multiset{}[Id(Blank) := n - |d|]
  {
    var pad := seq(n - |d|, _ => Blank);
    IdsAppend(pad, d);
    IdsOfBlanks(n - |d|);
    var blanks := multiset{}[Id(Blank) := n - |d|];
    assert Ids(pad) + Ids(d) == Ids(d) + blanks;
  }

  /**
   * Dealing from a deck of fewer than 28 cards puts every card of the deck
   * on the table, together with one blank card for each card missing.
   */
  lemma ShortDeckDeal(d: seq<Card>)
    requires |d| < 28
    ensures ColumnsIds(Deal(Padded(d, 28))) == Ids(d) + multiset{}[Id(Blank) := 28 - |d|]
  {
    DealAllIds(Padded(d, 28));
    PaddedIds(d, 28);
  }

  // ---------------------------------------------------------------------
  // Moving one card (Table::moveCardToColumn)
  // ---------------------------------------------------------------------

  /** The card at row r of column c erased there and pushed onto column t, which may be c itself. */
  function MovedCard(cols: seq<seq<Card>>, c: int, r: int, t: int): (m: seq<seq<Card>>)
    requires 0 <= c < |cols| && 0 <= t < |cols| && 0 <= r < |cols[c]|
    ensures |m| == |cols|
  {
    var erased := cols[c := cols[c][..r] + cols[c][r + 1..]];
    erased[t := erased[t] + [cols[c][r]]]
  }

  /**
   * Onto another column: column c keeps its other cards in their order
   * (those below r move up one row), column t gains the card on its end,
   * and every other column is unchanged.
   */
  lemma MovedCardShape(cols: seq<seq<Card>>, c: int, r: int, t: int)
    requires 0 <= c < |cols| && 0 <= t < |cols| && 0 <= r < |cols[c]| && c != t
    ensures var m := MovedCard(cols, c, r, t);
      && |m[c]| == |cols[c]| - 1
      && (forall j :: 0 <= j < r ==> m[c][j] == cols[c][j])
      && (forall j :: r <= j < |m[c]| ==> m[c][j] == cols[c][j + 1])
      && m[t] == cols[t] + [cols[c][r]]
      && (forall k :: 0 <= k < |cols| && k != c && k != t ==> m[k] == cols[k])
  {
  }

  /** Onto its own column: the card is taken out and put back on the end. */
  lemma MovedCardToItself(cols: seq<seq<Card>>, c: int, r: int)
    requires 0 <= c < |cols| && 0 <= r < |cols[c]|
    ensures var m := MovedCard(cols, c, r, c);
      && |m[c]| == |cols[c]|
      && m[c][|m[c]| - 1] == cols[c][r]
      && (forall j :: 0 <= j < r ==> m[c][j] == cols[c][j])
      && (forall j :: r <= j < |m[c]| - 1 ==> m[c][j] == cols[c][j + 1])
      && (forall k :: 0 <= k < |cols| && k != c ==> m[k] == cols[k])
  {
  }

  /** Moving a card loses and duplicates no card of the tableau. */
  lemma MovedCardKeepsCards(cols: seq<seq<Card>>, c: int, r: int, t: int)
    requires 0 <= c < |cols| && 0 <= t < |cols| && 0 <= r < |cols[c]|
    ensures ColumnsIds(MovedCard(cols, c, r, t)) == ColumnsIds(cols)
  {
    var col := cols[c];
    var card := col[r];
    var pre, post := col[..r], col[r + 1..];
    var erased := cols[c := pre + post];
    assert col == pre + ([card] + post);
    IdsAppend(pre, [card] + post);
    IdsCons([card] + post);
    assert ([card] + post)[1..] == post;
    IdsAppend(pre, post);
    IdsSingle(card);
    ColumnsIdsUpdate(cols, c, pre + post);
    RemoveAlgebra(ColumnsIds(erased), ColumnsIds(cols), Ids(pre + post), Ids([card]));
    ColumnsIdsAppend(erased, t, [card]);
  }

  /** Moving the last card of a column onto another is the run move of main.cpp for a run of one card. */
  lemma MovedCardIsMovedRun(cols: seq<seq<Card>>, c: int, t: int)
    requires 0 <= c < |cols| && 0 <= t < |cols| && c != t && cols[c] != []
    ensures MovedCard(cols, c, |cols[c]| - 1, t) == MovedRun(cols, c, |cols[c]| - 1, t)
  {
    var r := |cols[c]| - 1;
    assert cols[c][r..] == [cols[c][r]];
    assert cols[c][r + 1..] == [];
    assert cols[c][..r] + [] == cols[c][..r];
  }

  // ---------------------------------------------------------------------
  // The hidden pool as a plain pile (HiddenPool::AddCard, DrawCard)
  // ---------------------------------------------------------------------

  /** DrawCard after AddCard(c): the pile s', c' it leaves is the pile s before AddCard, and the card is c. */
  lemma DrawAfterAdd(s: seq<Card>, c: Card, s': seq<Card>, c': Card)
    requires s' + [c'] == s + [c]
    ensures c' == c && s' == s
  {
    SplitLast(s', c', s + [c]);
    assert (s + [c])[..|s|] == s;
  }

  /** The deck (MainDeck). */
  class MainDeck {
    var cards: seq<Card>

    constructor ()
      ensures cards == []
    {
      cards := [];
    }

    /**
     * Pushes the cards of every suit in enum order, values 1 to 13, face
     * down with their rectangles set for 225-by-315 cells, then shuffles.
     */
    method InitializeDeck(picks: seq<int>)
      requires ValidPicks(picks, |cards| + 52)
      modifies this
      ensures cards == Shuffled(old(cards) + StandardDeck(), picks)
    {
      ghost var start := cards;
      var suit := 0;
      while suit < 4
        invariant 0 <= suit <= 4
        invariant cards == start + DeckUpTo(suit)
      {
        ghost var done := cards;
        PushSuit(suit);
        SuitPushed(suit, suit + 1, ValuesPerSuit, start, done, cards);
        suit := suit + 1;
      }
      DeckBuilt(suit, start, cards);
      ShuffleDeck(picks);
    }

    /**
     * The inner loop of initializeDeck: pushes values 1 to 13 of one suit,
     * each built face down and given its rectangle by getCardRectangle.
     */
    method PushSuit(suit: int)
      requires 0 <= suit < 4
      modifies this
      ensures cards == old(cards) + SuitCards(SuitOf(suit), ValuesPerSuit)
    {
      ghost var done := cards;
      var s := SuitOf(suit);
      var value := 1;
      while value < 14
        invariant 1 <= value <= 14
        invariant cards == done + SuitCards(s, value - 1)
      {
        var card := Card(s, value, false, Rect(0, 0, 0, 0));
        card := GetCardRectangle(card, 225, 315);
        assert card == NewCard(s, value);
        Associative(done, SuitCards(s, value - 1), [card]);
        cards := cards + [card];
        value := value + 1;
      }
    }

    /** The shuffle: position i exchanges its card with position picks[i] <= i, for i = 0, 1, ... */
    method ShuffleDeck(picks: seq<int>)
      requires ValidPicks(picks, |cards|)
      modifies this
      ensures cards == Shuffled(old(cards), picks)
    {
      var i := 0;
      while i < |cards|
        invariant 0 <= i <= |cards| == |old(cards)|
        invariant ShuffledFrom(cards, picks, i) == Shuffled(old(cards), picks)
      {
        var j := picks[i];
        var card := cards[i];
        cards := cards[i := cards[j]][j := card];
        i := i + 1;
      }
    }

    /** Pops and returns the last card; an empty deck stays empty and hands out the blank card. */
    method TakeCard() returns (card: Card)
      modifies this
      ensures old(cards) != [] ==> cards + [card] == old(cards)
      ensures old(cards) == [] ==> card == Blank && cards == []
    {
      if cards != [] {
        card := cards[|cards| - 1];
        cards := cards[..|cards| - 1];
      } else {
        card := Blank;
      }
    }
  }

  /** The seven tableau columns (Table). */
  class Table {
    const columns: array<seq<Card>>

    constructor ()
      ensures columns.Length == 7 && fresh(columns)
      ensures forall i :: 0 <= i < 7 ==> columns[i] == []
    {
      columns := new seq<Card>[7](i => []);
    }

    /**
     * Deals from the end of the deck: column i takes i + 1 cards, the last
     * of them turned face up. A deck that runs out deals blank cards.
     */
    method InitializeTable(deck: MainDeck)
      requires columns.Length == 7
      modifies columns, deck
      ensures deck.cards == if |old(deck.cards)| >= 28 then old(deck.cards)[..|old(deck.cards)| - 28] else []
      ensures |old(deck.cards)| >= 28 ==>
        forall i :: 0 <= i < 7 ==> columns[i] == old(columns[i]) + Deal(old(deck.cards))[i]
      ensures forall i :: 0 <= i < 7 ==> columns[i] == old(columns[i]) + Deal(Padded(old(deck.cards), 28))[i]
    {
      ghost var d := deck.cards;
      ghost var p := Padded(d, 28);
      var i := 0;
      while i < 7
        invariant 0 <= i <= 7
        invariant Tri(i) <= 28 && deck.cards == Remaining(d, Tri(i))
        invariant forall k :: 0 <= k < i ==> columns[k] == old(columns[k]) + Deal(p)[k]
        invariant forall k :: i <= k < 7 ==> columns[k] == old(columns[k])
      {
        TriMonotone(i + 1, 7);
        DealColumn(deck, d, p, i, i + 1);
        i := i + 1;
      }
    }

    /**
     * The inner loop of initializeTable: column i takes the next i + 1
     * cards of deck d padded to 28 cards, the last one face up.
     */
    method DealColumn(deck: MainDeck, ghost d: seq<Card>, ghost p: seq<Card>, i: nat, ghost n: nat)
      requires columns.Length == 7 && i < 7 && n == i + 1 && Tri(n) <= 28
      requires p == Padded(d, 28) && deck.cards == Remaining(d, Tri(i))
      modifies columns, deck
      ensures deck.cards == Remaining(d, Tri(n))
      ensures columns[i] == old(columns[i]) + DealtColumn(p, i)
      ensures forall k :: 0 <= k < 7 && k != i ==> columns[k] == old(columns[k])
    {
      TriStep(i, n);
      ghost var hi := |p| - Tri(i);
      ghost var taken := Tri(i);
      var j := 0;
      while j <= i
        invariant 0 <= j <= i + 1 && taken == Tri(i) + j
        invariant deck.cards == Remaining(d, taken)
        invariant j <= i ==> columns[i] == old(columns[i]) + Reversed(p[hi - j..hi])
        invariant j == i + 1 ==> columns[i] == old(columns[i]) + DealtColumn(p, i)
        invariant forall k :: 0 <= k < 7 && k != i ==> columns[k] == old(columns[k])
      {
        DealCard(deck, d, p, i, j, hi, taken, old(columns[i]));
        taken := taken + 1;
        j := j + 1;
      }
    }

    /**
     * The body of the inner loop of initializeTable: takes card j of column
     * i from the deck, turns it face up if it is the last, and pushes it.
     */
    method DealCard(deck: MainDeck, ghost d: seq<Card>, ghost p: seq<Card>, i: nat, j: nat, ghost hi: int, ghost taken: nat, ghost pre: seq<Card>)
      requires columns.Length == 7 && j <= i < 7 && Tri(i) + i + 1 <= 28
      requires p == Padded(d, 28) && hi == |p| - Tri(i) && taken == Tri(i) + j && deck.cards == Remaining(d, taken)
      requires columns[i] == pre + Reversed(p[hi - j..hi])
      modifies columns, deck
      ensures deck.cards == Remaining(d, taken + 1)
      ensures j < i ==> columns[i] == pre + Reversed(p[hi - j - 1..hi])
      ensures j == i ==> columns[i] == pre + DealtColumn(p, i)
      ensures forall k :: 0 <= k < 7 && k != i ==> columns[k] == old(columns[k])
    {
      ghost var top := hi - j;
      ghost var before := deck.cards;
      var card := deck.TakeCard();
      TakeRemaining(d, p, 28, taken, top - 1, before, deck.cards, card);
      if j == i {
        DealLastCard(p, i, top - 1, top, hi, pre, columns[i], card);
        card := card.(faceUp := true);
      } else {
        DealCardStep(p, top - 1, top, hi, pre, columns[i], card);
      }
      columns[i] := columns[i] + [card];
    }

    /** Erases the card at row `row` of column `column` and pushes it onto column `selectedColumn`. */
    method MoveCardToColumn(column: int, row: int, selectedColumn: int)
      requires columns.Length == 7 && 0 <= column < 7 && 0 <= selectedColumn < 7
      requires 0 <= row < |columns[column]|
      modifies columns
      ensures columns[..] == MovedCard(old(columns[..]), column, row, selectedColumn)
    {
      var card := columns[column][row];
      columns[column] := columns[column][..row] + columns[column][row + 1..];
      columns[selectedColumn] := columns[selectedColumn] + [card];
    }
  }

  /** The hidden pool, a single pile (HiddenPool). */
  class HiddenPool {
    var cards: seq<Card>

    constructor ()
      ensures cards == []
    {
      cards := [];
    }

    /** Takes the deck's cards one by one onto the pile until the deck is empty, so the pile holds them reversed. */
    method InitializeHiddenPool(deck: MainDeck)
      modifies this, deck
      ensures cards == old(cards) + Reversed(old(deck.cards))
      ensures deck.cards == []
    {
      ghost var d := deck.cards;
      ghost var start := cards;
      while |deck.cards| != 0
        invariant |deck.cards| <= |d| && deck.cards == d[..|deck.cards|]
        invariant cards == start + Reversed(d[|deck.cards|..])
        decreases |deck.cards|
      {
        var k := |deck.cards| - 1;
        ReversedStep(d, k, |d|);
        ghost var before := deck.cards;
        var card := deck.TakeCard();
        SplitLast(deck.cards, card, before);
        TakeLast(d, k + 1);
        cards := cards + [card];
      }
      assert d[|deck.cards|..] == d;
    }

    method AddCard(card: Card)
      modifies this
      ensures cards == old(cards) + [card]
    {
      cards := cards + [card];
    }

    /** Pops and returns the last card; the pile must not be empty. */
    method DrawCard() returns (card: Card)
      requires cards != []
      modifies this
      ensures cards + [card] == old(cards)
    {
      card := cards[|cards| - 1];
      cards := cards[..|cards| - 1];
    }
  }
}
