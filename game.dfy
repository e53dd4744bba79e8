/**
 * The containers of main.cpp as classes whose methods change their fields
 * in place, and the release branch of the mouse handler as a method over
 * them. Each method is proved to compute the matching function of Rules or
 * Moves, so the properties proved there hold of the running state.
 */
module Game {
  import opened Cards
  import opened Rules
  import opened Moves

  datatype Option<T> = None | Some(value: T)

  /** The deck (MainDeck). */
  class MainDeck {
    var cards: seq<Card>

    constructor ()
      ensures cards == []
    {
      cards := [];
    }

    /**
     * Pushes the cards of every suit in enum order, values 1 to 13, face
     * down with their sheet rectangles set, then shuffles the whole deck.
     */
    method InitializeDeck(picks: seq<int>)
      requires ValidPicks(picks, |cards| + 52)
      modifies this
      ensures cards == Shuffled(old(cards) + StandardDeck(), picks)
    {
      ghost var start := cards;
      var suit := 0;
      while suit < 4
        invariant 0 <= suit <= 4
        invariant cards == start + DeckUpTo(suit)
      {
        ghost var done := cards;
        PushSuit(suit);
        SuitPushed(suit, suit + 1, ValuesPerSuit, start, done, cards);
        suit := suit + 1;
      }
      DeckBuilt(suit, start, cards);
      ShuffleDeck(picks);
    }

    /** The inner loop of initializeDeck: pushes values 1 to 13 of one suit, in increasing order. */
    method PushSuit(suit: int)
      requires 0 <= suit < 4
      modifies this
      ensures cards == old(cards) + SuitCards(SuitOf(suit), ValuesPerSuit)
    {
      ghost var done := cards;
      var s := SuitOf(suit);
      var value := 1;
      while value < 14
        invariant 1 <= value <= 14
        invariant cards == done + SuitCards(s, value - 1)
      {
        var card := NewCard(s, value);
        Associative(done, SuitCards(s, value - 1), [card]);
        cards := cards + [card];
        value := value + 1;
      }
    }

    /** The shuffle: position i exchanges its card with position picks[i] <= i, for i = 0, 1, ... */
    method ShuffleDeck(picks: seq<int>)
      requires ValidPicks(picks, |cards|)
      modifies this
      ensures cards == Shuffled(old(cards), picks)
    {
      var i := 0;
      while i < |cards|
        invariant 0 <= i <= |cards| == |old(cards)|
        invariant ShuffledFrom(cards, picks, i) == Shuffled(old(cards), picks)
      {
        var j := picks[i];
        var card := cards[i];
        cards := cards[i := cards[j]][j := card];
        i := i + 1;
      }
    }

    /** Pops the last card; the deck must not be empty. */
    method TakeCard() returns (card: Card)
      requires cards != []
      modifies this
      ensures card == old(cards)[|old(cards)| - 1]
      ensures cards == old(cards)[..|old(cards)| - 1]
    {
      card := cards[|cards| - 1];
      cards := cards[..|cards| - 1];
    }

    method IsEmpty() returns (empty: bool)
      ensures empty <==> cards == []
    {
      empty := cards == [];
    }
  }

  /** The stock `cards` and the waste `buffer` (HiddenPool). */
  class HiddenPool {
    var cards: seq<Card>
    var buffer: seq<Card>

    constructor ()
      ensures cards == [] && buffer == []
    {
      cards := [];
      buffer := [];
    }

    /** Takes the deck's cards one by one onto the stock, so the stock holds them in reverse order. */
    method InitializeHiddenPool(deck: MainDeck)
      modifies this, deck
      ensures cards == old(cards) + Reversed(old(deck.cards))
      ensures buffer == old(buffer) && deck.cards == []
    {
      ghost var d := deck.cards;
      ghost var start := cards;
      var empty := deck.IsEmpty();
      while !empty
        invariant |deck.cards| <= |d| && deck.cards == d[..|deck.cards|]
        invariant cards == start + Reversed(d[|deck.cards|..])
        invariant buffer == old(buffer)
        invariant empty <==> deck.cards == []
        decreases |deck.cards|
      {
        var k := |deck.cards| - 1;
        ReversedStep(d, k, |d|);
        var card := deck.TakeCard();
        cards := cards + [card];
        empty := deck.IsEmpty();
      }
      assert d[|deck.cards|..] == d;
    }

    /**
     * A click on the stock: its last card goes face up onto the waste, or,
     * with the stock empty, the waste is turned face down into the stock
     * in the same order.
     */
    method ShowNextCard()
      modifies this
      ensures Pool(cards, buffer) == ShowNext(old(Pool(cards, buffer)))
    {
      if cards != [] {
        var card := cards[|cards| - 1];
        card := card.(faceUp := true);
        buffer := buffer + [card];
        cards := cards[..|cards| - 1];
      } else {
        var i := 0;
        while i < |buffer|
          invariant 0 <= i <= |buffer|
          invariant cards == Turned(buffer[..i], false) && buffer == old(buffer)
        {
          assert Turned(buffer[..i + 1], false) == Turned(buffer[..i], false) + [buffer[i].(faceUp := false)];
          cards := cards + [buffer[i].(faceUp := false)];
          i := i + 1;
        }
        assert buffer[..i] == buffer;
        buffer := [];
      }
    }
  }

  /** The seven tableau columns (Table). */
  class Table {
    const columns: array<seq<Card>>

    constructor ()
      ensures columns.Length == 7 && fresh(columns)
      ensures forall i :: 0 <= i < 7 ==> columns[i] == []
    {
      columns := new seq<Card>[7](i => []);
    }

    /**
     * Deals from the end of the deck: column i takes i + 1 cards, the last
     * of them turned face up.
     */
    method InitializeTable(deck: MainDeck)
      requires columns.Length == 7 && |deck.cards| >= 28
      modifies columns, deck
      ensures deck.cards == old(deck.cards)[..|old(deck.cards)| - 28]
      ensures forall i :: 0 <= i < 7 ==> columns[i] == old(columns[i]) + Deal(old(deck.cards))[i]
    {
      ghost var d := deck.cards;
      var i := 0;
      while i < 7
        invariant 0 <= i <= 7
        invariant Tri(i) <= 28 && deck.cards == d[..|d| - Tri(i)]
        invariant forall k :: 0 <= k < i ==> columns[k] == old(columns[k]) + Deal(d)[k]
        invariant forall k :: i <= k < 7 ==> columns[k] == old(columns[k])
      {
        TriMonotone(i + 1, 7);
        DealColumn(deck, d, i);
        TriStep(i, i + 1);
        i := i + 1;
      }
    }

    /** The inner loop of initializeTable: column i takes the next i + 1 cards from the deck, the last one face up. */
    method DealColumn(deck: MainDeck, ghost d: seq<Card>, i: nat)
      requires columns.Length == 7 && i < 7 && Tri(i) + i + 1 <= |d|
      requires deck.cards == d[..|d| - Tri(i)]
      modifies columns, deck
      ensures deck.cards == d[..|d| - Tri(i) - i - 1]
      ensures columns[i] == old(columns[i]) + DealtColumn(d, i)
      ensures forall k :: 0 <= k < 7 && k != i ==> columns[k] == old(columns[k])
    {
      ghost var hi := |d| - Tri(i);
      var j := 0;
      while j <= i
        invariant 0 <= j <= i + 1
        invariant deck.cards == d[..hi - j]
        invariant j <= i ==> columns[i] == old(columns[i]) + Reversed(d[hi - j..hi])
        invariant j == i + 1 ==> columns[i] == old(columns[i]) + DealtColumn(d, i)
        invariant forall k :: 0 <= k < 7 && k != i ==> columns[k] == old(columns[k])
      {
        var left := hi - j;
        TakeLast(d, left);
        var card := deck.TakeCard();
        if j == i {
          DealLastCard(d, i, left - 1, left, hi, old(columns[i]), columns[i], card);
          card := card.(faceUp := true);
        } else {
          DealCardStep(d, left - 1, left, hi, old(columns[i]), columns[i], card);
        }
        columns[i] := columns[i] + [card];
        j := j + 1;
      }
    }

    /** Moves the run from row fromRow of one column onto the end of another. */
    method MoveCards(fromColumn: int, fromRow: int, toColumn: int)
      requires columns.Length == 7 && 0 <= fromColumn < 7 && 0 <= toColumn < 7 && fromColumn != toColumn
      requires 0 <= fromRow <= |columns[fromColumn]|
      modifies columns
      ensures columns[..] == MovedRun(old(columns[..]), fromColumn, fromRow, toColumn)
    {
      columns[toColumn] := columns[toColumn] + columns[fromColumn][fromRow..];
      columns[fromColumn] := columns[fromColumn][..fromRow];
    }

    /** Moves the last waste card onto the end of a column. */
    method MoveFromHiddenPool(hiddenPool: HiddenPool, toColumn: int)
      requires columns.Length == 7 && 0 <= toColumn < 7 && hiddenPool.buffer != []
      modifies columns, hiddenPool
      ensures columns[..] == old(columns[..])[toColumn := old(columns[toColumn]) + [Last(old(hiddenPool.buffer))]]
      ensures hiddenPool.buffer == old(hiddenPool.buffer)[..|old(hiddenPool.buffer)| - 1]
      ensures hiddenPool.cards == old(hiddenPool.cards)
    {
      columns[toColumn] := columns[toColumn] + [hiddenPool.buffer[|hiddenPool.buffer| - 1]];
      hiddenPool.buffer := hiddenPool.buffer[..|hiddenPool.buffer| - 1];
    }
  }

  /** The four foundations, one per suit in enum order (HomeCell). */
  class HomeCell {
    const cells: array<seq<Card>>

    constructor ()
      ensures cells.Length == 4 && fresh(cells)
      ensures forall k :: 0 <= k < 4 ==> cells[k] == []
    {
      cells := new seq<Card>[4](k => []);
    }

    method CanPlaceCard(card: Card) returns (ok: bool)
      requires cells.Length == 4
      ensures ok == CanPlace(cells[..], card)
    {
      var cell := cells[SuitIndex(card.suit)];
      if cell == [] {
        ok := card.value == 1;
      } else {
        var top := cell[|cell| - 1];
        ok := top.value == card.value - 1;
      }
    }

    /** Appends the card to the foundation of its own suit. */
    method PlaceCard(card: Card)
      requires cells.Length == 4
      modifies cells
      ensures cells[..] == Placed(old(cells[..]), card)
    {
      var k := SuitIndex(card.suit);
      cells[k] := cells[k] + [card];
    }
  }

  /** The selection globals: what the last press picked up, if anything. */
  class Cursor {
    var held: Option<Selection>

    constructor ()
      ensures held == None
    {
      held := None;
    }
  }

  /** The board the containers hold. */
  function BoardOf(table: Table, pool: HiddenPool, home: HomeCell): Board
    reads table.columns, pool, home.cells
  {
    Board(table.columns[..], Pool(pool.cards, pool.buffer), home.cells[..])
  }

  /** The containers of one game: seven columns and four foundations in two different arrays. */
  predicate Separate(table: Table, home: HomeCell) {
    table.columns.Length == 7 && home.cells.Length == 4 && table.columns != home.cells
  }

  /**
   * The move of an accepted column drop: the selected run goes over by
   * Table::moveCards and the card above it is turned, face up after a
   * drop on a card, toggled after a King's drop on an empty column; or the
   * waste card goes over by Table::moveFromHiddenPool.
   */
  method MoveToColumn(table: Table, pool: HiddenPool, home: HomeCell, sel: Selection, i: int, onEmpty: bool)
    requires Separate(table, home) && 0 <= i < 7 && onEmpty == (table.columns[i] == [])
    requires ValidSelection(BoardOf(table, pool, home), sel) && !(sel.Tableau? && sel.col == i)
    modifies table.columns, pool
    ensures BoardOf(table, pool, home) == ColumnDrop(old(BoardOf(table, pool, home)), sel, i)
  {
    if sel.Tableau? {
      table.MoveCards(sel.col, sel.row, i);
      if sel.row > 0 {
        var above := table.columns[sel.col][sel.row - 1];
        if onEmpty {
          above := FaceToggle(above);
        } else {
          above := above.(faceUp := true);
        }
        table.columns[sel.col] := table.columns[sel.col][sel.row - 1 := above];
      }
    } else {
      table.MoveFromHiddenPool(pool, i);
    }
  }

  /**
   * The move of an accepted foundation drop: the card goes onto the
   * foundation of its suit by HomeCell::placeCard and leaves the waste, or
   * leaves its column, whose new last card is turned face up if it lay
   * face down.
   */
  method MoveToFoundation(table: Table, pool: HiddenPool, home: HomeCell, sel: Selection, card: Card)
    requires Separate(table, home)
    requires ValidSelection(BoardOf(table, pool, home), sel) && card == Selected(BoardOf(table, pool, home), sel)
    modifies table.columns, pool, home.cells
    ensures BoardOf(table, pool, home) == FoundationDrop(old(BoardOf(table, pool, home)), sel)
  {
    home.PlaceCard(card);
    if sel.Tableau? {
      var c, r := sel.col, sel.row;
      var rest := table.columns[c][..r];
      table.columns[c] := rest;
      if r > 0 && !table.columns[c][r - 1].faceUp {
        table.columns[c] := table.columns[c][r - 1 := FaceToggle(table.columns[c][r - 1])];
      }
      assert table.columns[c] == Exposed(rest);
    } else {
      pool.buffer := pool.buffer[..|pool.buffer| - 1];
    }
  }

  /**
   * The release branch of the mouse handler. With nothing selected nothing
   * happens. Otherwise the columns are tried in order, then the
   * foundations; the first target that is hit and accepts the selection
   * receives it, and the selection is cleared either way.
   */
  method ReleaseMouse(table: Table, pool: HiddenPool, home: HomeCell, cursor: Cursor, target: DropTarget)
    returns (moved: bool)
    requires Separate(table, home) && ValidTarget(target)
    requires cursor.held.Some? ==> ValidSelection(BoardOf(table, pool, home), cursor.held.value)
    modifies table.columns, pool, home.cells, cursor
    ensures cursor.held == None
    ensures old(cursor.held).None? ==> !moved && BoardOf(table, pool, home) == old(BoardOf(table, pool, home))
    ensures old(cursor.held).Some? ==>
      && moved == Accepts(old(BoardOf(table, pool, home)), old(cursor.held).value, target)
      && BoardOf(table, pool, home) == Release(old(BoardOf(table, pool, home)), old(cursor.held).value, target)
  {
    moved := false;
    if cursor.held.None? {
      return;
    }
    var sel := cursor.held.value;
    ghost var b := BoardOf(table, pool, home);
    var card := if sel.Buffer? then pool.buffer[|pool.buffer| - 1] else table.columns[sel.col][sel.row];
    var i := 0;
    while i < 7 && !moved
      invariant 0 <= i <= 7 && cursor.held == Some(sel)
      invariant !moved ==> BoardOf(table, pool, home) == b
      invariant !moved && target.Column? && target.i < i ==> !ColumnAccepts(b, sel, target.i)
      invariant moved ==> target.Column? && ColumnAccepts(b, sel, target.i)
      invariant moved ==> BoardOf(table, pool, home) == ColumnDrop(b, sel, target.i)
    {
      if !(sel.Tableau? && i == sel.col) && target == Column(i) {
        var column := table.columns[i];
        if column != [] {
          var top := column[|column| - 1];
          if top.value - card.value == 1 && SuitReliable(card, top) {
            MoveToColumn(table, pool, home, sel, i, false);
            moved := true;
          }
        } else if card.value == 13 {
          MoveToColumn(table, pool, home, sel, i, true);
          moved := true;
        }
      }
      i := i + 1;
    }
    if !moved {
      var k := 0;
      while k < 4 && !moved
        invariant 0 <= k <= 4 && cursor.held == Some(sel)
        invariant !moved ==> BoardOf(table, pool, home) == b
        invariant !moved && target.Foundation? && target.k < k ==> !FoundationAccepts(b, sel)
        invariant moved ==> target.Foundation? && FoundationAccepts(b, sel)
        invariant moved ==> BoardOf(table, pool, home) == FoundationDrop(b, sel)
      {
        if target == Foundation(k) {
          var fits := home.CanPlaceCard(card);
          if fits && (sel.Buffer? || sel.row == |table.columns[sel.col]| - 1) {
            MoveToFoundation(table, pool, home, sel, card);
            moved := true;
          }
        }
        k := k + 1;
      }
    }
    cursor.held := None;
  }

  /**
   * The set-up of main(): a deck built and shuffled with the given picks,
   * dealt onto a fresh table, the rest taken into the stock.
   */
  method NewGame(picks: seq<int>) returns (deck: MainDeck, pool: HiddenPool, table: Table, home: HomeCell)
    requires ValidPicks(picks, 52)
    ensures Separate(table, home) && deck.cards == []
    ensures BoardOf(table, pool, home) == InitialBoard(picks)
  {
    deck := new MainDeck();
    deck.InitializeDeck(picks);
    ghost var d := deck.cards;
    table := new Table();
    table.InitializeTable(deck);
    pool := new HiddenPool();
    pool.InitializeHiddenPool(deck);
    home := new HomeCell();
    InitialBoardIs(picks, d);
    DealtBoardIs(d, table.columns[..], pool.cards, home.cells[..]);
  }
}
