# Klondike solitaire: card model and move rules

This project models the game state of a raylib Klondike solitaire and the rules that change it. The game state is:

- a 52-card deck (`MainDeck`);
- the hidden pool, which holds the stock `cards` and the waste `buffer`;
- the tableau of seven columns (`Table`);
- the four foundations, one per suit (`HomeCell`).

The rules are:

- building, shuffling and dealing the deck;
- turning the stock over onto the waste, and recycling the waste;
- moving runs between columns;
- filling the foundations;
- what happens when the player releases a dragged selection over a drop target.

Modules:

- `Cards` (cards.dfy) defines the card, its suit and its sprite-sheet cell. It also holds the red/black alternation test and the face toggle.
- `Rules` (rules.dfy) describes the containers of `src/main.cpp` as values:
  - `StandardDeck` is the built deck.
  - `Shuffled` is the shuffle, written as a Fisher–Yates shuffle over explicit random picks.
  - `Deal` and `DealtBoard` are the opening layout.
  - `ShowNext` is one click on the stock.
  - `MovedRun` and `FromWaste` are the tableau moves.
  - `CanPlace` and `Placed` are the foundation rules.

  It also proves what these keep. Every card stays on the board exactly once, counted as a multiset of (suit, value). Every foundation stays a run 1..k of its own suit.
- `Moves` (moves.dfy) covers the release branch of `CheckMouseInput`:
  - The selection globals `selectedCard`/`selectedColumn`/`selectedRow` become the value `Buffer | Tableau(col, row)`.
  - The screen hit-testing becomes an explicit `DropTarget`: `Column(i) | Foundation(k) | Nothing`.
  - `Release` is the effect of a release on the board.

  The module proves when a release is accepted, what it changes, that it loses no card, and that it keeps the board in play. Here "in play" means two things. In every column, face-down cards lie above a face-up run that descends and alternates colour. The waste holds only face-up cards. The module also models the foundation drop as the source writes it, and exhibits its defects (see Findings).
- `Game` (game.dfy) models the classes of `src/main.cpp` as Dafny classes whose methods update their fields in place. Each method is proved to compute the matching `Rules` or `Moves` function, so every property proved there holds of the running state:
  - `ReleaseMouse` is the release branch over these objects and a `Cursor` that holds the selection.
  - `NewGame` is the set-up in `main()`.
- `DeckUnit` (deck_unit.dfy) models `src/Deck.cpp`, a second, divergent copy of the classes that `main.cpp` does not include:
  - its `takeCard` hands out a blank card when the deck is empty;
  - its `moveCardToColumn` moves a single card;
  - its hidden pool is one pile with `AddCard`/`DrawCard`.

Design decisions:

- Randomness is a parameter. The shuffle takes a sequence `picks` with `0 <= picks[i] <= i`. At step i it exchanges position i with position `picks[i]`, the forward Fisher–Yates loop of libstdc++'s `std::shuffle`. Every run of the random engine is one such sequence; the converse does not hold, since an engine seeded with a single 32-bit value yields far fewer than 52! shuffles. The result is proved to be a permutation for every sequence.
- The face toggle at `src/main.cpp:443` is modelled as written. A King moved to an empty column toggles the card it uncovers rather than setting it face up. `Moves.KingLiesOnFaceDown` proves that on a column in play a King never lies on a face-up card. So the toggle always turns that card face up, and `Moves.SourceStaysValid` uses this.
- "In play" is kept by the whole game, not only by releases. `Moves.ShowNextKeepsInPlay` covers a click on the stock and `Moves.ReleaseKeepsInPlay` a release. Both keep every card on the board, so the board keeps holding only real cards (values 1 to 13). `Moves.GameKeepsDeckAndInPlay` combines them: from the opening position, after any sequence of clicks and drops, the board holds the 52 cards of the standard deck exactly once each and is in play.
- The foundation test looks only at `cells[card.suit]`, whichever slot was hit; the slot's own suit is never checked.
- `takeCard` in `src/main.cpp` has no empty-deck check, so `Game.MainDeck.TakeCard` requires a non-empty deck.
- A click on an empty stock turns the waste back into the stock in the same order, not reversed.
- The release that the classes run (`Moves.Release`, `Game.ReleaseMouse`) is the corrected one: a foundation takes a single card only, and the card above the removed one is turned only when the column still has one. The release exactly as written is `Moves.ReleaseAsWritten`; the two differ only on foundation drops (see Findings and Left out).

## Model

| member | source | states |
|---|---|---|
| `Cards.FaceToggle` | src/main.cpp:29-35 | the card's orientation is reversed; suit, value and sheet rectangle are unchanged |
| `Cards.SuitReliable` | src/main.cpp:37-84 | the sixteen-case table holds exactly when one card is red (hearts, diamonds) and the other black; hence it is symmetric and false for equal suits |
| `Cards.CardRectangleLocatesCell` | src/main.cpp:86-90 | for value 1..13 the rectangle is a whole 225-by-315 cell inside the 13-by-4 sheet, at column value-1 and the suit's row |
| `Cards.CardRectangleInjective` | src/main.cpp:86-90 | distinct (suit, value) pairs with value 1..13 get distinct sheet cells |
| `Rules.DeckUpToIsStandard` | src/main.cpp:98-104 | the nested suit/value loops push exactly the standard deck, card i being value i%13+1 of suit i/13 |
| `Rules.StandardDeckContents` | src/main.cpp:97-104 | the built deck has 52 face-down cards and holds each (suit, value 1..13) exactly once and nothing else |
| `Rules.ShuffledFromIsPermutation` | src/main.cpp:108-112 | the shuffle is a permutation of the deck (same multiset of cards, orientation included) |
| `Rules.ShuffledFromKeepsIds` | src/main.cpp:108-112 | the shuffle keeps the multiset of (suit, value) identities |
| `Rules.DealtColumnShape` | src/main.cpp:184-195 | column i is dealt i+1 cards, the last one face up and the others as they lay in the deck |
| `Rules.DealKeepsCards` | src/main.cpp:184-195 | dealing moves exactly the last 28 cards of the deck into the columns, losing and duplicating none |
| `Rules.DealtBoardLayout` | src/main.cpp:184-195 | from a face-down deck: column i has i+1 cards with only the last face up, the stock holds the other cards face down, waste and foundations are empty |
| `Rules.DealtBoardCards` | src/main.cpp:129-135 | the dealt columns plus the stock (the rest of the deck, reversed) hold exactly the cards of the deck |
| `Rules.InitialBoardLayout` | src/main.cpp:285-291 | the opening position: column i has i+1 cards, only the last face up; 24 face-down cards in the stock; empty waste and foundations |
| `Rules.InitialBoardCards` | src/main.cpp:285-291 | the opening position holds the 52 cards of the standard deck, each once |
| `Rules.ShowNextCases` | src/main.cpp:137-156 | a click with a non-empty stock moves its last card face up onto the end of the waste; with an empty stock the waste becomes the stock in the same order, face down, and the waste empties; with both empty nothing changes |
| `Rules.ShowNextKeepsCards` | src/main.cpp:137-156 | a click keeps the total size of stock and waste and the multiset of their cards |
| `Rules.ShowNextDrawsWholeStock` | src/main.cpp:137-147 | as many clicks as the stock has cards turn the whole stock, last card first, face up onto the waste |
| `Rules.FullPassReversesStock` | src/main.cpp:137-156 | a full pass (every card drawn, then one recycle) returns a face-down stock in reverse order with an empty waste |
| `Rules.TwoPassesRestoreStock` | src/main.cpp:137-156 | two full passes bring the stock back to its starting order |
| `Rules.MovedRunKeepsCards` | src/main.cpp:215-221 | moving the run f[r..] onto column t keeps the tableau's cards: the source loses exactly what the target gains |
| `Rules.FromWasteKeepsCards` | src/main.cpp:223-227 | moving the last waste card onto a column keeps every card on the board |
| `Rules.UncoverToggleAgrees` | src/main.cpp:437-444 | toggling the uncovered card and setting it face up agree exactly when that card lies face down |
| `Rules.CanPlaceIsNextValue` | src/main.cpp:247-255 | on valid foundations a card is accepted exactly when its value is one more than the size of its suit's foundation (an Ace on an empty one) |
| `Rules.PlacedKeepsFoundations` | src/main.cpp:257-261 | placing an accepted card keeps every foundation the same-suit run 1..k |
| `Rules.PlacedKeepsCards` | src/main.cpp:257-261 | placing a card adds exactly that card to the foundations, on its own suit's cell |
| `Moves.SelectedOnBoard` | src/main.cpp:264-266 | the card the selection points at is a card of the board, and on a board in play a selection the press can make is face up |
| `Moves.Exposed` | src/main.cpp:469-473 | the pile left above a removed card keeps its cards, with its new last card turned face up |
| `Moves.ColumnDropResult` | src/main.cpp:407-454 | an accepted column drop appends the carried cards to the target; the waste card leaves the waste, or the run leaves its column, whose card above is set face up (toggled after a drop on an empty column); nothing else changes |
| `Moves.FoundationDropResult` | src/main.cpp:456-482 | (corrected) an accepted foundation drop appends the card to its own suit's foundation and removes it from the waste or from its column, whose new last card is face up; nothing else changes |
| `Moves.ReleaseChangesIffAccepted` | src/main.cpp:404-489 | (corrected release) a release changes the board exactly when the drop is accepted; a refused drop changes no container |
| `Moves.ReleaseOntoColumn` | src/main.cpp:409-430 | onto a non-empty other column a selection is accepted iff the column's last value is the selected value + 1 and the colours differ; the column then ends with the carried cards |
| `Moves.ReleaseOntoEmptyColumn` | src/main.cpp:431-451 | an empty column accepts exactly a King, which arrives with the cards below it |
| `Moves.ReleaseOntoOwnColumn` | src/main.cpp:407-408 | a release over the run's own column, or over nothing, changes nothing |
| `Moves.ReleaseOntoFoundation` | src/main.cpp:456-482 | (corrected: the source also accepts a run, see Findings) a foundation drop is accepted iff the selection is a single card whose value is next on its suit's foundation, whichever slot was hit; it is appended there and the foundations stay valid |
| `Moves.ReleaseKeepsCards` | src/main.cpp:404-489 | (corrected release) every release keeps the multiset of all cards on the board (tableau, stock, waste, foundations) |
| `Moves.KingLiesOnFaceDown` | src/main.cpp:436-444 | on a column in play the card above a King is face down, so the toggle turns it face up |
| `Moves.SourceStaysValid` | src/main.cpp:419-444 | the column a run leaves stays in play, on both the set-face-up and the toggle path |
| `Moves.ReleaseKeepsInPlay` | src/main.cpp:404-489 | (corrected release) every release of a face-up selection keeps each column a face-down prefix under a built face-up run, and the waste face up |
| `Moves.InitialBoardInPlay` | src/main.cpp:285-291 | the opening position is in play |
| `Moves.ShowNextKeepsInPlay` | src/main.cpp:137-156 | on a board in play holding only real cards, a click on the stock keeps every card and keeps the board in play |
| `Moves.PlayKeepsInPlay` | src/main.cpp:344-489 | any sequence of stock clicks and drops of pressable selections keeps every card on the board and keeps it in play |
| `Moves.GameKeepsDeckAndInPlay` | src/main.cpp:285-323 | from the opening position of any shuffle, after any sequence of clicks and drops, the board holds the 52 standard cards once each and is in play |
| `Moves.ReleaseAsWritten` | src/main.cpp:456-482 | the release as written differs from `Release` only on foundation drops, where it tests `canPlaceCard` alone |
| `Moves.AsWrittenAgreesOnSingleCards` | src/main.cpp:462-476 | for the waste card, or a column's last card with cards above it, the as-written drop equals the corrected one |
| `Moves.AsWrittenLosesCards` | src/main.cpp:465-468 | a run with cards below the selected one, dropped on a foundation as written, loses those cards from the board |
| `Moves.AsWrittenUndefinedAtRowZero` | src/main.cpp:469-473 | a column's first card dropped on a foundation as written reads index -1 exactly when `canPlaceCard` accepts it |
| `Moves.LossExampleLosesCard` | src/main.cpp:465-468 | a concrete position in play where the as-written drop loses a card and `Release` refuses the drop |
| `Moves.TopToFoundationKeepsCards` | src/main.cpp:463-476 | (corrected) the drop of a column's last card, including its only card, keeps every card on the board |
| `Game.MainDeck.InitializeDeck` | src/main.cpp:97-106 | the deck becomes the standard deck appended to its old cards, shuffled by the picks |
| `Game.MainDeck.PushSuit` | src/main.cpp:99-103 | the inner loop appends values 1..13 of one suit, face down, rectangles set |
| `Game.MainDeck.ShuffleDeck` | src/main.cpp:108-112 | the deck becomes `Shuffled(old deck, picks)` |
| `Game.MainDeck.TakeCard` | src/main.cpp:114-118 | on a non-empty deck, returns the last card and removes it |
| `Game.MainDeck.IsEmpty` | src/main.cpp:120 | true exactly when the deck has no cards |
| `Game.HiddenPool.InitializeHiddenPool` | src/main.cpp:129-135 | the stock gains the deck's cards in reverse order; the deck ends empty; the waste is untouched |
| `Game.HiddenPool.ShowNextCard` | src/main.cpp:137-156 | the new (stock, waste) is `ShowNext` of the old |
| `Game.Table.InitializeTable` | src/main.cpp:184-195 | column i gains `Deal(deck)[i]`; the deck loses its last 28 cards |
| `Game.Table.DealColumn` | src/main.cpp:187-193 | one column takes its i+1 cards from the end of the deck, the last face up; other columns unchanged |
| `Game.Table.MoveCards` | src/main.cpp:215-221 | the columns become `MovedRun`: target = old target ++ old source[r..], source = old source[..r], others unchanged |
| `Game.Table.MoveFromHiddenPool` | src/main.cpp:223-227 | the last waste card is appended to the column and removed from the waste; the stock and other columns are unchanged |
| `Game.HomeCell.CanPlaceCard` | src/main.cpp:247-255 | returns `CanPlace(cells, card)` |
| `Game.HomeCell.PlaceCard` | src/main.cpp:257-261 | the cells become `Placed(cells, card)`: the card appended to its own suit's cell |
| `Game.Cursor.constructor` | src/main.cpp:264-266 | the selection starts empty |
| `Game.MoveToColumn` | src/main.cpp:419-450 | the in-place move of an accepted column drop computes `ColumnDrop` |
| `Game.MoveToFoundation` | src/main.cpp:463-476 | (corrected) the in-place foundation move computes `FoundationDrop` |
| `Game.ReleaseMouse` | src/main.cpp:404-489 | (corrected release) with a selection, the board becomes `Release(board, selection, target)` and the result says whether it was accepted; with none, nothing changes; the selection is cleared either way |
| `Game.NewGame` | src/main.cpp:285-291 | the set-up of main() leaves the board `InitialBoard(picks)` and the deck empty |
| `DeckUnit.GetCardRectangle` | src/Deck.cpp:29-33 | only the rectangle changes; with 225-by-315 cells it is the main.cpp sheet cell |
| `DeckUnit.GetCardRectangleInjective` | src/Deck.cpp:45 | with the 225-by-315 cells initializeDeck passes, distinct real cards get distinct rectangles |
| `DeckUnit.ShortDeckDeal` | src/Deck.cpp:73-85 | dealing from fewer than 28 cards puts all of them on the table plus one blank card per missing card |
| `DeckUnit.MovedCardShape` | src/Deck.cpp:106-110 | moving a card to another column: the source keeps its other cards in order, the target gains the card at its end, the others are unchanged |
| `DeckUnit.MovedCardToItself` | src/Deck.cpp:106-110 | moving a card onto its own column takes it out and puts it back at the end |
| `DeckUnit.MovedCardKeepsCards` | src/Deck.cpp:106-110 | moving a card loses and duplicates no card |
| `DeckUnit.MovedCardIsMovedRun` | src/Deck.cpp:106-110 | moving a column's last card equals main.cpp's run move of a one-card run |
| `DeckUnit.DrawAfterAdd` | src/Deck.cpp:125-131 | DrawCard after AddCard(c) returns c and restores the pile |
| `DeckUnit.MainDeck.InitializeDeck` | src/Deck.cpp:40-50 | the deck becomes the standard deck appended to its old cards, shuffled by the picks |
| `DeckUnit.MainDeck.PushSuit` | src/Deck.cpp:42-47 | the inner loop appends values 1..13 of one suit, face down, with getCardRectangle cells |
| `DeckUnit.MainDeck.ShuffleDeck` | src/Deck.cpp:52-56 | the deck becomes `Shuffled(old deck, picks)` |
| `DeckUnit.MainDeck.TakeCard` | src/Deck.cpp:58-66 | a non-empty deck loses and returns its last card; an empty deck stays empty and returns the blank card (hearts, value 0, face down) |
| `DeckUnit.Table.InitializeTable` | src/Deck.cpp:73-85 | column i gains `Deal` of the deck padded with blank cards to 28; with 28 or more cards the deck loses exactly its last 28 |
| `DeckUnit.Table.DealColumn` | src/Deck.cpp:77-83 | one column takes its i+1 cards, the last face up |
| `DeckUnit.Table.DealCard` | src/Deck.cpp:78-82 | one card is taken from the deck, turned up if it is the column's last, and pushed |
| `DeckUnit.Table.MoveCardToColumn` | src/Deck.cpp:106-110 | the columns become `MovedCard`: the card at row r erased from column c and appended to column t |
| `DeckUnit.HiddenPool.InitializeHiddenPool` | src/Deck.cpp:118-123 | the pile gains the deck's cards in reverse order and the deck ends empty |
| `DeckUnit.HiddenPool.AddCard` | src/Deck.cpp:125 | the card is appended to the pile |
| `DeckUnit.HiddenPool.DrawCard` | src/Deck.cpp:127-131 | on a non-empty pile, returns and removes the last card |

## Left out

- Game.ReleaseMouse, Moves.Release: both compute the corrected release, not the one in src/main.cpp:456-482. There, a foundation accepts a selection whatever lies below it and erases the whole run `columns[c][r..]`; here it takes only a waste card or a column's last card. There, `columns[c][selectedRow - 1]` is read with no `selectedRow > 0` guard; here a column's only card leaves an empty column. The as-written behaviour is `Moves.ReleaseAsWritten`, with the lemmas of Findings.
- Rendering is left out. This covers `drawCard`, `drawTable`, `drawHiddenPool`, `drawHomeCells` and `DrawWastePile`, texture loading, and the window, menu and frame loop of `main` with its `GameState`. These are calls into raylib.
- Screen geometry is left out. This covers card positions and `cardSize`, `refreshPositions` and `refreshCardPosition`, and the drag-follow code (src/main.cpp:388-402). Positions are floats, and after every release they are recomputed from the containers.
- Hit-testing with `CheckCollisionPointRec` is replaced by one explicit `DropTarget`. Overlapping hit regions, for example after a window resize, are not modelled.
- The press branch of `CheckMouseInput` (src/main.cpp:347-386) is not modelled as such. Its click on the stock is `ShowNextCard`. Its selection is the `Selection` value that the `Cursor` holds and that `Moves.Pressable` constrains. Pressing the waste region while the waste is empty reads `buffer.back()` of an empty vector; the model instead requires a non-empty waste for a `Buffer` selection.
- The random engine of `shuffleDeck` (`std::random_device`, `std::mt19937`) becomes the `picks` parameter. Every engine run is some valid picks sequence, but not conversely, and the model does not prove that every permutation of the deck can arise from some picks.
- The debug output to `std::cout` is left out.
- The sheet rectangle is stored as floats in the source and as integers here. Every value it takes (multiples of 225 and 315 up to 2835) is exact in a float.
- `Cards.SetCardRectangle` and `Cards.CardRectangle` carry no contract of their own. Their properties are stated by `Cards.CardRectangleLocatesCell` and `Cards.CardRectangleInjective`.

## Findings

| source | as written | input that shows it | evidently intended | confidence | as-written member | corrected member |
|---|---|---|---|---|---|---|
| src/main.cpp:465-468 | a foundation drop places one card but erases the whole run `columns[c][r..]` | column 0 holds a face-down K♠, a face-up 2♥ and a face-up A♣; the hearts foundation holds A♥; the player drops the 2♥ (row 1) on a foundation. The A♣ vanishes. | only the last card of a column goes to a foundation, and only that card leaves the column | high (not executed) | `Moves.LossExampleLosesCard` | `Moves.ReleaseKeepsCards` |
| src/main.cpp:469 | after the erase it reads `columns[c][selectedRow - 1]` with no `selectedRow > 0` guard | a column holding only an Ace, dropped on its empty foundation: row 0 reads index -1 | turn up the new last card only when the column still has one | high (not executed) | `Moves.AsWrittenUndefinedAtRowZero` | `Moves.TopToFoundationKeepsCards` |
