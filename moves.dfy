/**
 * The release branch of the mouse handler: what happens to the board when
 * the player lets go of a selected card (or run of cards) over a drop
 * target. The press that made the selection and the hit-testing of screen
 * rectangles are abstracted: the selection is a value, and the target under
 * the cursor is given as a DropTarget.
 */
module Moves {
  import opened Cards
  import opened Rules

  /**
   * What the press selected: the last waste card (`selectedColumn == -1`),
   * or the card at `row` of tableau column `col` together with every card
   * below it.
   */
  datatype Selection = Buffer | Tableau(col: int, row: int)

  /** What lies under the cursor on release: a tableau column, a foundation slot, or neither. */
  datatype DropTarget = Column(i: int) | Foundation(k: int) | Nothing

  /**
   * A selection the press can make: the waste card needs a non-empty waste
   * (the source reads `buffer.back()`), a tableau selection a card that exists.
   */
  predicate ValidSelection(b: Board, sel: Selection)
    requires WellFormed(b)
  {
    match sel
    case Buffer => b.pool.buffer != []
    case Tableau(c, r) => 0 <= c < 7 && 0 <= r < |b.columns[c]|
  }

  predicate ValidTarget(t: DropTarget) {
    match t
    case Column(i) => 0 <= i < 7
    case Foundation(k) => 0 <= k < 4
    case Nothing => true
  }

  function Last(s: seq<Card>): Card
    requires s != []
  {
    s[|s| - 1]
  }

  /** The card the selection points at (`*selectedCard`). */
  function Selected(b: Board, sel: Selection): (c: Card)
    requires WellFormed(b) && ValidSelection(b, sel)
    ensures sel.Buffer? ==> c == b.pool.buffer[|b.pool.buffer| - 1]
    ensures sel.Tableau? ==> c == b.columns[sel.col][sel.row]
  {
    match sel
    case Buffer => Last(b.pool.buffer)
    case Tableau(c, r) => b.columns[c][r]
  }

  /** The cards a successful drop carries: the waste card alone, or the run from the selected row down. */
  function Carried(b: Board, sel: Selection): (run: seq<Card>)
    requires WellFormed(b) && ValidSelection(b, sel)
    ensures run != [] && run[0] == Selected(b, sel)
  {
    match sel
    case Buffer => [Last(b.pool.buffer)]
    case Tableau(c, r) => b.columns[c][r..]
  }

  /**
   * The column test of the release loop: never the column the selection
   * came from; on a non-empty column the selected card must be one below the
   * column's last card and of the other colour; an empty column takes only a King.
   */
  predicate ColumnAccepts(b: Board, sel: Selection, i: int)
    requires WellFormed(b) && ValidSelection(b, sel) && 0 <= i < 7
  {
    var card := Selected(b, sel);
    && !(sel.Tableau? && sel.col == i)
    && if b.columns[i] != [] then
         Last(b.columns[i]).value - card.value == 1 && SuitReliable(card, Last(b.columns[i]))
       else
         card.value == 13
  }

  /**
   * The foundation test: the card must be the next one of its suit's
   * foundation, whichever slot was hit. A tableau selection must also be
   * the last card of its column, since one card goes up at a time.
   */
  predicate FoundationAccepts(b: Board, sel: Selection)
    requires WellFormed(b) && ValidSelection(b, sel)
  {
    && CanPlace(b.cells, Selected(b, sel))
    && (sel.Tableau? ==> sel.row == |b.columns[sel.col]| - 1)
  }

  predicate Accepts(b: Board, sel: Selection, t: DropTarget)
    requires WellFormed(b) && ValidSelection(b, sel) && ValidTarget(t)
  {
    match t
    case Column(i) => ColumnAccepts(b, sel, i)
    case Foundation(_) => FoundationAccepts(b, sel)
    case Nothing => false
  }

  /**
   * An accepted drop on column i: the waste card moves over
   * (Table::moveFromHiddenPool), or the selected run does (Table::moveCards)
   * and the card it uncovers is turned up; after a King's move to an empty
   * column that card is toggled rather than set face up.
   */
  function ColumnDrop(b: Board, sel: Selection, i: int): Board
    requires WellFormed(b) && ValidSelection(b, sel) && 0 <= i < 7
    requires !(sel.Tableau? && sel.col == i)
  {
    match sel
    case Buffer => FromWaste(b, i)
    case Tableau(c, r) =>
      var moved := MovedRun(b.columns, c, r, i);
      if r > 0 then b.(columns := moved[c := Uncover(moved[c], r - 1, b.columns[i] == [])])
      else b.(columns := moved)
  }

  /**
   * An accepted drop on a foundation: the card joins the foundation of its
   * suit (HomeCell::placeCard) and leaves the waste, or leaves its column,
   * where the card above it is turned face up.
   */
  function FoundationDrop(b: Board, sel: Selection): Board
    requires WellFormed(b) && ValidSelection(b, sel)
  {
    var cells := Placed(b.cells, Selected(b, sel));
    match sel
    case Buffer =>
      var w := b.pool.buffer;
      b.(pool := b.pool.(buffer := w[..|w| - 1]), cells := cells)
    case Tableau(c, r) =>
      b.(columns := b.columns[c := Exposed(b.columns[c][..r])], cells := cells)
  }

  /** A pile whose new last card, if any, is turned face up (the card a foundation drop uncovers). */
  function Exposed(rest: seq<Card>): (r: seq<Card>)
    ensures |r| == |rest| && Ids(r) == Ids(rest)
    ensures forall j :: 0 <= j < |rest| - 1 ==> r[j] == rest[j]
    ensures rest != [] ==> r[|r| - 1] == Last(rest).(faceUp := true)
  {
    if rest == [] then [] else
      UncoverKeepsIds(rest, |rest| - 1, false);
      Uncover(rest, |rest| - 1, false)
  }

  /** The board after the mouse is released with a selection over a target; a refused drop changes nothing. */
  function Release(b: Board, sel: Selection, t: DropTarget): Board
    requires WellFormed(b) && ValidSelection(b, sel) && ValidTarget(t)
  {
    if !Accepts(b, sel, t) then b
    else if t.Column? then ColumnDrop(b, sel, t.i)
    else FoundationDrop(b, sel)
  }

  // ---------------------------------------------------------------------
  // What a release keeps and what it changes
  // ---------------------------------------------------------------------

  lemma ReleaseKeepsShape(b: Board, sel: Selection, t: DropTarget)
    requires WellFormed(b) && ValidSelection(b, sel) && ValidTarget(t)
    ensures WellFormed(Release(b, sel, t))
    ensures Release(b, sel, t).pool.cards == b.pool.cards
  {
  }

  /** Pure bookkeeping of a card leaving the waste for a foundation. */
  lemma WasteAlgebra(cols: multiset<CardId>, stock: multiset<CardId>, waste: multiset<CardId>,
                     waste': multiset<CardId>, cells: multiset<CardId>, cells': multiset<CardId>,
                     x: multiset<CardId>)
    requires waste == waste' + x && cells' == cells + x
    ensures cols + stock + waste' + cells' == cols + stock + waste + cells
  {
    forall id ensures (cols + stock + waste' + cells')[id] == (cols + stock + waste + cells)[id] {
      assert waste[id] == (waste' + x)[id];
      assert cells'[id] == (cells + x)[id];
    }
  }

  /** Pure bookkeeping of a card leaving the tableau for a foundation. */
  lemma TableauAlgebra(cols: multiset<CardId>, cols': multiset<CardId>, stock: multiset<CardId>,
                       waste: multiset<CardId>, cells: multiset<CardId>, cells': multiset<CardId>,
                       x: multiset<CardId>)
    requires cols' + x == cols && cells' == cells + x
    ensures cols' + stock + waste + cells' == cols + stock + waste + cells
  {
    forall id ensures (cols' + stock + waste + cells')[id] == (cols + stock + waste + cells)[id] {
      assert (cols' + x)[id] == cols[id];
      assert cells'[id] == (cells + x)[id];
    }
  }

  /** The tableau after a run moves and the card above it is turned holds the same cards. */
  lemma ColumnDropKeepsColumns(b: Board, c: int, r: int, i: int)
    requires WellFormed(b) && 0 <= c < 7 && 0 <= i < 7 && c != i && 0 <= r < |b.columns[c]|
    ensures ColumnsIds(ColumnDrop(b, Tableau(c, r), i).columns) == ColumnsIds(b.columns)
  {
    var moved := MovedRun(b.columns, c, r, i);
    MovedRunKeepsCards(b.columns, c, r, i);
    if r > 0 {
      var x := Uncover(moved[c], r - 1, b.columns[i] == []);
      UncoverKeepsIds(moved[c], r - 1, b.columns[i] == []);
      ColumnsIdsSameCards(moved, c, x);
    }
  }

  /** A drop onto a column keeps every card on the board. */
  lemma ColumnDropKeepsCards(b: Board, sel: Selection, i: int)
    requires WellFormed(b) && ValidSelection(b, sel) && 0 <= i < 7
    requires !(sel.Tableau? && sel.col == i)
    ensures AllIds(ColumnDrop(b, sel, i)) == AllIds(b)
  {
    match sel
    case Buffer => FromWasteKeepsCards(b, i);
    case Tableau(c, r) => ColumnDropKeepsColumns(b, c, r, i);
  }

  /** Pure bookkeeping of a pile that loses its top card and is replaced by one with the other cards. */
  lemma TopAlgebra(after: multiset<CardId>, before: multiset<CardId>, col: multiset<CardId>,
                   rest: multiset<CardId>, x: multiset<CardId>, top: multiset<CardId>)
    requires after + col == before + x && col == rest + top && x == rest
    ensures after + top == before
  {
    forall id ensures (after + top)[id] == before[id] {
      assert (after + col)[id] == (before + x)[id];
    }
  }

  lemma IdsLast(s: seq<Card>, r: int)
    requires 0 <= r == |s| - 1
    ensures Ids(s) == Ids(s[..r]) + multiset{Id(s[r])}
  {
  }

  /** A pile whose top card (at r) leaves, replaced by x holding the other cards, takes just that card off the row. */
  lemma TopCardLeaves(cols: seq<seq<Card>>, c: int, r: int, x: seq<Card>)
    requires 0 <= c < |cols| && 0 <= r == |cols[c]| - 1 && Ids(x) == Ids(cols[c][..r])
    ensures ColumnsIds(cols[c := x]) + multiset{Id(cols[c][r])} == ColumnsIds(cols)
  {
    IdsLast(cols[c], r);
    ColumnsIdsUpdate(cols, c, x);
    TopAlgebra(ColumnsIds(cols[c := x]), ColumnsIds(cols), Ids(cols[c]), Ids(cols[c][..r]), Ids(x),
      multiset{Id(cols[c][r])});
  }

  /** The waste card going up to its foundation keeps every card on the board. */
  lemma WasteToFoundationKeepsCards(b: Board)
    requires WellFormed(b) && b.pool.buffer != []
    ensures AllIds(FoundationDrop(b, Buffer)) == AllIds(b)
  {
    var w := b.pool.buffer;
    var card := Last(w);
    var b' := FoundationDrop(b, Buffer);
    PlacedKeepsCards(b.cells, card);
    assert w == w[..|w| - 1] + [card];
    IdsSnoc(w[..|w| - 1], card);
    WasteAlgebra(ColumnsIds(b.columns), Ids(b.pool.cards), Ids(w), Ids(b'.pool.buffer),
      ColumnsIds(b.cells), ColumnsIds(b'.cells), multiset{Id(card)});
  }

  /** The last card of column c going up to its foundation keeps every card on the board. */
  lemma TopToFoundationKeepsCards(b: Board, c: int, r: int)
    requires WellFormed(b) && 0 <= c < 7 && 0 <= r == |b.columns[c]| - 1
    ensures AllIds(FoundationDrop(b, Tableau(c, r))) == AllIds(b)
  {
    var card := b.columns[c][r];
    var b' := FoundationDrop(b, Tableau(c, r));
    PlacedKeepsCards(b.cells, card);
    TopCardLeaves(b.columns, c, r, Exposed(b.columns[c][..r]));
    TableauAlgebra(ColumnsIds(b.columns), ColumnsIds(b'.columns), Ids(b.pool.cards), Ids(b.pool.buffer),
      ColumnsIds(b.cells), ColumnsIds(b'.cells), multiset{Id(card)});
  }

  /** An accepted drop onto a foundation keeps every card on the board. */
  lemma FoundationDropKeepsCards(b: Board, sel: Selection)
    requires WellFormed(b) && ValidSelection(b, sel) && FoundationAccepts(b, sel)
    ensures AllIds(FoundationDrop(b, sel)) == AllIds(b)
  {
    match sel
    case Buffer => WasteToFoundationKeepsCards(b);
    case Tableau(c, r) => TopToFoundationKeepsCards(b, c, r);
  }

  /** Whatever the target, a release neither creates nor destroys a card. */
  lemma ReleaseKeepsCards(b: Board, sel: Selection, t: DropTarget)
    requires WellFormed(b) && ValidSelection(b, sel) && ValidTarget(t)
    ensures AllIds(Release(b, sel, t)) == AllIds(b)
  {
    if Accepts(b, sel, t) {
      if t.Column? {
        ColumnDropKeepsCards(b, sel, t.i);
      } else {
        FoundationDropKeepsCards(b, sel);
      }
    }
  }

  /**
   * The board after an accepted column drop: the target column gains the
   * carried cards; a waste card leaves the waste; a run leaves its column,
   * which keeps the cards above it, the last of them set face up (toggled
   * when the target column was empty); nothing else changes.
   */
  lemma ColumnDropResult(b: Board, sel: Selection, i: int)
    requires WellFormed(b) && ValidSelection(b, sel) && 0 <= i < 7
    requires !(sel.Tableau? && sel.col == i)
    ensures var b' := ColumnDrop(b, sel, i);
      && b'.columns[i] == b.columns[i] + Carried(b, sel)
      && b'.cells == b.cells && b'.pool.cards == b.pool.cards
      && (sel.Buffer? ==>
            && b'.pool.buffer == b.pool.buffer[..|b.pool.buffer| - 1]
            && forall j :: 0 <= j < 7 && j != i ==> b'.columns[j] == b.columns[j])
      && (sel.Tableau? ==>
            var c, r := sel.col, sel.row;
            && b'.pool.buffer == b.pool.buffer
            && |b'.columns[c]| == r
            && (forall j :: 0 <= j < r - 1 ==> b'.columns[c][j] == b.columns[c][j])
            && (r > 0 ==>
                  var above := b.columns[c][r - 1];
                  b'.columns[c][r - 1] == above.(faceUp := if b.columns[i] == [] then !above.faceUp else true))
            && forall j :: 0 <= j < 7 && j != i && j != c ==> b'.columns[j] == b.columns[j])
  {
  }

  /**
   * The board after an accepted foundation drop: the card joins the
   * foundation of its own suit; a waste card leaves the waste; a tableau
   * card leaves its column, whose new last card is set face up; nothing else changes.
   */
  lemma FoundationDropResult(b: Board, sel: Selection)
    requires WellFormed(b) && ValidSelection(b, sel)
    ensures var b' := FoundationDrop(b, sel);
      && b'.cells == Placed(b.cells, Selected(b, sel))
      && b'.pool.cards == b.pool.cards
      && (sel.Buffer? ==>
            b'.pool.buffer == b.pool.buffer[..|b.pool.buffer| - 1] && b'.columns == b.columns)
      && (sel.Tableau? ==>
            var c, r := sel.col, sel.row;
            && b'.pool.buffer == b.pool.buffer
            && b'.columns[c] == Exposed(b.columns[c][..r])
            && forall j :: 0 <= j < 7 && j != c ==> b'.columns[j] == b.columns[j])
  {
  }

  /** A release changes the board exactly when the drop is accepted; a refused drop changes nothing. */
  lemma ReleaseChangesIffAccepted(b: Board, sel: Selection, t: DropTarget)
    requires WellFormed(b) && ValidSelection(b, sel) && ValidTarget(t)
    ensures Release(b, sel, t) != b <==> Accepts(b, sel, t)
  {
    if Accepts(b, sel, t) {
      var b' := Release(b, sel, t);
      if t.Column? {
        ColumnDropResult(b, sel, t.i);
        assert |b'.columns[t.i]| > |b.columns[t.i]|;
      } else {
        FoundationDropResult(b, sel);
        var k := SuitIndex(Selected(b, sel).suit);
        assert |b'.cells[k]| > |b.cells[k]|;
      }
    }
  }

  /**
   * Onto a non-empty column other than its own, a selection is accepted
   * exactly when its card is one below the column's last card and of the
   * other colour; the column then ends with the carried cards.
   */
  lemma ReleaseOntoColumn(b: Board, sel: Selection, i: int)
    requires WellFormed(b) && ValidSelection(b, sel) && 0 <= i < 7
    requires !(sel.Tableau? && sel.col == i) && b.columns[i] != []
    ensures var card, top := Selected(b, sel), Last(b.columns[i]);
      Release(b, sel, Column(i)) != b <==>
        top.value == card.value + 1 && IsRed(card.suit) != IsRed(top.suit)
    ensures Accepts(b, sel, Column(i)) ==>
      Release(b, sel, Column(i)).columns[i] == b.columns[i] + Carried(b, sel)
  {
    ReleaseChangesIffAccepted(b, sel, Column(i));
    ColumnDropResult(b, sel, i);
  }

  /** An empty column accepts exactly a King, which arrives with the cards below it. */
  lemma ReleaseOntoEmptyColumn(b: Board, sel: Selection, i: int)
    requires WellFormed(b) && ValidSelection(b, sel) && 0 <= i < 7
    requires !(sel.Tableau? && sel.col == i) && b.columns[i] == []
    ensures Release(b, sel, Column(i)) != b <==> Selected(b, sel).value == 13
    ensures Accepts(b, sel, Column(i)) ==> Release(b, sel, Column(i)).columns[i] == Carried(b, sel)
  {
    ReleaseChangesIffAccepted(b, sel, Column(i));
    ColumnDropResult(b, sel, i);
    assert [] + Carried(b, sel) == Carried(b, sel);
  }

  /** Releasing over the column the run came from, or over nothing, changes nothing. */
  lemma ReleaseOntoOwnColumn(b: Board, c: int, r: int)
    requires WellFormed(b) && ValidSelection(b, Tableau(c, r))
    ensures Release(b, Tableau(c, r), Column(c)) == b
    ensures Release(b, Tableau(c, r), Nothing) == b
  {
  }

  /**
   * Onto valid foundations, a selection is accepted exactly when it is a
   * single card (the waste card or a column's last card) whose value is one
   * above its suit's foundation, whichever slot was hit. The card is
   * appended to its own suit's foundation and the foundations stay valid.
   */
  lemma ReleaseOntoFoundation(b: Board, sel: Selection, k: int)
    requires WellFormed(b) && ValidSelection(b, sel) && 0 <= k < 4
    requires FoundationsValid(b.cells)
    ensures var card := Selected(b, sel);
      Release(b, sel, Foundation(k)) != b <==>
        && card.value == |b.cells[SuitIndex(card.suit)]| + 1
        && (sel.Tableau? ==> sel.row == |b.columns[sel.col]| - 1)
    ensures Accepts(b, sel, Foundation(k)) ==>
      Release(b, sel, Foundation(k)).cells == Placed(b.cells, Selected(b, sel))
    ensures FoundationsValid(Release(b, sel, Foundation(k)).cells)
  {
    var card := Selected(b, sel);
    ReleaseChangesIffAccepted(b, sel, Foundation(k));
    CanPlaceIsNextValue(b.cells, card);
    FoundationDropResult(b, sel);
    if Accepts(b, sel, Foundation(k)) {
      PlacedKeepsFoundations(b.cells, card);
    }
  }

  // ---------------------------------------------------------------------
  // The tableau invariant: face-down cards on top, then a built run
  // ---------------------------------------------------------------------

  /** Card `lower` may lie face up on face-up card `upper`: one value below it and of the other colour. */
  predicate Builds(upper: Card, lower: Card) {
    lower.faceUp && upper.value == lower.value + 1 && IsRed(upper.suit) != IsRed(lower.suit)
  }

  /**
   * A column in play: every card is a real card (value 1 to 13), every
   * face-up card is followed by a card that builds on it, and a non-empty
   * column ends face up.
   */
  predicate ColumnValid(col: seq<Card>) {
    && (forall j :: 0 <= j < |col| ==> 1 <= col[j].value <= 13)
    && (forall j :: 0 <= j < |col| - 1 ==> col[j].faceUp ==> Builds(col[j], col[j + 1]))
    && (col != [] ==> Last(col).faceUp)
  }

  predicate TableauValid(cols: seq<seq<Card>>) {
    |cols| == 7 && forall i :: 0 <= i < 7 ==> ColumnValid(cols[i])
  }

  /** The waste as showNextCard leaves it: real cards, all face up. */
  predicate WasteValid(w: seq<Card>) {
    forall j :: 0 <= j < |w| ==> w[j].faceUp && 1 <= w[j].value <= 13
  }

  /** Below a face-up card every card is face up. */
  lemma {:induction false} FaceUpBelow(col: seq<Card>, r: int, j: int)
    requires ColumnValid(col) && 0 <= r <= j < |col| && col[r].faceUp
    ensures col[j].faceUp
    decreases j - r
  {
    if r < j {
      assert Builds(col[r], col[r + 1]);
      FaceUpBelow(col, r + 1, j);
    }
  }

  /** The run from a face-up card down is itself a valid column. */
  lemma RunValid(col: seq<Card>, r: int)
    requires ColumnValid(col) && 0 <= r < |col| && col[r].faceUp
    ensures ColumnValid(col[r..])
  {
    var run := col[r..];
    forall j | 0 <= j < |run| - 1 && run[j].faceUp ensures Builds(run[j], run[j + 1]) {
      assert run[j] == col[r + j] && run[j + 1] == col[r + j + 1];
    }
  }

  /** A valid run starting face up that builds on the last card of a valid column extends it validly. */
  lemma AppendValid(a: seq<Card>, run: seq<Card>)
    requires ColumnValid(a) && ColumnValid(run) && run != [] && run[0].faceUp
    requires a != [] ==> Builds(Last(a), run[0])
    ensures ColumnValid(a + run)
  {
    var s := a + run;
    forall j | 0 <= j < |s| - 1 && s[j].faceUp ensures Builds(s[j], s[j + 1]) {
      if j < |a| - 1 {
        assert s[j] == a[j] && s[j + 1] == a[j + 1];
      } else if j == |a| - 1 {
        assert s[j] == Last(a) && s[j + 1] == run[0];
      } else {
        assert s[j] == run[j - |a|] && s[j + 1] == run[j - |a| + 1];
      }
    }
    assert Last(s) == Last(run);
  }

  /** What is left above a removed run, with its last card turned up, is a valid column. */
  lemma ExposedValid(col: seq<Card>, r: int)
    requires ColumnValid(col) && 0 <= r <= |col|
    ensures ColumnValid(Exposed(col[..r]))
  {
    var e := Exposed(col[..r]);
    forall j | 0 <= j < |e| - 1 && e[j].faceUp ensures Builds(e[j], e[j + 1]) {
      assert e[j] == col[j];
      assert Builds(col[j], col[j + 1]);
      if j + 1 < r - 1 {
        assert e[j + 1] == col[j + 1];
      }
    }
  }

  /**
   * On a valid column a King never lies on a face-up card, so the card the
   * move of a King uncovers is face down, and toggling it turns it face up.
   */
  lemma KingLiesOnFaceDown(col: seq<Card>, r: int)
    requires ColumnValid(col) && 0 < r < |col| && col[r].value == 13
    ensures !col[r - 1].faceUp
  {
    assert col[r - 1].faceUp ==> Builds(col[r - 1], col[r]);
  }

  /** The board in play: a valid tableau and a valid waste (the stock and foundations are unconstrained here). */
  predicate InPlay(b: Board) {
    WellFormed(b) && TableauValid(b.columns) && WasteValid(b.pool.buffer)
  }

  /** The press selects only face-up tableau cards. */
  predicate Pressable(b: Board, sel: Selection)
    requires WellFormed(b) && ValidSelection(b, sel)
  {
    sel.Tableau? ==> b.columns[sel.col][sel.row].faceUp
  }

  /** The column that receives an accepted drop stays valid. */
  lemma TargetStaysValid(b: Board, sel: Selection, i: int)
    requires InPlay(b) && ValidSelection(b, sel) && Pressable(b, sel) && 0 <= i < 7
    requires ColumnAccepts(b, sel, i)
    ensures ColumnValid(ColumnDrop(b, sel, i).columns[i])
  {
    ColumnDropResult(b, sel, i);
    var col, run := b.columns[i], Carried(b, sel);
    assert ColumnValid(col);
    match sel
    case Buffer =>
      var w := b.pool.buffer;
      assert run == [w[|w| - 1]];
      assert ColumnValid(run);
      AppendValid(col, run);
    case Tableau(c, r) =>
      assert ColumnValid(b.columns[c]);
      RunValid(b.columns[c], r);
      AppendValid(col, run);
  }

  /** The column a run leaves stays valid: the card it uncovers ends face up, even where it is toggled. */
  lemma SourceStaysValid(b: Board, c: int, r: int, i: int)
    requires InPlay(b) && ValidSelection(b, Tableau(c, r)) && 0 <= i < 7
    requires ColumnAccepts(b, Tableau(c, r), i)
    ensures ColumnValid(ColumnDrop(b, Tableau(c, r), i).columns[c])
  {
    var col := b.columns[c];
    var left := ColumnDrop(b, Tableau(c, r), i).columns[c];
    assert ColumnValid(col);
    ExposedValid(col, r);
    if r > 0 {
      var moved := MovedRun(b.columns, c, r, i);
      assert moved[c] == col[..r];
      if b.columns[i] == [] {
        KingLiesOnFaceDown(col, r);
        UncoverToggleAgrees(col[..r], r - 1);
      }
      assert left == Uncover(col[..r], r - 1, false) == Exposed(col[..r]);
    }
  }

  /** An accepted column drop keeps the tableau valid. */
  lemma ColumnDropKeepsTableauValid(b: Board, sel: Selection, i: int)
    requires InPlay(b) && ValidSelection(b, sel) && Pressable(b, sel) && 0 <= i < 7
    requires ColumnAccepts(b, sel, i)
    ensures TableauValid(ColumnDrop(b, sel, i).columns)
  {
    var cols := ColumnDrop(b, sel, i).columns;
    ColumnDropResult(b, sel, i);
    TargetStaysValid(b, sel, i);
    if sel.Tableau? {
      SourceStaysValid(b, sel.col, sel.row, i);
    }
    forall j | 0 <= j < 7 ensures ColumnValid(cols[j]) {
      if j != i && !(sel.Tableau? && j == sel.col) {
        assert cols[j] == b.columns[j];
      }
    }
  }

  /** An accepted foundation drop keeps the tableau valid. */
  lemma FoundationDropKeepsTableauValid(b: Board, sel: Selection)
    requires InPlay(b) && ValidSelection(b, sel)
    ensures TableauValid(FoundationDrop(b, sel).columns)
  {
    FoundationDropResult(b, sel);
    if sel.Tableau? {
      var cols := FoundationDrop(b, sel).columns;
      ExposedValid(b.columns[sel.col], sel.row);
      forall j | 0 <= j < 7 ensures ColumnValid(cols[j]) {
        if j != sel.col {
          assert cols[j] == b.columns[j];
        }
      }
    }
  }

  /** What is left of the waste after its last card leaves is still a valid waste. */
  lemma WastePrefixValid(w: seq<Card>)
    requires WasteValid(w) && w != []
    ensures WasteValid(w[..|w| - 1])
  {
  }

  /**
   * Every release keeps the board in play: the tableau stays valid and the
   * waste keeps only face-up cards.
   */
  lemma ReleaseKeepsInPlay(b: Board, sel: Selection, t: DropTarget)
    requires InPlay(b) && ValidSelection(b, sel) && Pressable(b, sel) && ValidTarget(t)
    ensures InPlay(Release(b, sel, t))
  {
    if Accepts(b, sel, t) {
      if sel.Buffer? {
        WastePrefixValid(b.pool.buffer);
      }
      if t.Column? {
        ColumnDropKeepsTableauValid(b, sel, t.i);
        ColumnDropResult(b, sel, t.i);
      } else {
        FoundationDropKeepsTableauValid(b, sel);
        FoundationDropResult(b, sel);
      }
    }
  }

  /** Every card of a pile is counted among its identities. */
  lemma {:induction false} IdsHas(s: seq<Card>, j: int)
    requires 0 <= j < |s|
    ensures Id(s[j]) in Ids(s)
  {
    var n := |s| - 1;
    if j < n {
      IdsHas(s[..n], j);
      assert s[..n][j] == s[j];
    }
  }

  /** Pure bookkeeping: what a part of a sum holds, the sum holds. */
  lemma PartAlgebra(rest: multiset<CardId>, part: multiset<CardId>, whole: multiset<CardId>,
                    empty: multiset<CardId>, id: CardId)
    requires rest + part == whole + empty && empty == multiset{} && id in part
    ensures id in whole
  {
    assert (rest + part)[id] == (whole + empty)[id];
  }

  /** Every card of a column is counted among the identities of the row of columns. */
  lemma ColumnsIdsHas(cols: seq<seq<Card>>, i: int, j: int)
    requires 0 <= i < |cols| && 0 <= j < |cols[i]|
    ensures Id(cols[i][j]) in ColumnsIds(cols)
  {
    IdsHas(cols[i], j);
    ColumnsIdsUpdate(cols, i, []);
    assert Ids([]) == multiset{};
    PartAlgebra(ColumnsIds(cols[i := []]), Ids(cols[i]), ColumnsIds(cols), Ids([]), Id(cols[i][j]));
  }

  /** Identities of real cards only: every value is from 1 to 13. */
  predicate RealCards(m: multiset<CardId>) {
    forall id :: id in m ==> 1 <= id.1 <= 13
  }

  /** The standard deck holds only real cards. */
  lemma StandardDeckReal()
    ensures RealCards(Ids(StandardDeck()))
  {
    StandardDeckContents();
    forall id | id in Ids(StandardDeck()) ensures 1 <= id.1 <= 13 {
      assert Ids(StandardDeck())[(id.0, id.1)] > 0;
    }
  }

  /** On a board holding only real cards, every tableau card has a value from 1 to 13. */
  lemma TableauCardsReal(b: Board, i: int, j: int)
    requires WellFormed(b) && RealCards(AllIds(b))
    requires 0 <= i < 7 && 0 <= j < |b.columns[i]|
    ensures 1 <= b.columns[i][j].value <= 13
  {
    var c := b.columns[i][j];
    ColumnsIdsHas(b.columns, i, j);
    assert Id(c) in AllIds(b);
  }

  /** A freshly dealt board holding only real cards is in play. */
  lemma DealtLayoutInPlay(b: Board)
    requires WellFormed(b) && RealCards(AllIds(b)) && b.pool.buffer == []
    requires forall i :: 0 <= i < 7 ==>
      |b.columns[i]| == i + 1 && b.columns[i][i].faceUp && AllFaceDown(b.columns[i][..i])
    ensures InPlay(b)
  {
    forall i | 0 <= i < 7 ensures ColumnValid(b.columns[i]) {
      var col := b.columns[i];
      forall j | 0 <= j < |col| ensures 1 <= col[j].value <= 13 {
        TableauCardsReal(b, i, j);
      }
      forall j | 0 <= j < |col| - 1 ensures !col[j].faceUp {
        assert col[..i][j] == col[j];
      }
    }
  }

  /** The opening position is in play: every column is face-down cards under one face-up card. */
  lemma InitialBoardInPlay(picks: seq<int>)
    requires ValidPicks(picks, 52)
    ensures InPlay(InitialBoard(picks))
  {
    InitialBoardLayout(picks);
    InitialBoardCards(picks);
    StandardDeckReal();
    DealtLayoutInPlay(InitialBoard(picks));
  }

  /** Every card of the stock or the waste is counted among the cards of the board. */
  lemma PoolCardOnBoard(b: Board, s: seq<Card>, j: int)
    requires s == b.pool.cards || s == b.pool.buffer
    requires 0 <= j < |s|
    ensures Id(s[j]) in AllIds(b)
  {
    IdsHas(s, j);
  }

  /**
   * The card a selection resolves to (`*selectedCard`) is a card of the
   * board, and on a board in play a selection the press can make is face up.
   */
  lemma SelectedOnBoard(b: Board, sel: Selection)
    requires WellFormed(b) && ValidSelection(b, sel)
    ensures Id(Selected(b, sel)) in AllIds(b)
    ensures InPlay(b) && Pressable(b, sel) ==> Selected(b, sel).faceUp
  {
    match sel
    case Buffer => PoolCardOnBoard(b, b.pool.buffer, |b.pool.buffer| - 1);
    case Tableau(c, r) => ColumnsIdsHas(b.columns, c, r);
  }

  /** On a board holding only real cards, every stock card has a value from 1 to 13. */
  lemma StockCardReal(b: Board, j: int)
    requires WellFormed(b) && RealCards(AllIds(b)) && 0 <= j < |b.pool.cards|
    ensures 1 <= b.pool.cards[j].value <= 13
  {
    PoolCardOnBoard(b, b.pool.cards, j);
  }

  /** Pure bookkeeping: exchanging stock and waste cards between themselves keeps the board's sum. */
  lemma PoolAlgebra(cols: multiset<CardId>, stock: multiset<CardId>, waste: multiset<CardId>,
                    stock': multiset<CardId>, waste': multiset<CardId>, cells: multiset<CardId>)
    requires stock' + waste' == stock + waste
    ensures cols + stock' + waste' + cells == cols + stock + waste + cells
  {
    forall id ensures (cols + stock' + waste' + cells)[id] == (cols + stock + waste + cells)[id] {
      assert (stock' + waste')[id] == (stock + waste)[id];
    }
  }

  /**
   * A click on the stock keeps every card on the board and keeps the board
   * in play: the card it turns up is a real card, and a recycled waste
   * leaves the waste empty.
   */
  lemma ShowNextKeepsInPlay(b: Board)
    requires InPlay(b) && RealCards(AllIds(b))
    ensures AllIds(b.(pool := ShowNext(b.pool))) == AllIds(b)
    ensures InPlay(b.(pool := ShowNext(b.pool)))
  {
    var p := ShowNext(b.pool);
    if b.pool.cards != [] {
      StockCardReal(b, |b.pool.cards| - 1);
    }
    ShowNextKeepsCards(b.pool);
    PoolAlgebra(ColumnsIds(b.columns), Ids(b.pool.cards), Ids(b.pool.buffer), Ids(p.cards), Ids(p.buffer),
      ColumnsIds(b.cells));
  }

  // ---------------------------------------------------------------------
  // A whole game: clicks on the stock and drops of selections
  // ---------------------------------------------------------------------

  /** One input of a game: a click on the stock, or a press that selected `sel` followed by a release over `target`. */
  datatype Step = Click | Drop(sel: Selection, target: DropTarget)

  /**
   * The board after one step. A drop whose selection the press could not
   * have made (no such card, or a face-down one) changes nothing.
   */
  function Apply(b: Board, s: Step): (r: Board)
    requires WellFormed(b)
    ensures WellFormed(r)
    ensures s.Click? ==> r.columns == b.columns && r.cells == b.cells
  {
    match s
    case Click => b.(pool := ShowNext(b.pool))
    case Drop(sel, t) =>
      if ValidSelection(b, sel) && Pressable(b, sel) && ValidTarget(t) then
        ReleaseKeepsShape(b, sel, t);
        Release(b, sel, t)
      else b
  }

  /** The board after a sequence of steps, each applied to the board the previous one left. */
  function Play(b: Board, steps: seq<Step>): (r: Board)
    requires WellFormed(b)
    ensures WellFormed(r)
    decreases |steps|
  {
    if steps == [] then b
    else Play(Apply(b, steps[0]), steps[1..])
  }

  /** One step keeps every card and keeps the board in play. */
  lemma ApplyKeepsInPlay(b: Board, s: Step)
    requires InPlay(b) && RealCards(AllIds(b))
    ensures AllIds(Apply(b, s)) == AllIds(b) && InPlay(Apply(b, s))
  {
    match s
    case Click => ShowNextKeepsInPlay(b);
    case Drop(sel, t) =>
      if ValidSelection(b, sel) && Pressable(b, sel) && ValidTarget(t) {
        ReleaseKeepsCards(b, sel, t);
        ReleaseKeepsInPlay(b, sel, t);
      }
  }

  /** Any sequence of steps keeps every card and keeps the board in play. */
  lemma {:induction false} PlayKeepsInPlay(b: Board, steps: seq<Step>)
    requires InPlay(b) && RealCards(AllIds(b))
    ensures AllIds(Play(b, steps)) == AllIds(b) && InPlay(Play(b, steps))
    decreases |steps|
  {
    if steps != [] {
      var b' := Apply(b, steps[0]);
      ApplyKeepsInPlay(b, steps[0]);
      PlayKeepsInPlay(b', steps[1..]);
    }
  }

  /**
   * Whatever the shuffle and whatever the player does, the board holds the
   * 52 cards of the standard deck, each exactly once, and stays in play.
   */
  lemma GameKeepsDeckAndInPlay(picks: seq<int>, steps: seq<Step>)
    requires ValidPicks(picks, 52)
    ensures var b := Play(InitialBoard(picks), steps);
      AllIds(b) == Ids(StandardDeck()) && InPlay(b)
  {
    var b := InitialBoard(picks);
    InitialBoardInPlay(picks);
    InitialBoardCards(picks);
    StandardDeckReal();
    PlayKeepsInPlay(b, steps);
  }

  // ---------------------------------------------------------------------
  // The foundation drop as the source writes it
  // ---------------------------------------------------------------------

  /** The end of a release that may reach undefined behaviour. */
  datatype Outcome = Done(board: Board) | Undefined

  /**
   * The foundation drop as written: the card is placed, then the column is
   * cut at the selected row whatever lies below it, and the card at
   * `selectedRow - 1` is read even when the row is 0.
   */
  function FoundationDropAsWritten(b: Board, sel: Selection): (o: Outcome)
    requires WellFormed(b) && ValidSelection(b, sel)
    ensures sel.Buffer? ==> o == Done(FoundationDrop(b, sel))
    ensures sel.Tableau? ==> (o.Undefined? <==> sel.row == 0)
  {
    match sel
    case Buffer => Done(FoundationDrop(b, sel))
    case Tableau(c, r) =>
      if r == 0 then Undefined
      else Done(b.(columns := b.columns[c := Exposed(b.columns[c][..r])],
                   cells := Placed(b.cells, Selected(b, sel))))
  }

  /** The whole release as written: the foundation branch tests only CanPlace. */
  function ReleaseAsWritten(b: Board, sel: Selection, t: DropTarget): (o: Outcome)
    requires WellFormed(b) && ValidSelection(b, sel) && ValidTarget(t)
    ensures t.Column? || t.Nothing? ==> o == Done(Release(b, sel, t))
  {
    match t
    case Column(i) => Done(if ColumnAccepts(b, sel, i) then ColumnDrop(b, sel, i) else b)
    case Foundation(_) =>
      if CanPlace(b.cells, Selected(b, sel)) then FoundationDropAsWritten(b, sel) else Done(b)
    case Nothing => Done(b)
  }

  /** Where the source is sound (a waste card, or the last card of a column with cards above it) it agrees with Release. */
  lemma AsWrittenAgreesOnSingleCards(b: Board, sel: Selection, k: int)
    requires WellFormed(b) && ValidSelection(b, sel) && 0 <= k < 4
    requires sel.Tableau? ==> 0 < sel.row == |b.columns[sel.col]| - 1
    ensures ReleaseAsWritten(b, sel, Foundation(k)) == Done(Release(b, sel, Foundation(k)))
  {
  }

  /** Pure bookkeeping of a cut column: the cards below the selected one are lost. */
  lemma LossAlgebra(after: multiset<CardId>, before: multiset<CardId>, col: multiset<CardId>,
                    rest: multiset<CardId>, x: multiset<CardId>, card: multiset<CardId>, tail: multiset<CardId>)
    requires after + col == before + x && col == rest + (card + tail) && x == rest
    ensures after + card + tail == before
  {
    forall id ensures (after + card + tail)[id] == before[id] {
      assert (after + col)[id] == (before + x)[id];
    }
  }

  /**
   * A run dropped on a foundation as written: the first card goes up and
   * every card below it vanishes from the board, so the board loses cards.
   */
  lemma AsWrittenLosesCards(b: Board, c: int, r: int, k: int)
    requires WellFormed(b) && 0 <= c < 7 && 0 < r < |b.columns[c]| - 1 && 0 <= k < 4
    requires CanPlace(b.cells, b.columns[c][r])
    ensures var o := ReleaseAsWritten(b, Tableau(c, r), Foundation(k));
      && o.Done?
      && AllIds(o.board) + Ids(b.columns[c][r + 1..]) == AllIds(b)
      && |AllIds(o.board)| < |AllIds(b)|
  {
    var col := b.columns[c];
    var card, tail := col[r], col[r + 1..];
    var b' := ReleaseAsWritten(b, Tableau(c, r), Foundation(k)).board;
    var x := Exposed(col[..r]);
    assert b'.columns == b.columns[c := x];
    assert col == col[..r] + ([card] + tail);
    IdsAppend(col[..r], [card] + tail);
    IdsAppend([card], tail);
    IdsSingle(card);
    ColumnsIdsUpdate(b.columns, c, x);
    LossAlgebra(ColumnsIds(b'.columns), ColumnsIds(b.columns), Ids(col), Ids(col[..r]), Ids(x),
      multiset{Id(card)}, Ids(tail));
    PlacedKeepsCards(b.cells, card);
    LostAlgebra(ColumnsIds(b'.columns), ColumnsIds(b.columns), Ids(b.pool.cards), Ids(b.pool.buffer),
      ColumnsIds(b.cells), ColumnsIds(b'.cells), multiset{Id(card)}, Ids(tail));
    IdsSize(tail);
  }

  /** Pure bookkeeping of the board after the cut: the lost cards make up the difference. */
  lemma LostAlgebra(cols': multiset<CardId>, cols: multiset<CardId>, stock: multiset<CardId>,
                    waste: multiset<CardId>, cells: multiset<CardId>, cells': multiset<CardId>,
                    x: multiset<CardId>, lost: multiset<CardId>)
    requires cols' + x + lost == cols && cells' == cells + x
    ensures (cols' + stock + waste + cells') + lost == cols + stock + waste + cells
    ensures |cols' + stock + waste + cells'| + |lost| == |cols + stock + waste + cells|
  {
    forall id ensures ((cols' + stock + waste + cells') + lost)[id] == (cols + stock + waste + cells)[id] {
      assert (cols' + x + lost)[id] == cols[id];
      assert cells'[id] == (cells + x)[id];
    }
  }

  /** A column's only card dropped on a foundation as written reads the card above it, which does not exist. */
  lemma AsWrittenUndefinedAtRowZero(b: Board, c: int, k: int)
    requires WellFormed(b) && 0 <= c < 7 && b.columns[c] != [] && 0 <= k < 4
    ensures ReleaseAsWritten(b, Tableau(c, 0), Foundation(k)) == Undefined
      <==> CanPlace(b.cells, b.columns[c][0])
  {
  }

  /** A card of the standard face sheet, turned the given way up. */
  function Lying(s: Suit, v: int, up: bool): Card {
    NewCard(s, v).(faceUp := up)
  }

  /**
   * A position in play: column 0 holds a face-down King of spades under a
   * face-up two of hearts with the Ace of clubs on it, and the hearts
   * foundation holds its Ace.
   */
  function LossExample(): Board {
    Board([[Lying(Spades, 13, false), Lying(Hearts, 2, true), Lying(Clubs, 1, true)], [], [], [], [], [], []],
          Pool([], []),
          [[Lying(Hearts, 1, true)], [], [], []])
  }

  /**
   * Dragging the two of hearts (with the Ace of clubs on it) to a
   * foundation: the source accepts it and the board loses a card, while
   * Release refuses the drop.
   */
  lemma LossExampleLosesCard()
    ensures InPlay(LossExample()) && ValidSelection(LossExample(), Tableau(0, 1))
    ensures Pressable(LossExample(), Tableau(0, 1))
    ensures var o := ReleaseAsWritten(LossExample(), Tableau(0, 1), Foundation(0));
      o.Done? && |AllIds(o.board)| < |AllIds(LossExample())|
    ensures Release(LossExample(), Tableau(0, 1), Foundation(0)) == LossExample()
  {
    var b := LossExample();
    var col := b.columns[0];
    assert Builds(col[1], col[2]);
    assert CanPlace(b.cells, col[1]);
    AsWrittenLosesCards(b, 0, 1, 0);
  }
}
