/**
 * The game state of src/main.cpp as values, and the rules that change it:
 * building and shuffling the deck, dealing the tableau, cycling the stock
 * and waste of the hidden pool, moving runs between columns, filling the
 * foundations, and the effect of releasing a dragged selection. The
 * classes of the Game module are proved to compute exactly these functions.
 */
module Rules {
  import opened Cards

  // ---------------------------------------------------------------------
  // Card identities: which cards a container holds, ignoring orientation.
  // ---------------------------------------------------------------------

  /** The cards of a pile, as a multiset of (suit, value). */
  function Ids(s: seq<Card>): multiset<CardId> {
    if s == [] then multiset{} else Ids(s[..|s| - 1]) + multiset{Id(s[|s| - 1])}
  }

  lemma {:induction false} IdsAppend(s: seq<Card>, t: seq<Card>)
    ensures Ids(s + t) == Ids(s) + Ids(t)
  {
    if t == [] {
      assert s + t == s;
    } else {
      var n := |t| - 1;
      assert (s + t)[..|s + t| - 1] == s + t[..n];
      IdsAppend(s, t[..n]);
    }
  }

  /** Turning cards over does not change which cards a pile holds. */
  lemma {:induction false} IdsIgnoreFaces(s: seq<Card>, t: seq<Card>)
    requires |s| == |t|
    requires forall i :: 0 <= i < |s| ==> Id(s[i]) == Id(t[i])
    ensures Ids(s) == Ids(t)
  {
    if s != [] {
      IdsIgnoreFaces(s[..|s| - 1], t[..|t| - 1]);
    }
  }

  lemma {:induction false} IdsSize(s: seq<Card>)
    ensures |Ids(s)| == |s|
  {
    if s != [] {
      IdsSize(s[..|s| - 1]);
    }
  }

  /** The cards of a row of piles (the seven columns, the four foundations). */
  function ColumnsIds(cols: seq<seq<Card>>): multiset<CardId> {
    if cols == [] then multiset{} else ColumnsIds(cols[..|cols| - 1]) + Ids(cols[|cols| - 1])
  }

  /** Pure bookkeeping of exchanging the last member of a sum. */
  lemma LastAlgebra(whole': multiset<CardId>, whole: multiset<CardId>, part: multiset<CardId>,
                    x: multiset<CardId>, c: multiset<CardId>)
    requires whole' == part + x && whole == part + c
    ensures whole' + c == whole + x
  {
    forall id ensures (whole' + c)[id] == (whole + x)[id] {
    }
  }

  /** Replacing one pile of a row exchanges that pile's cards and no others. */
  lemma {:induction false} ColumnsIdsUpdate(cols: seq<seq<Card>>, i: int, x: seq<Card>)
    requires 0 <= i < |cols|
    ensures ColumnsIds(cols[i := x]) + Ids(cols[i]) == ColumnsIds(cols) + Ids(x)
  {
    var n := |cols| - 1;
    var cols' := cols[i := x];
    if i == n {
      assert cols'[..n] == cols[..n];
      LastAlgebra(ColumnsIds(cols'), ColumnsIds(cols), ColumnsIds(cols[..n]), Ids(x), Ids(cols[i]));
    } else {
      assert cols'[..n] == cols[..n][i := x];
      assert cols'[n] == cols[n];
      ColumnsIdsUpdate(cols[..n], i, x);
      UpdateAlgebra(ColumnsIds(cols'), ColumnsIds(cols), ColumnsIds(cols[..n][i := x]), ColumnsIds(cols[..n]),
        Ids(cols[n]), Ids(cols[i]), Ids(x));
    }
  }

  /** Pure bookkeeping: a part added to one member of a sum is added to the sum. */
  lemma AddAlgebra(whole': multiset<CardId>, whole: multiset<CardId>, c: multiset<CardId>, run: multiset<CardId>)
    requires whole' + c == whole + (c + run)
    ensures whole' == whole + run
  {
    forall id ensures whole'[id] == (whole + run)[id] {
      assert (whole' + c)[id] == (whole + (c + run))[id];
    }
  }

  /** Pure bookkeeping: a part taken from one member of a sum is taken from the sum. */
  lemma RemoveAlgebra(whole': multiset<CardId>, whole: multiset<CardId>, pre: multiset<CardId>, suf: multiset<CardId>)
    requires whole' + (pre + suf) == whole + pre
    ensures whole' + suf == whole
  {
    forall id ensures (whole' + suf)[id] == whole[id] {
      assert (whole' + (pre + suf))[id] == (whole + pre)[id];
    }
  }

  /** Appending cards to one pile of a row adds exactly those cards to the row. */
  lemma ColumnsIdsAppend(cols: seq<seq<Card>>, t: int, run: seq<Card>)
    requires 0 <= t < |cols|
    ensures ColumnsIds(cols[t := cols[t] + run]) == ColumnsIds(cols) + Ids(run)
  {
    ColumnsIdsUpdate(cols, t, cols[t] + run);
    IdsAppend(cols[t], run);
    AddAlgebra(ColumnsIds(cols[t := cols[t] + run]), ColumnsIds(cols), Ids(cols[t]), Ids(run));
  }

  /** Cutting one pile of a row at r takes exactly the cut-off cards out of the row. */
  lemma ColumnsIdsTruncate(cols: seq<seq<Card>>, f: int, r: int)
    requires 0 <= f < |cols| && 0 <= r <= |cols[f]|
    ensures ColumnsIds(cols[f := cols[f][..r]]) + Ids(cols[f][r..]) == ColumnsIds(cols)
  {
    var pre, suf := cols[f][..r], cols[f][r..];
    ColumnsIdsUpdate(cols, f, pre);
    IdsSplitAt(cols[f], r);
    RemoveAlgebra(ColumnsIds(cols[f := pre]), ColumnsIds(cols), Ids(pre), Ids(suf));
  }

  /** Replacing a pile by one with the same cards (turned differently) keeps the row's cards. */
  lemma ColumnsIdsSameCards(cols: seq<seq<Card>>, f: int, x: seq<Card>)
    requires 0 <= f < |cols| && Ids(x) == Ids(cols[f])
    ensures ColumnsIds(cols[f := x]) == ColumnsIds(cols)
  {
    ColumnsIdsUpdate(cols, f, x);
    Cancel(ColumnsIds(cols[f := x]), ColumnsIds(cols), Ids(x));
  }

  /** A row of empty piles holds no card. */
  lemma {:induction false} ColumnsIdsEmpty(cols: seq<seq<Card>>)
    requires forall i :: 0 <= i < |cols| ==> cols[i] == []
    ensures ColumnsIds(cols) == multiset{}
  {
    if cols != [] {
      ColumnsIdsEmpty(cols[..|cols| - 1]);
    }
  }

  // ---------------------------------------------------------------------
  // The deck (MainDeck::initializeDeck, shuffleDeck, takeCard)
  // ---------------------------------------------------------------------

  /** Values run from 1 (Ace) to 13 (King). */
  const ValuesPerSuit: nat := 13

  /** The cards of one suit with values 1 to k, in increasing order. */
  function SuitCards(s: Suit, k: nat): seq<Card> {
    if k == 0 then [] else SuitCards(s, k - 1) + [NewCard(s, k)]
  }

  /** The whole suits 0 to n-1, in enum order, as the nested loops push them. */
  function DeckUpTo(n: nat): seq<Card>
    requires n <= 4
  {
    if n == 0 then [] else DeckUpTo(n - 1) + SuitCards(SuitOf(n - 1), ValuesPerSuit)
  }

  /**
   * The 52 cards of the game, position by position: card i is value
   * i % 13 + 1 of the suit with enum value i / 13. DeckUpToIsStandard shows
   * that this is what the nested loops of `initializeDeck` push.
   */
  function StandardDeck(): (d: seq<Card>)
    ensures |d| == 52
  {
    seq(52, i requires 0 <= i < 52 => NewCard(SuitOf(i / 13), i % 13 + 1))
  }

  predicate AllFaceDown(s: seq<Card>) {
    forall i :: 0 <= i < |s| ==> !s[i].faceUp
  }

  lemma {:induction false} SuitCardsShape(s: Suit, k: nat)
    ensures |SuitCards(s, k)| == k
    ensures AllFaceDown(SuitCards(s, k))
  {
    if k > 0 {
      SuitCardsShape(s, k - 1);
    }
  }

  /** The cards of one suit with values 1 to k hold (t, v) once when t is that suit and v is in 1..k. */
  lemma {:induction false} SuitCardsIds(s: Suit, k: nat, t: Suit, v: int)
    ensures Ids(SuitCards(s, k))[(t, v)] == if t == s && 1 <= v <= k then 1 else 0
  {
    if k > 0 {
      var m := k - 1;
      SuitCardsLast(s, m, k);
      SuitCardsIds(s, m, t, v);
    }
  }

  /** The cards of one suit up to k are those up to k - 1 and the card (s, k). */
  lemma SuitCardsLast(s: Suit, m: nat, k: nat)
    requires k == m + 1
    ensures Ids(SuitCards(s, k)) == Ids(SuitCards(s, m)) + multiset{(s, k)}
  {
    SuitCardsShape(s, m);
    IdsSnoc(SuitCards(s, m), NewCard(s, k));
  }

  lemma {:induction false} DeckUpToShape(n: nat)
    requires n <= 4
    ensures |DeckUpTo(n)| == 13 * n
    ensures AllFaceDown(DeckUpTo(n))
  {
    if n > 0 {
      DeckUpToShape(n - 1);
      SuitCardsShape(SuitOf(n - 1), ValuesPerSuit);
    }
  }

  lemma {:induction false} SuitCardsAt(s: Suit, k: nat)
    ensures |SuitCards(s, k)| == k
    ensures forall j :: 0 <= j < k ==> SuitCards(s, k)[j] == NewCard(s, j + 1)
  {
    if k > 0 {
      SuitCardsAt(s, k - 1);
    }
  }

  /** The whole suits below n are the first 13 * n cards of the standard deck. */
  lemma {:induction false} DeckUpToPrefix(n: nat)
    requires n <= 4
    ensures |DeckUpTo(n)| == 13 * n
    ensures forall j :: 0 <= j < 13 * n ==> DeckUpTo(n)[j] == StandardDeck()[j]
  {
    if n > 0 {
      var m := n - 1;
      DeckUpToPrefix(m);
      DeckUpToShape(n);
      forall j | 0 <= j < 13 * n
        ensures DeckUpTo(n)[j] == StandardDeck()[j]
      {
        if j < 13 * m {
          assert DeckUpTo(n)[j] == DeckUpTo(m)[j];
        } else {
          DeckUpToLastSuit(m, n, j);
        }
      }
    }
  }

  /** A card of the last suit pushed sits where the standard deck has it. */
  lemma DeckUpToLastSuit(m: nat, n: nat, j: int)
    requires n == m + 1 <= 4 && 13 * m <= j < 13 * n
    requires |DeckUpTo(m)| == 13 * m && |DeckUpTo(n)| == 13 * n
    ensures DeckUpTo(n)[j] == StandardDeck()[j]
  {
    var v := j - 13 * m;
    SuitCardsAt(SuitOf(m), ValuesPerSuit);
    assert DeckUpTo(n)[j] == SuitCards(SuitOf(m), ValuesPerSuit)[v];
    StandardDeckAt(j, m, v);
  }

  /** Card j of the standard deck, for j = 13 * q + r. */
  lemma StandardDeckAt(j: int, q: int, r: int)
    requires 0 <= j < 52 && r == j - 13 * q && 0 <= r < 13
    ensures 0 <= q < 4 && StandardDeck()[j] == NewCard(SuitOf(q), r + 1)
  {
    DivideBy13(j, q, r);
  }

  lemma DivideBy13(j: int, q: int, r: int)
    requires r == j - 13 * q && 0 <= r < 13
    ensures j / 13 == q && j % 13 == r
  {
  }

  /** The nested loops of `initializeDeck`, run over all four suits, push exactly the standard deck. */
  lemma DeckUpToIsStandard(n: nat)
    requires n == 4
    ensures DeckUpTo(n) == StandardDeck()
  {
    DeckUpToPrefix(n);
  }

  lemma DeckUpToSplit(m: nat, n: nat, id: CardId)
    requires n == m + 1 && n <= 4
    ensures Ids(DeckUpTo(n))[id] == Ids(DeckUpTo(m))[id] + Ids(SuitCards(SuitOf(m), ValuesPerSuit))[id]
  {
    IdsAppend(DeckUpTo(m), SuitCards(SuitOf(m), ValuesPerSuit));
  }

  /** How often (t, v) occurs among the whole suits 0 to n-1. */
  function CountBelow(n: int, t: Suit, v: int): int {
    if SuitIndex(t) < n && 1 <= v <= 13 then 1 else 0
  }

  /** Counting step of DeckUpToIds: suit m adds its cards to those of the suits below it. */
  lemma SuitCountStep(m: nat, n: nat, t: Suit, v: int, added: int)
    requires n == m + 1 && n <= 4
    requires added == if t == SuitOf(m) && 1 <= v <= 13 then 1 else 0
    ensures CountBelow(n, t, v) == CountBelow(m, t, v) + added
  {
    SuitOfIndex(t);
  }

  /** One suit more: the count of (t, v) in the suits below n follows from the count below m = n - 1. */
  lemma DeckUpToIdsStep(m: nat, n: nat, t: Suit, v: int)
    requires n == m + 1 && n <= 4
    requires Ids(DeckUpTo(m))[(t, v)] == CountBelow(m, t, v)
    ensures Ids(DeckUpTo(n))[(t, v)] == CountBelow(n, t, v)
  {
    DeckUpToSplit(m, n, (t, v));
    SuitCardsIds(SuitOf(m), ValuesPerSuit, t, v);
    SuitCountStep(m, n, t, v, Ids(SuitCards(SuitOf(m), ValuesPerSuit))[(t, v)]);
  }

  lemma {:induction false} DeckUpToIds(n: nat, t: Suit, v: int)
    requires n <= 4
    ensures Ids(DeckUpTo(n))[(t, v)] == CountBelow(n, t, v)
  {
    if n > 0 {
      var m := n - 1;
      DeckUpToIds(m, t, v);
      DeckUpToIdsStep(m, n, t, v);
    }
  }

  /**
   * The freshly built deck has 52 face-down cards and holds every card of
   * value 1 to 13 in every suit exactly once, and nothing else.
   */
  lemma StandardDeckContents()
    ensures |StandardDeck()| == 52
    ensures AllFaceDown(StandardDeck())
    ensures forall t, v :: Ids(StandardDeck())[(t, v)] == if 1 <= v <= 13 then 1 else 0
  {
    var n := 4;
    DeckUpToShape(n);
    DeckUpToIsStandard(n);
    forall t, v ensures Ids(StandardDeck())[(t, v)] == if 1 <= v <= 13 then 1 else 0 {
      DeckUpToIds(n, t, v);
    }
  }

  // ---------------------------------------------------------------------
  // Multiset bookkeeping over plain values, kept apart from the piles so
  // that each step of a proof about piles stays small.
  // ---------------------------------------------------------------------

  /** What one container loses another gains: the two together are unchanged. */
  lemma Transfer(a: multiset<CardId>, a': multiset<CardId>, b: multiset<CardId>, b': multiset<CardId>,
                 x: multiset<CardId>)
    requires a == a' + x && b' == b + x
    ensures a' + b' == a + b
  {
    forall id ensures (a' + b')[id] == (a + b)[id] {
      assert a[id] == (a' + x)[id];
      assert b'[id] == (b + x)[id];
    }
  }

  /** Cancelling a common part on both sides of a sum. */
  lemma Cancel(a: multiset<CardId>, b: multiset<CardId>, x: multiset<CardId>)
    requires a + x == b + x
    ensures a == b
  {
    forall id ensures a[id] == b[id] {
      assert (a + x)[id] == (b + x)[id];
    }
  }

  lemma IdsSingle(c: Card)
    ensures Ids([c]) == multiset{Id(c)}
  {
    assert [c][..0] == [];
  }

  lemma IdsSnoc(s: seq<Card>, c: Card)
    ensures Ids(s + [c]) == Ids(s) + multiset{Id(c)}
  {
    assert (s + [c])[..|s|] == s;
  }

  /** A pile holds its first card and the cards after it. */
  lemma IdsCons(s: seq<Card>)
    requires s != []
    ensures Ids(s) == multiset{Id(s[0])} + Ids(s[1..])
  {
    assert s == [s[0]] + s[1..];
    IdsAppend([s[0]], s[1..]);
    IdsSingle(s[0]);
  }

  /**
   * The random choices of `std::shuffle` (a Fisher-Yates shuffle): at step i
   * the element at i is exchanged with the one at picks[i], for some
   * picks[i] between 0 and i. The random engine itself is not modelled:
   * every run of it is one valid sequence of picks, though far from every
   * sequence can arise from an engine seeded with a single 32-bit value.
   */
  predicate ValidPicks(picks: seq<int>, n: nat) {
    |picks| == n && forall i :: 0 <= i < n ==> 0 <= picks[i] <= i
  }

  function Swap(s: seq<Card>, i: int, j: int): (r: seq<Card>)
    requires 0 <= i < |s| && 0 <= j < |s|
    ensures |r| == |s|
  {
    s[i := s[j]][j := s[i]]
  }

  lemma SwapIsPermutation(s: seq<Card>, i: int, j: int)
    requires 0 <= i < |s| && 0 <= j < |s|
    ensures multiset(Swap(s, i, j)) == multiset(s)
  {
  }

  /** Pure bookkeeping of replacing one element of a pile that is not its last. */
  lemma UpdateAlgebra(whole': multiset<CardId>, whole: multiset<CardId>, part': multiset<CardId>,
                      part: multiset<CardId>, last: multiset<CardId>, a: multiset<CardId>, b: multiset<CardId>)
    requires whole' == part' + last && whole == part + last
    requires part' + a == part + b
    ensures whole' + a == whole + b
  {
    forall id ensures (whole' + a)[id] == (whole + b)[id] {
      assert (part' + a)[id] == (part + b)[id];
    }
  }

  /** Replacing one card of a pile exchanges that card's identity and no other. */
  lemma {:induction false} IdsUpdate(s: seq<Card>, i: int, x: Card)
    requires 0 <= i < |s|
    ensures Ids(s[i := x]) + multiset{Id(s[i])} == Ids(s) + multiset{Id(x)}
  {
    var n := |s| - 1;
    var s' := s[i := x];
    if i == n {
      assert s'[..n] == s[..n];
      LastAlgebra(Ids(s'), Ids(s), Ids(s[..n]), multiset{Id(x)}, multiset{Id(s[i])});
    } else {
      assert s'[..n] == s[..n][i := x];
      assert s'[n] == s[n];
      IdsUpdate(s[..n], i, x);
      UpdateAlgebra(Ids(s'), Ids(s), Ids(s[..n][i := x]), Ids(s[..n]),
        multiset{Id(s[n])}, multiset{Id(s[i])}, multiset{Id(x)});
    }
  }

  /** Pure bookkeeping of two exchanges that undo each other's effect on the identities. */
  lemma SwapAlgebra(sw: multiset<CardId>, t: multiset<CardId>, s: multiset<CardId>,
                    x: multiset<CardId>, y: multiset<CardId>)
    requires t + x == s + y && sw + y == t + x
    ensures sw == s
  {
    forall id ensures sw[id] == s[id] {
      assert (t + x)[id] == (s + y)[id];
      assert (sw + y)[id] == (t + x)[id];
    }
  }

  /** Exchanging two cards does not change which cards a pile holds. */
  lemma SwapKeepsIds(s: seq<Card>, i: int, j: int)
    requires 0 <= i < |s| && 0 <= j < |s|
    ensures Ids(Swap(s, i, j)) == Ids(s)
  {
    var t := s[i := s[j]];
    IdsUpdate(s, i, s[j]);
    IdsUpdate(t, j, s[i]);
    assert t[j] == s[j];
    SwapAlgebra(Ids(Swap(s, i, j)), Ids(t), Ids(s), multiset{Id(s[i])}, multiset{Id(s[j])});
  }

  /** The shuffle from step i onward; each step only exchanges two cards, so the result is a permutation. */
  function ShuffledFrom(s: seq<Card>, picks: seq<int>, i: nat): (r: seq<Card>)
    requires ValidPicks(picks, |s|) && i <= |s|
    ensures |r| == |s|
    decreases |s| - i
  {
    if i == |s| then s else ShuffledFrom(Swap(s, i, picks[i]), picks, i + 1)
  }

  function Shuffled(s: seq<Card>, picks: seq<int>): seq<Card>
    requires ValidPicks(picks, |s|)
  {
    ShuffledFrom(s, picks, 0)
  }

  /** The shuffle is a permutation: it keeps every card, orientation and sheet cell included. */
  lemma {:induction false} ShuffledFromIsPermutation(s: seq<Card>, picks: seq<int>, i: nat)
    requires ValidPicks(picks, |s|) && i <= |s|
    ensures multiset(ShuffledFrom(s, picks, i)) == multiset(s)
    decreases |s| - i
  {
    if i < |s| {
      var t, j := Swap(s, i, picks[i]), i + 1;
      SwapIsPermutation(s, i, picks[i]);
      ShuffledFromIsPermutation(t, picks, j);
      assert ShuffledFrom(s, picks, i) == ShuffledFrom(t, picks, j);
    }
  }

  lemma {:induction false} ShuffledFromKeepsIds(s: seq<Card>, picks: seq<int>, i: nat)
    requires ValidPicks(picks, |s|) && i <= |s|
    ensures Ids(ShuffledFrom(s, picks, i)) == Ids(s)
    decreases |s| - i
  {
    if i < |s| {
      var t, j := Swap(s, i, picks[i]), i + 1;
      SwapKeepsIds(s, i, picks[i]);
      ShuffledFromKeepsIds(t, picks, j);
      assert ShuffledFrom(s, picks, i) == ShuffledFrom(t, picks, j);
    }
  }

  /** A permutation of a face-down pile is face down. */
  lemma PermutationKeepsFaceDown(s: seq<Card>, t: seq<Card>)
    requires multiset(s) == multiset(t) && AllFaceDown(s)
    ensures AllFaceDown(t)
  {
    forall i | 0 <= i < |t| ensures !t[i].faceUp {
      assert t[i] in multiset(t);
      assert t[i] in multiset(s);
      var k :| 0 <= k < |s| && s[k] == t[i];
    }
  }

  /** The cards of a pile read from its end backwards, the order in which pop_back hands them out. */
  function Reversed(s: seq<Card>): (r: seq<Card>)
    ensures |r| == |s|
    ensures forall k :: 0 <= k < |s| ==> r[k] == s[|s| - 1 - k]
  {
    if s == [] then [] else Reversed(s[1..]) + [s[0]]
  }

  lemma ReversedTwice(s: seq<Card>)
    ensures Reversed(Reversed(s)) == s
  {
  }

  lemma {:induction false} ReversedKeepsIds(s: seq<Card>)
    ensures Ids(Reversed(s)) == Ids(s)
  {
    if s != [] {
      ReversedKeepsIds(s[1..]);
      IdsSnoc(Reversed(s[1..]), s[0]);
      IdsCons(s);
    }
  }

  // ---------------------------------------------------------------------
  // Dealing the tableau (Table::initializeTable)
  // ---------------------------------------------------------------------

  /** Cards dealt to the columns before column i: 0 + 1 + ... + i. */
  function Tri(i: nat): nat {
    if i == 0 then 0 else Tri(i - 1) + i
  }

  lemma {:induction false} TriMonotone(i: nat, j: nat)
    requires i <= j
    ensures Tri(i) <= Tri(j)
  {
    if i < j {
      TriMonotone(i, j - 1);
    }
  }

  /** The i + 1 cards column i takes: the deck's end, below the Tri(i) cards the earlier columns took. */
  function Chunk(d: seq<Card>, i: nat): (r: seq<Card>)
    requires Tri(i) + i + 1 <= |d|
    ensures |r| == i + 1
  {
    d[|d| - Tri(i) - i - 1..|d| - Tri(i)]
  }

  /** A pile with its last card turned face up. */
  function LastFaceUp(s: seq<Card>): seq<Card>
    requires s != []
  {
    s[..|s| - 1] + [s[|s| - 1].(faceUp := true)]
  }

  /** Column i as dealt from deck d: its chunk popped from the back one card at a time, the last one face up. */
  function DealtColumn(d: seq<Card>, i: nat): seq<Card>
    requires Tri(i) + i + 1 <= |d|
  {
    LastFaceUp(Reversed(Chunk(d, i)))
  }

  /** The seven columns dealt from deck d, which must hold at least 28 cards. */
  function Deal(d: seq<Card>): (cols: seq<seq<Card>>)
    requires |d| >= 28
    ensures |cols| == 7
  {
    seq(7, i requires 0 <= i < 7 => (TriMonotone(i + 1, 7); DealtColumn(d, i)))
  }

  /**
   * Column i holds exactly i + 1 cards, the last of them face up and the
   * others as they were in the deck (face down for a fresh deck).
   */
  lemma DealtColumnShape(d: seq<Card>, i: nat)
    requires Tri(i) + i + 1 <= |d|
    ensures |DealtColumn(d, i)| == i + 1
    ensures DealtColumn(d, i)[i].faceUp
    ensures AllFaceDown(d) ==> AllFaceDown(DealtColumn(d, i)[..i])
  {
  }

  lemma DealtColumnIds(d: seq<Card>, i: nat)
    requires Tri(i) + i + 1 <= |d|
    ensures Ids(DealtColumn(d, i)) == Ids(Chunk(d, i))
  {
    var r := Reversed(Chunk(d, i));
    assert |r| == i + 1;
    IdsIgnoreFaces(DealtColumn(d, i), r);
    ReversedKeepsIds(Chunk(d, i));
  }

  /** The first m + 1 piles of a row hold the first m piles and pile m. */
  lemma ColumnsIdsPrefix(cols: seq<seq<Card>>, m: int, n: int)
    requires 0 <= m && n == m + 1 && n <= |cols|
    ensures ColumnsIds(cols[..n]) == ColumnsIds(cols[..m]) + Ids(cols[m])
  {
    assert cols[..n][..m] == cols[..m];
  }

  /** A pile split at r holds the two parts. */
  lemma IdsSplitAt(s: seq<Card>, r: int)
    requires 0 <= r <= |s|
    ensures Ids(s) == Ids(s[..r]) + Ids(s[r..])
  {
    assert s == s[..r] + s[r..];
    IdsAppend(s[..r], s[r..]);
  }

  /** A prefix of a pile split at lo holds the two parts. */
  lemma IdsSplit(d: seq<Card>, lo: int, hi: int)
    requires 0 <= lo <= hi <= |d|
    ensures Ids(d[..hi]) == Ids(d[..lo]) + Ids(d[lo..hi])
  {
    assert d[..hi] == d[..lo] + d[lo..hi];
    IdsAppend(d[..lo], d[lo..hi]);
  }

  /** Dealing column m takes its chunk, the cards between lo and hi, off the end of the deck. */
  lemma DealStepDeck(d: seq<Card>, m: nat, n: nat, lo: int, hi: int)
    requires n == m + 1 && Tri(m) + n <= |d|
    requires hi == |d| - Tri(m) && lo == |d| - Tri(n)
    ensures 0 <= lo <= hi <= |d|
    ensures Ids(d[..hi]) == Ids(d[..lo]) + Ids(Chunk(d, m))
  {
    TriStep(m, n);
    ChunkIsSlice(d, m, lo, hi);
    IdsSplit(d, lo, hi);
  }

  lemma TriStep(m: nat, n: nat)
    requires n == m + 1
    ensures Tri(n) == Tri(m) + n
  {
  }

  lemma ChunkIsSlice(d: seq<Card>, i: nat, lo: int, hi: int)
    requires Tri(i) + i + 1 <= |d| && hi == |d| - Tri(i) && lo == hi - i - 1
    ensures 0 <= lo <= hi <= |d| && Chunk(d, i) == d[lo..hi]
  {
  }

  /** Pure bookkeeping of one dealing step: the chunk moves from the deck to the columns. */
  lemma DealAlgebra(cols: multiset<CardId>, cols': multiset<CardId>, rest: multiset<CardId>,
                    rest': multiset<CardId>, chunk: multiset<CardId>, deck: multiset<CardId>)
    requires cols' == cols + chunk && rest == rest' + chunk
    requires cols + rest == deck
    ensures cols' + rest' == deck
  {
    forall id ensures (cols' + rest')[id] == deck[id] {
      assert (cols + rest)[id] == deck[id];
    }
  }

  /** Each of the first n piles of cols holds the cards of the matching chunk of d. */
  predicate HoldsChunks(d: seq<Card>, cols: seq<seq<Card>>, n: nat)
    requires n <= |cols|
  {
    forall i :: 0 <= i < n ==> Tri(i) + i + 1 <= |d| && Ids(cols[i]) == Ids(Chunk(d, i))
  }

  /**
   * Columns that hold the first n chunks of the deck, together with what is
   * left of the deck, hold exactly the cards of the deck.
   */
  lemma {:induction false} ChunksKeepCards(d: seq<Card>, cols: seq<seq<Card>>, n: nat)
    requires n <= |cols| && Tri(n) <= |d|
    requires HoldsChunks(d, cols, n)
    ensures ColumnsIds(cols[..n]) + Ids(d[..|d| - Tri(n)]) == Ids(d)
  {
    if n == 0 {
      assert cols[..0] == [];
      assert d[..|d|] == d;
    } else {
      var m := n - 1;
      TriMonotone(m, n);
      ChunksKeepCards(d, cols, m);
      ColumnsIdsPrefix(cols, m, n);
      DealStepDeck(d, m, n, |d| - Tri(n), |d| - Tri(m));
      DealAlgebra(ColumnsIds(cols[..m]), ColumnsIds(cols[..n]), Ids(d[..|d| - Tri(m)]),
        Ids(d[..|d| - Tri(n)]), Ids(Chunk(d, m)), Ids(d));
    }
  }

  /** ChunksKeepCards for a whole row, with the rest of the deck given by its length. */
  lemma AllChunksKeepCards(d: seq<Card>, cols: seq<seq<Card>>, n: nat, k: int)
    requires n == |cols| && 0 <= k == |d| - Tri(n) && HoldsChunks(d, cols, n)
    ensures ColumnsIds(cols) + Ids(d[..k]) == Ids(d)
  {
    ChunksKeepCards(d, cols, n);
    assert cols[..n] == cols;
  }

  lemma TriSeven()
    ensures Tri(7) == 28
  {
  }

  /** Column i of the deal holds the cards of chunk i. */
  lemma DealHoldsChunks(d: seq<Card>)
    requires |d| >= 28
    ensures HoldsChunks(d, Deal(d), 7)
  {
    forall i | 0 <= i < 7 ensures Tri(i) + i + 1 <= |d| && Ids(Deal(d)[i]) == Ids(Chunk(d, i)) {
      TriMonotone(i + 1, 7);
      DealtColumnIds(d, i);
    }
  }

  /** Dealing moves 28 cards from the deck into the columns, losing and duplicating none. */
  lemma DealKeepsCards(d: seq<Card>)
    requires |d| >= 28
    ensures ColumnsIds(Deal(d)) + Ids(d[..|d| - 28]) == Ids(d)
  {
    var cols := Deal(d);
    DealHoldsChunks(d);
    TriSeven();
    AllChunksKeepCards(d, cols, 7, |d| - 28);
  }

  lemma EmptyFoundationsIds()
    ensures ColumnsIds([[], [], [], []]) == multiset{}
  {
    ColumnsIdsEmpty([[], [], [], []]);
  }

  // ---------------------------------------------------------------------
  // The hidden pool: stock `cards` and waste `buffer` (HiddenPool)
  // ---------------------------------------------------------------------

  datatype Pool = Pool(cards: seq<Card>, buffer: seq<Card>)

  /** The cards of s, each turned the given way up. */
  function Turned(s: seq<Card>, up: bool): seq<Card> {
    seq(|s|, i requires 0 <= i < |s| => s[i].(faceUp := up))
  }

  lemma TurnedKeepsIds(s: seq<Card>, up: bool)
    ensures Ids(Turned(s, up)) == Ids(s)
  {
    IdsIgnoreFaces(Turned(s, up), s);
  }

  /**
   * One click on the stock (HiddenPool::showNextCard): with cards in the
   * stock, its last card goes face up onto the end of the waste; with an
   * empty stock the waste becomes the stock, in the same order, face down.
   */
  function ShowNext(p: Pool): Pool {
    if p.cards != [] then
      Pool(p.cards[..|p.cards| - 1], p.buffer + [p.cards[|p.cards| - 1].(faceUp := true)])
    else
      Pool(Turned(p.buffer, false), [])
  }

  /** A click moves cards between stock and waste but never loses or adds one. */
  lemma ShowNextKeepsCards(p: Pool)
    ensures |ShowNext(p).cards| + |ShowNext(p).buffer| == |p.cards| + |p.buffer|
    ensures Ids(ShowNext(p).cards) + Ids(ShowNext(p).buffer) == Ids(p.cards) + Ids(p.buffer)
  {
    if p.cards != [] {
      var n := |p.cards| - 1;
      var x := p.cards[n];
      IdsSnoc(p.buffer, x.(faceUp := true));
      assert Ids(p.cards) == Ids(p.cards[..n]) + multiset{Id(x)};
      Transfer(Ids(p.cards), Ids(p.cards[..n]), Ids(p.buffer), Ids(ShowNext(p).buffer), multiset{Id(x)});
    } else {
      TurnedKeepsIds(p.buffer, false);
    }
  }

  /** The three ways a click can go, in the source's terms. */
  lemma ShowNextCases(p: Pool)
    ensures p.cards != [] ==>
      && ShowNext(p).cards == p.cards[..|p.cards| - 1]
      && |ShowNext(p).buffer| == |p.buffer| + 1
      && ShowNext(p).buffer[..|p.buffer|] == p.buffer
      && ShowNext(p).buffer[|p.buffer|] == p.cards[|p.cards| - 1].(faceUp := true)
    ensures p.cards == [] ==>
      && ShowNext(p).buffer == []
      && |ShowNext(p).cards| == |p.buffer|
      && forall i :: 0 <= i < |p.buffer| ==> ShowNext(p).cards[i] == p.buffer[i].(faceUp := false)
    ensures p.cards == [] && p.buffer == [] ==> ShowNext(p) == p
  {
  }

  /** n clicks on the stock. */
  function ShowNextTimes(p: Pool, n: nat): Pool
    decreases n
  {
    if n == 0 then p else ShowNextTimes(ShowNext(p), n - 1)
  }

  lemma {:induction false} ShowNextTimesAdd(p: Pool, a: nat, b: nat, c: nat)
    requires c == a + b
    ensures ShowNextTimes(p, c) == ShowNextTimes(ShowNextTimes(p, a), b)
    decreases a
  {
    if a > 0 {
      ShowNextTimesAdd(ShowNext(p), a - 1, b, c - 1);
    }
  }

  /** As many clicks as the stock has cards turn the whole stock, last card first, face up onto the waste. */
  lemma {:induction false} ShowNextDrawsWholeStock(p: Pool)
    ensures ShowNextTimes(p, |p.cards|) == Pool([], p.buffer + Turned(Reversed(p.cards), true))
    decreases |p.cards|
  {
    if p.cards != [] {
      var n := |p.cards| - 1;
      var x := p.cards[n];
      ShowNextDrawsWholeStock(ShowNext(p));
      assert Turned(Reversed(p.cards), true)
          == [x.(faceUp := true)] + Turned(Reversed(p.cards[..n]), true);
    } else {
      assert p.buffer + Turned(Reversed(p.cards), true) == p.buffer;
    }
  }

  /**
   * A full pass over a face-down stock with an empty waste: every card is
   * drawn and then the waste is turned back. The stock comes back in the
   * reverse order, because the waste is put back in the order it was drawn.
   */
  lemma FullPassReversesStock(s: seq<Card>, n: nat)
    requires AllFaceDown(s) && n == |s| + 1
    ensures ShowNextTimes(Pool(s, []), n) == Pool(Reversed(s), [])
  {
    var p := Pool(s, []);
    ShowNextTimesAdd(p, |s|, 1, n);
    ShowNextDrawsWholeStock(p);
    var w := Turned(Reversed(s), true);
    assert [] + w == w;
    assert ShowNextTimes(Pool([], w), 1) == Pool(Turned(w, false), []);
    assert Turned(w, false) == Reversed(s);
  }

  /** Reading a face-down pile backwards gives a face-down pile. */
  lemma ReversedKeepsFaceDown(s: seq<Card>)
    requires AllFaceDown(s)
    ensures AllFaceDown(Reversed(s))
  {
    var r := Reversed(s);
    forall k | 0 <= k < |r| ensures !r[k].faceUp {
      assert r[k] == s[|s| - 1 - k];
    }
  }

  /** Two full passes bring a face-down stock back to where it started. */
  lemma TwoPassesRestoreStock(s: seq<Card>)
    requires AllFaceDown(s)
    ensures ShowNextTimes(Pool(s, []), 2 * (|s| + 1)) == Pool(s, [])
  {
    var n, r := |s| + 1, Reversed(s);
    var p := Pool(s, []);
    ShowNextTimesAdd(p, n, n, 2 * (|s| + 1));
    FullPassReversesStock(s, n);
    ReversedKeepsFaceDown(s);
    FullPassReversesStock(r, n);
    ReversedTwice(s);
  }

  // ---------------------------------------------------------------------
  // The board: tableau columns, hidden pool and foundations
  // ---------------------------------------------------------------------

  datatype Board = Board(columns: seq<seq<Card>>, pool: Pool, cells: seq<seq<Card>>)

  predicate WellFormed(b: Board) {
    |b.columns| == 7 && |b.cells| == 4
  }

  /** Every card on the board: tableau, stock, waste and foundations. */
  function AllIds(b: Board): multiset<CardId> {
    ColumnsIds(b.columns) + Ids(b.pool.cards) + Ids(b.pool.buffer) + ColumnsIds(b.cells)
  }

  /** The deck after `initializeDeck`: the standard deck shuffled by the given picks. */
  function ShuffledDeck(picks: seq<int>): (d: seq<Card>)
    requires ValidPicks(picks, 52)
    ensures |d| == 52
  {
    StandardDeckContents();
    Shuffled(StandardDeck(), picks)
  }

  lemma ShuffledDeckFaceDown(picks: seq<int>)
    requires ValidPicks(picks, 52)
    ensures AllFaceDown(ShuffledDeck(picks))
  {
    StandardDeckContents();
    ShuffledFromIsPermutation(StandardDeck(), picks, 0);
    PermutationKeepsFaceDown(StandardDeck(), ShuffledDeck(picks));
  }

  lemma ShuffledDeckCards(picks: seq<int>)
    requires ValidPicks(picks, 52)
    ensures Ids(ShuffledDeck(picks)) == Ids(StandardDeck())
  {
    StandardDeckContents();
    ShuffledFromKeepsIds(StandardDeck(), picks, 0);
  }

  /**
   * The board after dealing from deck d (Table::initializeTable) and
   * draining the rest of d into the stock (HiddenPool::initializeHiddenPool),
   * with the waste and the foundations empty.
   */
  function DealtBoard(d: seq<Card>): Board
    requires |d| >= 28
  {
    Board(Deal(d), Pool(Reversed(d[..|d| - 28]), []), [[], [], [], []])
  }

  /** The board main() sets up: dealt from the shuffled deck. */
  function InitialBoard(picks: seq<int>): Board
    requires ValidPicks(picks, 52)
  {
    DealtBoard(ShuffledDeck(picks))
  }

  lemma DealtBoardLayout(d: seq<Card>)
    requires |d| >= 28 && AllFaceDown(d)
    ensures var b := DealtBoard(d);
      && WellFormed(b)
      && (forall i :: 0 <= i < 7 ==>
            |b.columns[i]| == i + 1 && b.columns[i][i].faceUp && AllFaceDown(b.columns[i][..i]))
      && |b.pool.cards| == |d| - 28 && AllFaceDown(b.pool.cards) && b.pool.buffer == []
      && (forall k :: 0 <= k < 4 ==> b.cells[k] == [])
  {
    var cols: seq<seq<Card>> := Deal(d);
    forall i | 0 <= i < 7
      ensures |cols[i]| == i + 1 && cols[i][i].faceUp && AllFaceDown(cols[i][..i])
    {
      TriMonotone(i + 1, 7);
      DealtColumnShape(d, i);
    }
    ReversedKeepsFaceDown(d[..|d| - 28]);
  }

  /** Pure bookkeeping of the dealt board: columns and stock, nothing in the waste or the foundations. */
  lemma DealtAlgebra(all: multiset<CardId>, cols: multiset<CardId>, stock: multiset<CardId>,
                     waste: multiset<CardId>, cells: multiset<CardId>, rest: multiset<CardId>,
                     deck: multiset<CardId>)
    requires all == cols + stock + waste + cells
    requires waste == multiset{} && cells == multiset{} && stock == rest
    requires cols + rest == deck
    ensures all == deck
  {
    forall id ensures all[id] == deck[id] {
      assert (cols + rest)[id] == deck[id];
    }
  }

  lemma DealtBoardCards(d: seq<Card>)
    requires |d| >= 28
    ensures AllIds(DealtBoard(d)) == Ids(d)
  {
    var b := DealtBoard(d);
    var rest := d[..|d| - 28];
    DealKeepsCards(d);
    ReversedKeepsIds(rest);
    EmptyFoundationsIds();
    assert Ids(b.pool.buffer) == multiset{};
    DealtAlgebra(AllIds(b), ColumnsIds(b.columns), Ids(b.pool.cards), Ids(b.pool.buffer),
      ColumnsIds(b.cells), Ids(rest), Ids(d));
  }

  /**
   * The opening position: column i holds i + 1 cards with only the last one
   * face up, the stock holds the other 24 cards face down, and the waste
   * and the foundations are empty.
   */
  lemma InitialBoardLayout(picks: seq<int>)
    requires ValidPicks(picks, 52)
    ensures var b := InitialBoard(picks);
      && WellFormed(b)
      && (forall i :: 0 <= i < 7 ==>
            |b.columns[i]| == i + 1 && b.columns[i][i].faceUp && AllFaceDown(b.columns[i][..i]))
      && |b.pool.cards| == 24 && AllFaceDown(b.pool.cards) && b.pool.buffer == []
      && (forall k :: 0 <= k < 4 ==> b.cells[k] == [])
  {
    ShuffledDeckFaceDown(picks);
    DealtBoardLayout(ShuffledDeck(picks));
  }

  /** The opening position holds the cards of the standard deck, each exactly once. */
  lemma InitialBoardCards(picks: seq<int>)
    requires ValidPicks(picks, 52)
    ensures AllIds(InitialBoard(picks)) == Ids(StandardDeck())
  {
    ShuffledDeckCards(picks);
    DealtBoardCards(ShuffledDeck(picks));
  }

  // ---------------------------------------------------------------------
  // Tableau moves (Table::moveCards, Table::moveFromHiddenPool)
  // ---------------------------------------------------------------------

  /** The run f[r..] moved onto the end of column t. */
  function MovedRun(cols: seq<seq<Card>>, f: int, r: int, t: int): seq<seq<Card>>
    requires 0 <= f < |cols| && 0 <= t < |cols| && f != t && 0 <= r <= |cols[f]|
  {
    cols[t := cols[t] + cols[f][r..]][f := cols[f][..r]]
  }

  /** Moving a run keeps every card on the tableau: the source loses exactly what the target gains. */
  lemma MovedRunKeepsCards(cols: seq<seq<Card>>, f: int, r: int, t: int)
    requires 0 <= f < |cols| && 0 <= t < |cols| && f != t && 0 <= r <= |cols[f]|
    ensures ColumnsIds(MovedRun(cols, f, r, t)) == ColumnsIds(cols)
  {
    var run := cols[f][r..];
    var mid := cols[t := cols[t] + run];
    ColumnsIdsAppend(cols, t, run);
    assert mid[f] == cols[f];
    ColumnsIdsTruncate(mid, f, r);
    assert MovedRun(cols, f, r, t) == mid[f := mid[f][..r]];
    Cancel(ColumnsIds(MovedRun(cols, f, r, t)), ColumnsIds(cols), Ids(run));
  }

  /** The last waste card moved onto the end of column t. */
  function FromWaste(b: Board, t: int): Board
    requires WellFormed(b) && 0 <= t < 7 && b.pool.buffer != []
  {
    var w := b.pool.buffer;
    b.(columns := b.columns[t := b.columns[t] + [w[|w| - 1]]],
       pool := b.pool.(buffer := w[..|w| - 1]))
  }

  /** Pure bookkeeping of a card leaving the waste for another container. */
  lemma BoardAlgebra(cols: multiset<CardId>, cols': multiset<CardId>, stock: multiset<CardId>,
                     waste: multiset<CardId>, waste': multiset<CardId>,
                     cells: multiset<CardId>, cells': multiset<CardId>, x: multiset<CardId>)
    requires waste == waste' + x
    requires cols' + cells' == cols + cells + x
    ensures cols' + stock + waste' + cells' == cols + stock + waste + cells
  {
    forall id ensures (cols' + stock + waste' + cells')[id] == (cols + stock + waste + cells)[id] {
      assert waste[id] == (waste' + x)[id];
      assert (cols' + cells')[id] == (cols + cells + x)[id];
    }
  }

  /** Moving the top waste card onto a column keeps every card on the board. */
  lemma FromWasteKeepsCards(b: Board, t: int)
    requires WellFormed(b) && 0 <= t < 7 && b.pool.buffer != []
    ensures AllIds(FromWaste(b, t)) == AllIds(b)
  {
    var w := b.pool.buffer;
    var x := w[|w| - 1];
    var b' := FromWaste(b, t);
    ColumnsIdsAppend(b.columns, t, [x]);
    IdsSingle(x);
    assert Ids(w) == Ids(b'.pool.buffer) + multiset{Id(x)};
    BoardAlgebra(ColumnsIds(b.columns), ColumnsIds(b'.columns), Ids(b.pool.cards),
      Ids(w), Ids(b'.pool.buffer), ColumnsIds(b.cells), ColumnsIds(b'.cells), multiset{Id(x)});
  }

  /** Column col with its card at k turned: set face up, or toggled when `toggle` holds. */
  function Uncover(col: seq<Card>, k: int, toggle: bool): seq<Card>
    requires 0 <= k < |col|
  {
    col[k := if toggle then FaceToggle(col[k]) else col[k].(faceUp := true)]
  }

  lemma UncoverKeepsIds(col: seq<Card>, k: int, toggle: bool)
    requires 0 <= k < |col|
    ensures Ids(Uncover(col, k, toggle)) == Ids(col)
  {
    IdsIgnoreFaces(Uncover(col, k, toggle), col);
  }

  /**
   * Toggling and setting face up differ only on a card that is already face
   * up: on a face-down card (the only kind a King can lie on in play) they agree.
   */
  lemma UncoverToggleAgrees(col: seq<Card>, k: int)
    requires 0 <= k < |col|
    ensures Uncover(col, k, true) == Uncover(col, k, false) <==> !col[k].faceUp
  {
    if col[k].faceUp {
      assert Uncover(col, k, true)[k].faceUp != Uncover(col, k, false)[k].faceUp;
    }
  }

  // ---------------------------------------------------------------------
  // Steps of the building and dealing loops, shared by both copies of the classes
  // ---------------------------------------------------------------------

  /** Reading a slice of a pile backwards gives the slice one shorter, then the slice's first card. */
  lemma ReversedStep(d: seq<Card>, lo: int, hi: int)
    requires 0 <= lo < hi <= |d|
    ensures Reversed(d[lo..hi]) == Reversed(d[lo + 1..hi]) + [d[lo]]
  {
    var s := d[lo..hi];
    assert s[1..] == d[lo + 1..hi];
  }

  /** One more pass of the outer loop of initializeDeck completes one more suit. */
  lemma DeckUpToStep(m: nat, n: nat, k: nat)
    requires n == m + 1 <= 4 && k == ValuesPerSuit
    ensures DeckUpTo(n) == DeckUpTo(m) + SuitCards(SuitOf(m), k)
  {
  }

  /** The inner loop of initializeDeck has pushed suit m whole, so the deck holds the suits before n. */
  lemma SuitPushed(m: nat, n: nat, k: nat, start: seq<Card>, done: seq<Card>, cards: seq<Card>)
    requires n == m + 1 <= 4 && k == ValuesPerSuit
    requires done == start + DeckUpTo(m) && cards == done + SuitCards(SuitOf(m), k)
    ensures cards == start + DeckUpTo(n)
  {
    DeckUpToStep(m, n, k);
    Associative(start, DeckUpTo(m), SuitCards(SuitOf(m), k));
  }

  /** After the outer loop of initializeDeck the deck holds the whole standard deck. */
  lemma DeckBuilt(n: nat, start: seq<Card>, cards: seq<Card>)
    requires n == 4 && cards == start + DeckUpTo(n)
    ensures cards == start + StandardDeck()
  {
    DeckUpToIsStandard(n);
  }

  /** Solver bookkeeping: popping the last card of a prefix of the deck leaves the prefix one shorter. */
  lemma TakeLast(d: seq<Card>, n: int)
    requires 0 < n <= |d|
    ensures d[..n][..n - 1] == d[..n - 1] && d[..n][n - 1] == d[n - 1]
  {
  }

  /** The board main() sets up is the one dealt from the deck initializeDeck leaves. */
  lemma InitialBoardIs(picks: seq<int>, d: seq<Card>)
    requires ValidPicks(picks, 52) && d == Shuffled([] + StandardDeck(), picks)
    ensures |d| >= 28 && InitialBoard(picks) == DealtBoard(d)
  {
    assert [] + StandardDeck() == StandardDeck();
  }

  /** What initializeTable and initializeHiddenPool leave in fresh containers is the dealt board. */
  lemma DealtBoardIs(d: seq<Card>, columns: seq<seq<Card>>, stock: seq<Card>, cells: seq<seq<Card>>)
    requires |d| >= 28
    requires |columns| == 7
    requires forall i :: 0 <= i < 7 ==> columns[i] == [] + Deal(d)[i]
    requires stock == [] + Reversed(d[..|d| - 28])
    requires |cells| == 4
    requires forall k :: 0 <= k < 4 ==> cells[k] == []
    ensures Board(columns, Pool(stock, []), cells) == DealtBoard(d)
  {
    assert cells == [[], [], [], []];
    forall i | 0 <= i < 7
      ensures columns[i] == Deal(d)[i]
    {
      assert [] + Deal(d)[i] == Deal(d)[i];
    }
    assert [] + Reversed(d[..|d| - 28]) == Reversed(d[..|d| - 28]);
  }

  /** Solver bookkeeping: concatenation regrouped. */
  lemma Associative(a: seq<Card>, b: seq<Card>, c: seq<Card>)
    ensures a + b + c == a + (b + c)
  {
  }

  /** One pass of the inner loop of initializeTable: the card taken from the deck extends the reversed chunk. */
  lemma DealCardStep(d: seq<Card>, lo: int, mid: int, hi: int, pre: seq<Card>, col: seq<Card>, card: Card)
    requires 0 <= lo < hi <= |d| && mid == lo + 1
    requires col == pre + Reversed(d[mid..hi]) && card == d[lo]
    ensures col + [card] == pre + Reversed(d[lo..hi])
  {
    ReversedStep(d, lo, hi);
    Associative(pre, Reversed(d[mid..hi]), [card]);
  }

  /** The last pass of the inner loop of initializeTable: the card taken, turned face up, completes column i. */
  lemma DealLastCard(d: seq<Card>, i: nat, lo: int, mid: int, hi: int, pre: seq<Card>, col: seq<Card>, card: Card)
    requires Tri(i) + i + 1 <= |d| && hi == |d| - Tri(i) && lo == hi - i - 1 && mid == lo + 1
    requires col == pre + Reversed(d[mid..hi]) && card == d[lo]
    ensures col + [card.(faceUp := true)] == pre + DealtColumn(d, i)
  {
    var r := Reversed(d[mid..hi]);
    ReversedStep(d, lo, hi);
    ChunkIsSlice(d, i, lo, hi);
    var full := r + [card];
    assert full[..|full| - 1] == r;
    Associative(pre, r, [card.(faceUp := true)]);
  }

  // ---------------------------------------------------------------------
  // Foundations (HomeCell::canPlaceCard, HomeCell::placeCard)
  // ---------------------------------------------------------------------

  /** A foundation may take an Ace when empty, otherwise the value one above its top card. */
  predicate CanPlace(cells: seq<seq<Card>>, c: Card)
    requires |cells| == 4
  {
    var cell := cells[SuitIndex(c.suit)];
    if cell == [] then c.value == 1 else cell[|cell| - 1].value == c.value - 1
  }

  /** The card appended to the foundation of its own suit. */
  function Placed(cells: seq<seq<Card>>, c: Card): seq<seq<Card>>
    requires |cells| == 4
  {
    cells[SuitIndex(c.suit) := cells[SuitIndex(c.suit)] + [c]]
  }

  /** A foundation holds its suit's values 1, 2, ..., k in order. */
  predicate FoundationRun(cell: seq<Card>, s: Suit) {
    forall j :: 0 <= j < |cell| ==> cell[j].suit == s && cell[j].value == j + 1
  }

  predicate FoundationsValid(cells: seq<seq<Card>>) {
    |cells| == 4 && forall k :: 0 <= k < 4 ==> FoundationRun(cells[k], SuitOf(k))
  }

  /** On valid foundations, a card is accepted exactly when it is the next value of its suit. */
  lemma CanPlaceIsNextValue(cells: seq<seq<Card>>, c: Card)
    requires FoundationsValid(cells)
    ensures CanPlace(cells, c) <==> c.value == |cells[SuitIndex(c.suit)]| + 1
  {
    var k := SuitIndex(c.suit);
    assert FoundationRun(cells[k], SuitOf(k));
  }

  /** Placing an accepted card keeps every foundation a run 1..k of its own suit. */
  lemma PlacedKeepsFoundations(cells: seq<seq<Card>>, c: Card)
    requires FoundationsValid(cells) && CanPlace(cells, c)
    ensures FoundationsValid(Placed(cells, c))
  {
    var k := SuitIndex(c.suit);
    CanPlaceIsNextValue(cells, c);
    assert FoundationRun(cells[k], SuitOf(k));
    assert SuitOf(k) == c.suit;
  }

  /** Placing a card adds exactly that card to the foundations. */
  lemma PlacedKeepsCards(cells: seq<seq<Card>>, c: Card)
    requires |cells| == 4
    ensures ColumnsIds(Placed(cells, c)) == ColumnsIds(cells) + multiset{Id(c)}
  {
    var k := SuitIndex(c.suit);
    ColumnsIdsUpdate(cells, k, cells[k] + [c]);
    IdsSnoc(cells[k], c);
    Cancel(ColumnsIds(Placed(cells, c)), ColumnsIds(cells) + multiset{Id(c)}, Ids(cells[k]));
  }
}
