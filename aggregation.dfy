/**
 * The `aggregated` memo (src/App.js:103-107): for every card of every
 * selected deck, the index maps the card name to a cell, and the cell maps
 * the deck's name to `{ number, colour }`. Both levels are JavaScript
 * objects, modelled as insertion-ordered association lists.
 */
module Aggregation {
  import opened Wrappers
  import opened Assoc
  import opened Decks

  /** Deck name to what that deck holds of one card. */
  type Cell = seq<(string, Info)>

  /** Card name to its cell. */
  type Index = seq<(string, Cell)>

  /** The cell of `card`, or the empty object when the card is not indexed. */
  function CellOf(ix: Index, card: string): Cell {
    Lookup(ix, card).GetOr([])
  }

  // ---------------------------------------------------------------- specification

  /** One pass of the inner loop body: `map[card][deckName] = info`. */
  function Enter(ix: Index, card: string, deckName: string, info: Info): Index {
    Put(ix, card, Put(CellOf(ix, card), deckName, info))
  }

  /** The inner loop over the first `|cards|` entries of `deck.cards`. */
  function AddCards(ix: Index, cards: CardMap, deck: Deck): Index
    decreases |cards|
  {
    if cards == [] then ix
    else
      var last := cards[|cards| - 1];
      Enter(AddCards(ix, cards[..|cards| - 1], deck), last.0, deck.name, Info(last.1, deck.colour))
  }

  /** One pass of the outer loop body: an unselected deck is skipped. */
  function AddDeck(ix: Index, deck: Deck): Index {
    if deck.selected then AddCards(ix, deck.cards, deck) else ix
  }

  /** The whole memo, folding the decks in order into the empty object. */
  function AggregateDecks(decks: seq<Deck>): Index
    decreases |decks|
  {
    if decks == [] then []
    else AddDeck(AggregateDecks(decks[..|decks| - 1]), decks[|decks| - 1])
  }

  // ---------------------------------------------------------------- the loops

  /** The inner `for (const [card, num] of Object.entries(d.cards))` loop. */
  method AddDeckCards(index: Index, deck: Deck) returns (ix: Index)
    ensures ix == AddCards(index, deck.cards, deck)
  {
    ix := index;
    var j := 0;
    while j < |deck.cards|
      invariant 0 <= j <= |deck.cards|
      invariant ix == AddCards(index, deck.cards[..j], deck)
    {
      var card := deck.cards[j].0;
      var num := deck.cards[j].1;
      var cell := CellOf(ix, card);          // map[card] || {}
      var before := ix;
      ix := Put(ix, card, cell);             // map[card] = ...
      cell := Put(cell, deck.name, Info(num, deck.colour));
      ix := Put(ix, card, cell);             // the same object, now holding the deck
      PutPut(before, card, CellOf(before, card), cell);
      assert deck.cards[..j + 1][..j] == deck.cards[..j];
      j := j + 1;
    }
    assert deck.cards[..j] == deck.cards;
  }

  /** The outer `for (const d of decks)` loop of the memo. */
  method Aggregate(decks: seq<Deck>) returns (ix: Index)
    ensures ix == AggregateDecks(decks)
  {
    ix := [];
    var i := 0;
    while i < |decks|
      invariant 0 <= i <= |decks|
      invariant ix == AggregateDecks(decks[..i])
    {
      assert decks[..i + 1][..i] == decks[..i];
      if decks[i].selected {
        ix := AddDeckCards(ix, decks[i]);
      }
      i := i + 1;
    }
    assert decks[..i] == decks;
  }

  // ---------------------------------------------------------------- reference definitions

  /** The quantity the last entry for `card` gives it, as `Object.entries` leaves it. */
  function LastValue(cards: CardMap, card: string): (r: Option<int>)
    decreases |cards|
  {
    if cards == [] then None
    else if cards[|cards| - 1].0 == card then Some(cards[|cards| - 1].1)
    else LastValue(cards[..|cards| - 1], card)
  }

  /** Some selected deck holds `card`. */
  ghost predicate HeldBySelected(decks: seq<Deck>, card: string) {
    exists i :: 0 <= i < |decks| && decks[i].selected && LastValue(decks[i].cards, card).Some?
  }

  /**
   * What the cell of `card` should say for `deckName`: the entry of the last
   * selected deck with that name that holds the card (a later deck with the
   * same name overwrites an earlier one).
   */
  ghost function Expected(decks: seq<Deck>, card: string, deckName: string): Option<Info>
    decreases |decks|
  {
    if decks == [] then None
    else
      var d := decks[|decks| - 1];
      if d.selected && d.name == deckName && LastValue(d.cards, card).Some?
      then Some(Info(LastValue(d.cards, card).value, d.colour))
      else Expected(decks[..|decks| - 1], card, deckName)
  }

  /** The decks the checkboxes leave in the aggregation, in order. */
  function SelectedDecks(decks: seq<Deck>): (r: seq<Deck>)
    ensures forall d :: d in r <==> d in decks && d.selected
    decreases |decks|
  {
    if decks == [] then []
    else
      var d := decks[|decks| - 1];
      SelectedDecks(decks[..|decks| - 1]) + (if d.selected then [d] else [])
  }

  // ---------------------------------------------------------------- properties

  lemma {:induction false} LastValueMembership(cards: CardMap, card: string)
    ensures LastValue(cards, card).Some? <==> card in Keys(cards)
    decreases |cards|
  {
    if cards != [] {
      var prefix := cards[..|cards| - 1];
      LastValueMembership(prefix, card);
      KeysSnocMembership(cards, card);
    }
  }

  /**
   * The inner loop changes only the cells of the deck's cards, and each of
   * those gains (or overwrites) the deck's entry with the card's last quantity.
   */
  lemma {:induction false} AddCardsLookup(ix: Index, cards: CardMap, deck: Deck, card: string)
    ensures Lookup(AddCards(ix, cards, deck), card) ==
      match LastValue(cards, card)
      case None => Lookup(ix, card)
      case Some(n) => Some(Put(CellOf(ix, card), deck.name, Info(n, deck.colour)))
    decreases |cards|
  {
    if cards != [] {
      var prefix := cards[..|cards| - 1];
      var last := cards[|cards| - 1];
      var before := AddCards(ix, prefix, deck);
      var info := Info(last.1, deck.colour);
      AddCardsLookup(ix, prefix, deck, card);
      LookupPut(before, last.0, Put(CellOf(before, last.0), deck.name, info), card);
      if last.0 == card {
        match LastValue(prefix, card)
        case None =>
        case Some(n) =>
          PutPut(CellOf(ix, card), deck.name, Info(n, deck.colour), info);
      }
    }
  }

  /** The inner loop indexes exactly the old cards and the deck's own. */
  lemma {:induction false} AddCardsKeys(ix: Index, cards: CardMap, deck: Deck, card: string)
    ensures card in Keys(AddCards(ix, cards, deck)) <==> card in Keys(ix) || LastValue(cards, card).Some?
  {
    AddCardsLookup(ix, cards, deck, card);
    LookupDefined(ix, card);
    LookupDefined(AddCards(ix, cards, deck), card);
  }

  /** A card is indexed exactly when some selected deck holds it. */
  lemma {:induction false} AggregateKeys(decks: seq<Deck>, card: string)
    ensures card in Keys(AggregateDecks(decks)) <==> HeldBySelected(decks, card)
    decreases |decks|
  {
    if decks != [] {
      var prefix := decks[..|decks| - 1];
      var d := decks[|decks| - 1];
      AggregateKeys(prefix, card);
      HeldSnoc(decks, card);
      if d.selected {
        AddCardsKeys(AggregateDecks(prefix), d.cards, d, card);
      }
    }
  }

  lemma HeldSnoc(decks: seq<Deck>, card: string)
    requires decks != []
    ensures HeldBySelected(decks, card) <==>
      HeldBySelected(decks[..|decks| - 1], card) ||
      (decks[|decks| - 1].selected && LastValue(decks[|decks| - 1].cards, card).Some?)
  {
    var prefix := decks[..|decks| - 1];
    var d := decks[|decks| - 1];
    if HeldBySelected(prefix, card) {
      var i :| 0 <= i < |prefix| && prefix[i].selected && LastValue(prefix[i].cards, card).Some?;
      assert decks[i] == prefix[i];
    }
    if HeldBySelected(decks, card) && !(d.selected && LastValue(d.cards, card).Some?) {
      var i :| 0 <= i < |decks| && decks[i].selected && LastValue(decks[i].cards, card).Some?;
      assert i < |prefix|;
      assert prefix[i] == decks[i];
    }
  }

  /** Each cell entry is the one of the last selected deck with that name holding the card. */
  lemma {:induction false} AggregateCell(decks: seq<Deck>, card: string, deckName: string)
    ensures Lookup(CellOf(AggregateDecks(decks), card), deckName) == Expected(decks, card, deckName)
    decreases |decks|
  {
    if decks != [] {
      var prefix := decks[..|decks| - 1];
      var d := decks[|decks| - 1];
      var before := AggregateDecks(prefix);
      AggregateCell(prefix, card, deckName);
      if d.selected {
        AddCardsLookup(before, d.cards, d, card);
        match LastValue(d.cards, card)
        case None =>
        case Some(n) =>
          LookupPut(CellOf(before, card), d.name, Info(n, d.colour), deckName);
      }
    }
  }

  /** Every cell holds each deck name once. */
  lemma {:induction false} AggregateCellUniqueKeys(decks: seq<Deck>, card: string)
    ensures UniqueKeys(CellOf(AggregateDecks(decks), card))
    decreases |decks|
  {
    if decks != [] {
      var prefix := decks[..|decks| - 1];
      var d := decks[|decks| - 1];
      var before := AggregateDecks(prefix);
      AggregateCellUniqueKeys(prefix, card);
      if d.selected {
        AddCardsLookup(before, d.cards, d, card);
        match LastValue(d.cards, card)
        case None =>
        case Some(n) =>
          PutKeepsUniqueKeys(CellOf(before, card), d.name, Info(n, d.colour));
      }
    }
  }

  lemma {:induction false} AddCardsUniqueKeys(ix: Index, cards: CardMap, deck: Deck)
    requires UniqueKeys(ix)
    ensures UniqueKeys(AddCards(ix, cards, deck))
    decreases |cards|
  {
    if cards != [] {
      var prefix := cards[..|cards| - 1];
      var last := cards[|cards| - 1];
      var before := AddCards(ix, prefix, deck);
      AddCardsUniqueKeys(ix, prefix, deck);
      PutKeepsUniqueKeys(before, last.0, Put(CellOf(before, last.0), deck.name, Info(last.1, deck.colour)));
    }
  }

  /** Every card is indexed once. */
  lemma {:induction false} AggregateUniqueKeys(decks: seq<Deck>)
    ensures UniqueKeys(AggregateDecks(decks))
    decreases |decks|
  {
    if decks != [] {
      var prefix := decks[..|decks| - 1];
      var d := decks[|decks| - 1];
      AggregateUniqueKeys(prefix);
      if d.selected {
        AddCardsUniqueKeys(AggregateDecks(prefix), d.cards, d);
      }
    }
  }

  /** Unselected decks contribute nothing: aggregating only the selected ones gives the same index. */
  lemma {:induction false} AggregateSelectedOnly(decks: seq<Deck>)
    ensures AggregateDecks(SelectedDecks(decks)) == AggregateDecks(decks)
    decreases |decks|
  {
    if decks != [] {
      var prefix := decks[..|decks| - 1];
      var d := decks[|decks| - 1];
      AggregateSelectedOnly(prefix);
      var s := SelectedDecks(prefix);
      if d.selected {
        assert (s + [d])[..|s|] == s;
      } else {
        assert s + [] == s;
      }
    }
  }

  // ---------------------------------------------------------------- insertion order

  /** For each deck in turn, its name when it is selected and holds `card`. */
  function Holders(decks: seq<Deck>, card: string): (hs: seq<Option<string>>)
    ensures |hs| == |decks|
    decreases |decks|
  {
    if decks == [] then []
    else
      var d := decks[|decks| - 1];
      Holders(decks[..|decks| - 1], card) + [if d.selected && LastValue(d.cards, card).Some? then Some(d.name) else None]
  }

  /** The deck names of a cell are those of the selected decks holding the card, in deck order, each once. */
  lemma {:induction false} CellKeys(decks: seq<Deck>, card: string)
    ensures Keys(CellOf(AggregateDecks(decks), card)) == KeyFold(Holders(decks, card))
    decreases |decks|
  {
    if decks != [] {
      var prefix := decks[..|decks| - 1];
      var d := decks[|decks| - 1];
      var before := AggregateDecks(prefix);
      var hs := Holders(decks, card);
      assert hs[..|hs| - 1] == Holders(prefix, card);
      CellKeys(prefix, card);
      if d.selected {
        AddCardsLookup(before, d.cards, d, card);
        match LastValue(d.cards, card)
        case None =>
        case Some(n) =>
          PutKeys(CellOf(before, card), d.name, Info(n, d.colour));
      }
    }
  }

  /**
   * The cell of a card lists the deck names in the order of the first
   * selected deck of each name that holds the card.
   */
  lemma CellOrder(decks: seq<Deck>, card: string)
    ensures forall n :: n in Keys(CellOf(AggregateDecks(decks), card)) <==> FirstWrite(Holders(decks, card), n) < |decks|
    ensures var cell := CellOf(AggregateDecks(decks), card);
      forall i, j :: 0 <= i < j < |cell| ==> FirstWrite(Holders(decks, card), cell[i].0) < FirstWrite(Holders(decks, card), cell[j].0)
  {
    CellKeys(decks, card);
    KeyFoldOrder(Holders(decks, card));
  }
}
