/** The records the deck code passes around. */
module Decks {

  /** A deck's cards: card name to quantity, in the order the names were first seen. */
  type CardMap = seq<(string, int)>

  /** One deck of the collection. `id` is opaque and assigned when the deck is created. */
  datatype Deck = Deck(id: string, name: string, cards: CardMap, colour: string, selected: bool)

  /** What the aggregation records for one card of one deck: `{ number, colour }`. */
  datatype Info = Info(number: int, colour: string)
}
