/**
 * The card records of the deck-list engine. `set` and `type` are Dafny
 * keywords, so the fields holding a printing's set name and its primary type
 * are called `setName` and `typeName`.
 */
module Cards {
  import opened Strings

  /** One printing from the card table: its id, colours, name, set, rarity and primary type. */
  datatype Card = Card(id: string, colors: seq<string>, name: string, setName: string, rarity: string, typeName: string)

  /** A card of the table, or a synthetic one, with the number of copies the deck asks for. */
  datatype DeckCard = DeckCard(
    id: string, colors: seq<string>, name: string, setName: string, rarity: string, typeName: string,
    amount: nat)

  /** `{ ...c, amount }`: every field of the printing, and the amount. */
  function WithAmount(c: Card, amount: nat): DeckCard {
    DeckCard(c.id, c.colors, c.name, c.setName, c.rarity, c.typeName, amount)
  }

  /** The four ways the deck can be grouped. */
  datatype SortKey = Set | Color | Rarity | Type

  function CardName(c: Card): string { c.name }
  function CardSet(c: Card): string { c.setName }

  function DeckName(d: DeckCard): string { d.name }
  function DeckSet(d: DeckCard): string { d.setName }
  function DeckRarity(d: DeckCard): string { d.rarity }
  function DeckType(d: DeckCard): string { d.typeName }

  /**
   * `c.colors.join('') || 'Colorless'`: a card with no colour, or only
   * empty colour names, is grouped under "Colorless"; any other card under
   * its colours glued together.
   */
  function ColorKey(d: DeckCard): (k: string)
    ensures k != ""
    ensures (forall c :: c in d.colors ==> c == "") ==> k == "Colorless"
    ensures (exists c :: c in d.colors && c != "") ==> k == Concat(d.colors)
  {
    ConcatEmpty(d.colors);
    var joined := Concat(d.colors);
    if joined == "" then "Colorless" else joined
  }
}
