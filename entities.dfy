/** The stored entities: users own decks, decks hold cards, and every graded review
    of a card leaves one review-history record. */
module Entities {
  import opened Wrappers
  import opened Time

  type UserId = string
  type DeckId = string
  type CardId = string

  datatype Deck = Deck(
    id: DeckId,
    userId: UserId,
    title: string,
    description: Option<string>,
    createdAt: Instant,
    updatedAt: Instant)

  datatype Card = Card(
    id: CardId,
    deckId: DeckId,
    front: string,
    back: string,
    hint: Option<string>,
    createdAt: Instant,
    updatedAt: Instant)

  /** One graded review. The grade is the request's numeric grade as coerced, which
      validation keeps in [0, 5] but does not force to be a whole number. */
  datatype ReviewRecord = ReviewRecord(
    cardId: CardId,
    grade: real,
    intervalDays: nat,
    nextReviewAt: Instant,
    reviewedAt: Instant)

  /** The error responses of the request handlers: 401, 400 and 404. */
  datatype Status = Unauthorized | BadRequest | NotFound

  /** Some deck with this id belongs to `user`: the `{ id, userId }` lookup. */
  predicate OwnsDeck(decks: seq<Deck>, user: UserId, deckId: DeckId) {
    exists d | d in decks :: d.id == deckId && d.userId == user
  }

  /** Some card with this id sits in a deck of `user`: the `{ id, deck: { userId } }` lookup. */
  predicate OwnsCard(decks: seq<Deck>, cards: seq<Card>, user: UserId, cardId: CardId) {
    exists c | c in cards :: c.id == cardId && OwnsDeck(decks, user, c.deckId)
  }
}
