/** The database as the handlers see it: three tables that `create` appends to. */
module Store {
  import opened Entities

  /** What the creation handlers keep true of the stored rows: every card lies in a
      stored deck and every review belongs to a stored card; every review's grade is
      in [0, 5] and its interval one of the scheduler's. Text fields are not
      constrained: the update handlers may store a blank title, front or back. */
  ghost predicate Consistent(decks: seq<Deck>, cards: seq<Card>, reviews: seq<ReviewRecord>) {
    && (forall c | c in cards :: exists d | d in decks :: d.id == c.deckId)
    && (forall r | r in reviews ::
          (exists c | c in cards :: c.id == r.cardId) &&
          0.0 <= r.grade <= 5.0 && r.intervalDays in {1, 2, 4, 7})
  }

  lemma AddDeckConsistent(decks: seq<Deck>, cards: seq<Card>, reviews: seq<ReviewRecord>, d: Deck)
    requires Consistent(decks, cards, reviews)
    ensures Consistent(decks + [d], cards, reviews)
  {
  }

  lemma AddCardConsistent(decks: seq<Deck>, cards: seq<Card>, reviews: seq<ReviewRecord>, c: Card)
    requires Consistent(decks, cards, reviews)
    requires exists d | d in decks :: d.id == c.deckId
    ensures Consistent(decks, cards + [c], reviews)
  {
  }

  lemma AddReviewConsistent(decks: seq<Deck>, cards: seq<Card>, reviews: seq<ReviewRecord>, r: ReviewRecord)
    requires Consistent(decks, cards, reviews)
    requires exists c | c in cards :: c.id == r.cardId
    requires 0.0 <= r.grade <= 5.0 && r.intervalDays in {1, 2, 4, 7}
    ensures Consistent(decks, cards, reviews + [r])
  {
  }

  class Db {
    var decks: seq<Deck>
    var cards: seq<Card>
    var reviews: seq<ReviewRecord>

    ghost predicate Valid()
      reads this
    {
      Consistent(decks, cards, reviews)
    }

    constructor ()
      ensures Valid()
      ensures decks == [] && cards == [] && reviews == []
    {
      decks, cards, reviews := [], [], [];
    }

    /** `prisma.deck.create`. */
    method CreateDeck(d: Deck)
      modifies this
      ensures decks == old(decks) + [d]
      ensures cards == old(cards) && reviews == old(reviews)
    {
      decks := decks + [d];
    }

    /** `prisma.card.create`. */
    method CreateCard(c: Card)
      modifies this
      ensures cards == old(cards) + [c]
      ensures decks == old(decks) && reviews == old(reviews)
    {
      cards := cards + [c];
    }

    /** `prisma.reviewHistory.create`: history is only ever appended to. */
    method CreateReview(r: ReviewRecord)
      modifies this
      ensures reviews == old(reviews) + [r]
      ensures decks == old(decks) && cards == old(cards)
    {
      reviews := reviews + [r];
    }
  }
}
