/** The card-creation endpoint: trims and checks the submitted fields, checks that
    the deck is the user's, and stores one card. */
module CardsRoute {
  import opened Wrappers
  import opened Time
  import opened Text
  import opened Entities
  import opened Store

  datatype CardFields = CardFields(deckId: string, front: string, back: string, hint: Option<string>)

  /** The submitted fields as the handler reads them: a non-string becomes "" (or null
      for the hint); front, back and hint are trimmed; a blank hint becomes null.
      The deck id is taken as sent, without trimming. */
  function ReadCardFields(rawDeckId: Option<string>, rawFront: Option<string>,
                          rawBack: Option<string>, rawHint: Option<string>): (f: CardFields)
    ensures f.deckId == "" <==> rawDeckId.None? || rawDeckId.value == ""
    ensures f.deckId != "" ==> f.deckId == rawDeckId.value
    ensures rawFront.Some? ==> TrimOf(rawFront.value, f.front)
    ensures rawBack.Some? ==> TrimOf(rawBack.value, f.back)
    ensures f.front == "" <==> rawFront.None? || AllWhitespace(rawFront.value)
    ensures f.back == "" <==> rawBack.None? || AllWhitespace(rawBack.value)
    ensures f.hint.None? <==> rawHint.None? || AllWhitespace(rawHint.value)
    ensures f.hint.Some? ==> f.hint.value != "" && TrimOf(rawHint.value, f.hint.value)
  {
    CardFields(
      if rawDeckId.Some? then rawDeckId.value else "",
      RequiredText(rawFront),
      RequiredText(rawBack),
      OptionalText(rawHint))
  }

  /** `POST /api/cards`. The checks run in this order: a user (401), a deck id and a
      non-blank front and back (400), a deck of the user's with that id (404). Then
      exactly one card is stored. `newId` and `now` are what the database assigns. */
  method Post(db: Db, auth: Option<UserId>, rawDeckId: Option<string>, rawFront: Option<string>,
              rawBack: Option<string>, rawHint: Option<string>, newId: CardId, now: Instant)
    returns (res: Result<Card, Status>)
    requires db.Valid()
    modifies db
    ensures db.Valid()
    ensures db.decks == old(db.decks) && db.reviews == old(db.reviews)
    ensures var f := ReadCardFields(rawDeckId, rawFront, rawBack, rawHint);
            && (auth.None? ==> res == Failure(Unauthorized))
            && (auth.Some? && (f.deckId == "" || f.front == "" || f.back == "") ==> res == Failure(BadRequest))
            && (res.Success? <==>
                  auth.Some? && f.deckId != "" && f.front != "" && f.back != ""
                  && OwnsDeck(db.decks, auth.value, f.deckId))
            && (res.Failure? && auth.Some? && f.deckId != "" && f.front != "" && f.back != ""
                ==> res == Failure(NotFound))
            && (res.Failure? ==> db.cards == old(db.cards))
            && (res.Success? ==>
                  res.value == Card(newId, f.deckId, f.front, f.back, f.hint, now, now)
                  && db.cards == old(db.cards) + [res.value])
  {
    if auth.None? {
      return Failure(Unauthorized);
    }
    var f := ReadCardFields(rawDeckId, rawFront, rawBack, rawHint);
    if f.deckId == "" || f.front == "" || f.back == "" {
      return Failure(BadRequest);
    }
    if !OwnsDeck(db.decks, auth.value, f.deckId) {
      return Failure(NotFound);
    }
    var card := Card(newId, f.deckId, f.front, f.back, f.hint, now, now);
    AddCardConsistent(db.decks, db.cards, db.reviews, card);
    db.CreateCard(card);
    res := Success(card);
  }
}
