/** The review endpoint: `GET` lists the requesting user's due cards, oldest first;
    `POST` grades one card and appends its review record. */
module ReviewRoute {
  import opened Wrappers
  import opened Time
  import opened Seqs
  import opened Entities
  import opened Store
  import opened Reviews

  /** The payload check: the card id must be a non-empty string and the coerced grade
      a number (not NaN) in [0, 5]. Fractional grades pass. */
  function ParsePayload(rawCardId: Option<string>, grade: Option<real>): (p: Option<(CardId, real)>)
    ensures p.Some? <==> rawCardId.Some? && rawCardId.value != "" && grade.Some? && 0.0 <= grade.value <= 5.0
    ensures p.Some? ==> p.value.0 == rawCardId.value && p.value.1 == grade.value
  {
    var cardId := if rawCardId.Some? then rawCardId.value else "";
    if cardId == "" || grade.None? || grade.value < 0.0 || grade.value > 5.0 then None
    else Some((cardId, grade.value))
  }

  function CreatedKey(c: Card): int {
    Millis(c.createdAt)
  }

  /** Cards sorted on the creation rank are in `createdAt` order. */
  lemma CreatedOrder(r: seq<Card>)
    requires SortedBy(r, CreatedKey)
    ensures forall i, j | 0 <= i < j < |r| :: AtOrBefore(r[i].createdAt, r[j].createdAt)
  {
    forall i, j | 0 <= i < j < |r| ensures AtOrBefore(r[i].createdAt, r[j].createdAt) {
      MillisOrder(r[i].createdAt, r[j].createdAt);
    }
  }

  /** The `where` clause of the due query. */
  predicate IsSelected(decks: seq<Deck>, reviews: seq<ReviewRecord>, user: UserId, now: Instant, c: Card) {
    OwnsDeck(decks, user, c.deckId) && IsDue(reviews, c.id, now)
  }

  /** The due query: cards in the user's decks that are due at `now`, ordered by
      creation time, oldest first. Each selected card appears as often as it is stored. */
  function DueCards(decks: seq<Deck>, cards: seq<Card>, reviews: seq<ReviewRecord>,
                    user: UserId, now: Instant): (r: seq<Card>)
    ensures forall c :: c in r <==> c in cards && OwnsDeck(decks, user, c.deckId) && IsDue(reviews, c.id, now)
    ensures forall c :: multiset(r)[c] ==
              if OwnsDeck(decks, user, c.deckId) && IsDue(reviews, c.id, now) then multiset(cards)[c] else 0
    ensures forall i, j | 0 <= i < j < |r| :: AtOrBefore(r[i].createdAt, r[j].createdAt)
  {
    var r := SelectSorted(cards, (c: Card) => IsSelected(decks, reviews, user, now, c), CreatedKey);
    CreatedOrder(r);
    r
  }

  /** Only the user's own cards are ever listed, and every card of theirs that was
      never reviewed is listed at every instant. */
  lemma DueCardsIsolationAndFreshCards(decks: seq<Deck>, cards: seq<Card>, reviews: seq<ReviewRecord>,
                                       user: UserId, now: Instant, c: Card)
    ensures c in DueCards(decks, cards, reviews, user, now) ==> exists d | d in decks :: d.id == c.deckId && d.userId == user
    ensures c in cards && OwnsDeck(decks, user, c.deckId) && History(reviews, c.id) == []
            ==> c in DueCards(decks, cards, reviews, user, now)
  {
  }

  /** Appending a review record keeps every already-reviewed listed card listed, and
      keeps or drops nothing else but the graded card. */
  lemma DueCardsAfterAppend(decks: seq<Deck>, cards: seq<Card>, reviews: seq<ReviewRecord>,
                            r: ReviewRecord, user: UserId, now: Instant, c: Card)
    requires c in DueCards(decks, cards, reviews, user, now)
    requires c.id != r.cardId || History(reviews, c.id) != []
    ensures c in DueCards(decks, cards, reviews + [r], user, now)
  {
    if c.id != r.cardId {
      AppendOtherCard(reviews, r, c.id, now);
    } else {
      AppendKeepsReviewedCardDue(reviews, r, c.id, now);
    }
  }

  /** `GET /api/review`. */
  method Get(db: Db, auth: Option<UserId>, now: Instant) returns (res: Result<seq<Card>, Status>)
    ensures auth.None? ==> res == Failure(Unauthorized)
    ensures auth.Some? ==> res == Success(DueCards(db.decks, db.cards, db.reviews, auth.value, now))
  {
    if auth.None? {
      return Failure(Unauthorized);
    }
    res := Success(DueCards(db.decks, db.cards, db.reviews, auth.value, now));
  }

  /** What a successful submission answers with. */
  datatype ReviewReply = ReviewReply(intervalDays: nat, nextReviewAt: Instant)

  /** `POST /api/review`. The checks run in this order: a user (401), a valid payload
      (400), a card in one of the user's decks (404). Only then is one record appended,
      scheduled from `now`; `reviewedAt` is the timestamp the database stamps on it. */
  method Post(db: Db, auth: Option<UserId>, rawCardId: Option<string>, grade: Option<real>,
              now: Instant, reviewedAt: Instant) returns (res: Result<ReviewReply, Status>)
    requires db.Valid()
    modifies db
    ensures db.Valid()
    ensures db.decks == old(db.decks) && db.cards == old(db.cards)
    ensures auth.None? ==> res == Failure(Unauthorized)
    ensures auth.Some? && ParsePayload(rawCardId, grade).None? ==> res == Failure(BadRequest)
    ensures auth.Some? && ParsePayload(rawCardId, grade).Some?
            && !OwnsCard(db.decks, db.cards, auth.value, rawCardId.value)
            ==> res == Failure(NotFound)
    ensures res.Failure? ==> db.reviews == old(db.reviews)
    ensures res.Success? <==>
              auth.Some? && ParsePayload(rawCardId, grade).Some?
              && OwnsCard(db.decks, db.cards, auth.value, rawCardId.value)
    ensures res.Success? ==>
              var s := ScheduleReview(grade.value, now);
              && res.value == ReviewReply(s.intervalDays, s.nextReviewAt)
              && db.reviews == old(db.reviews)
                   + [ReviewRecord(rawCardId.value, grade.value, s.intervalDays, s.nextReviewAt, reviewedAt)]
  {
    if auth.None? {
      return Failure(Unauthorized);
    }
    var payload := ParsePayload(rawCardId, grade);
    if payload.None? {
      return Failure(BadRequest);
    }
    var (cardId, g) := payload.value;
    if !OwnsCard(db.decks, db.cards, auth.value, cardId) {
      return Failure(NotFound);
    }
    var s := ScheduleReview(g, now);
    var record := ReviewRecord(cardId, g, s.intervalDays, s.nextReviewAt, reviewedAt);
    AddReviewConsistent(db.decks, db.cards, db.reviews, record);
    db.CreateReview(record);
    res := Success(ReviewReply(record.intervalDays, s.nextReviewAt));
  }
}
