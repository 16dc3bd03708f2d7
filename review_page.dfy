/** The server-rendered review queue page: the same due query as the review
    endpoint, with each card's latest review attached for display. */
module ReviewPage {
  import opened Wrappers
  import opened Time
  import opened Entities
  import opened Store
  import opened Reviews
  import opened ReviewRoute

  /** What the page shows beside a card: its latest grade and next review date, or
      that it still needs a first study. */
  datatype Badge = LastGrade(grade: real, nextReviewAt: Instant) | FirstStudyNeeded

  datatype Entry = Entry(card: Card, latest: Option<ReviewRecord>)

  datatype View = RedirectToSignIn | NothingDue | Queue(entries: seq<Entry>)

  function BadgeOf(latest: Option<ReviewRecord>): (b: Badge)
    ensures b.FirstStudyNeeded? <==> latest.None?
    ensures b.LastGrade? ==> b.grade == latest.value.grade && b.nextReviewAt == latest.value.nextReviewAt
  {
    match latest
    case None => FirstStudyNeeded
    case Some(l) => LastGrade(l.grade, l.nextReviewAt)
  }

  /** Each card paired with its latest review record. */
  function WithLatest(cs: seq<Card>, reviews: seq<ReviewRecord>): (es: seq<Entry>)
    ensures |es| == |cs|
    ensures forall i | 0 <= i < |es| :: es[i] == Entry(cs[i], Latest(History(reviews, cs[i].id)))
  {
    seq(|cs|, i requires 0 <= i < |cs| => Entry(cs[i], Latest(History(reviews, cs[i].id))))
  }

  /** The page's query: the due cards in the review endpoint's order, each with the
      single record of that card reviewed last. */
  function Entries(decks: seq<Deck>, cards: seq<Card>, reviews: seq<ReviewRecord>,
                   user: UserId, now: Instant): (es: seq<Entry>)
    ensures var due := DueCards(decks, cards, reviews, user, now);
            |es| == |due| && forall i | 0 <= i < |es| :: es[i].card == due[i]
    ensures forall i | 0 <= i < |es| ::
              BadgeOf(es[i].latest).FirstStudyNeeded? <==> History(reviews, es[i].card.id) == []
    ensures forall i | 0 <= i < |es| && es[i].latest.Some? ::
              var l := es[i].latest.value;
              && l in reviews && l.cardId == es[i].card.id
              && forall r | r in reviews && r.cardId == es[i].card.id :: AtOrBefore(r.reviewedAt, l.reviewedAt)
  {
    WithLatest(DueCards(decks, cards, reviews, user, now), reviews)
  }

  /** `ReviewQueuePage`: without a user the page redirects to sign-in; with one it
      shows the queue, or the all-caught-up message when nothing is due. */
  method Render(db: Db, auth: Option<UserId>, now: Instant) returns (v: View)
    ensures auth.None? ==> v == RedirectToSignIn
    ensures auth.Some? ==>
              var es := Entries(db.decks, db.cards, db.reviews, auth.value, now);
              v == if es == [] then NothingDue else Queue(es)
  {
    if auth.None? {
      return RedirectToSignIn;
    }
    var es := Entries(db.decks, db.cards, db.reviews, auth.value, now);
    v := if es == [] then NothingDue else Queue(es);
  }
}
