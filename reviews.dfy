/** Spaced-repetition scheduling and the due-card rule. A graded review is scheduled
    a fixed number of days ahead by a lookup table; a card is due when it has never
    been reviewed or when any of its review records has come due. */
module Reviews {
  import opened Wrappers
  import opened Time
  import opened Seqs
  import opened Entities

  /** `GRADE_INTERVAL`: days until the next review, by grade. */
  const GradeInterval: map<real, nat> :=
    map[0.0 := 1, 1.0 := 1, 2.0 := 1, 3.0 := 2, 4.0 := 4, 5.0 := 7]

  /** `GRADE_INTERVAL[grade] ?? 1`: a grade the table lacks, such as a fractional
      one, waits a single day. */
  function IntervalDays(grade: real): (days: nat)
    ensures days in {1, 2, 4, 7}
    ensures grade.Floor as real != grade ==> days == 1
    ensures grade < 0.0 || grade > 5.0 ==> days == 1
  {
    if grade in GradeInterval then GradeInterval[grade] else 1
  }

  /** The table, grade by grade; a better grade never waits less. */
  lemma IntervalTable(g: int, h: int)
    requires 0 <= g <= h <= 5
    ensures IntervalDays(0.0) == 1 && IntervalDays(1.0) == 1 && IntervalDays(2.0) == 1
    ensures IntervalDays(3.0) == 2 && IntervalDays(4.0) == 4 && IntervalDays(5.0) == 7
    ensures IntervalDays(g as real) <= IntervalDays(h as real)
  {
  }

  datatype Schedule = Schedule(intervalDays: nat, nextReviewAt: Instant)

  /** The interval for `grade` and the instant that many calendar days after `now`,
      at the same time of day: always strictly later than `now`. */
  function ScheduleReview(grade: real, now: Instant): (s: Schedule)
    ensures s.intervalDays in {1, 2, 4, 7}
    ensures grade in GradeInterval ==> s.intervalDays == GradeInterval[grade]
    ensures grade !in GradeInterval ==> s.intervalDays == 1
    ensures s.nextReviewAt.time == now.time
    ensures Millis(s.nextReviewAt) == Millis(now) + s.intervalDays * MsPerDay
    ensures AtOrBefore(now, s.nextReviewAt) && !AtOrBefore(s.nextReviewAt, now)
  {
    var days := IntervalDays(grade);
    Schedule(days, AddDays(now, days))
  }

  /** The review records of one card, in the order they were stored. */
  function History(reviews: seq<ReviewRecord>, cardId: CardId): (h: seq<ReviewRecord>)
    ensures forall r :: r in h <==> r in reviews && r.cardId == cardId
  {
    Filter(reviews, (r: ReviewRecord) => r.cardId == cardId)
  }

  lemma HistoryAppend(reviews: seq<ReviewRecord>, r: ReviewRecord, cardId: CardId)
    ensures History(reviews + [r], cardId)
         == History(reviews, cardId) + (if r.cardId == cardId then [r] else [])
  {
    FilterAppend(reviews, r, (x: ReviewRecord) => x.cardId == cardId);
  }

  /** The due rule as the query states it:
      `reviews: { some: { nextReviewAt: { lte: now } } }` or `reviews: { none: {} }`. */
  predicate IsDue(reviews: seq<ReviewRecord>, cardId: CardId, now: Instant) {
    || (exists r | r in reviews :: r.cardId == cardId && AtOrBefore(r.nextReviewAt, now))
    || (forall r | r in reviews :: r.cardId != cardId)
  }

  /** A card that has never been reviewed is due at every instant. */
  lemma NeverReviewedIsDue(reviews: seq<ReviewRecord>, cardId: CardId, now: Instant)
    requires History(reviews, cardId) == []
    ensures IsDue(reviews, cardId, now)
  {
  }

  /** A card is due from the very instant one of its records names as its next review:
      the `lte` boundary is inclusive. */
  lemma DueAtNextReview(reviews: seq<ReviewRecord>, r: ReviewRecord)
    requires r in reviews
    ensures IsDue(reviews, r.cardId, r.nextReviewAt)
  {
    assert AtOrBefore(r.nextReviewAt, r.nextReviewAt);
  }

  /** A card only gets more due as time passes. */
  lemma DueStaysDue(reviews: seq<ReviewRecord>, cardId: CardId, t: Instant, t': Instant)
    requires IsDue(reviews, cardId, t)
    requires AtOrBefore(t, t')
    ensures IsDue(reviews, cardId, t')
  {
  }

  /** A record of another card does not change whether this one is due. */
  lemma AppendOtherCard(reviews: seq<ReviewRecord>, r: ReviewRecord, cardId: CardId, now: Instant)
    requires r.cardId != cardId
    ensures IsDue(reviews + [r], cardId, now) == IsDue(reviews, cardId, now)
  {
  }

  /** Once a card has a record, appending more records never takes it off the due set. */
  lemma AppendKeepsReviewedCardDue(reviews: seq<ReviewRecord>, r: ReviewRecord, cardId: CardId, now: Instant)
    requires History(reviews, cardId) != []
    requires IsDue(reviews, cardId, now)
    ensures IsDue(reviews + [r], cardId, now)
  {
  }

  /** A never-reviewed card that is graded at `now` leaves the due set until its
      next review comes, and is due from that instant on. */
  lemma FirstReviewDefersCard(reviews: seq<ReviewRecord>, cardId: CardId, grade: real,
                              now: Instant, reviewedAt: Instant, t: Instant)
    requires History(reviews, cardId) == []
    ensures var s := ScheduleReview(grade, now);
            var after := reviews + [ReviewRecord(cardId, grade, s.intervalDays, s.nextReviewAt, reviewedAt)];
            IsDue(after, cardId, t) <==> AtOrBefore(s.nextReviewAt, t)
  {
  }

  /** The record with the latest `reviewedAt` (`orderBy: { reviewedAt: "desc" }, take: 1`).
      Among records reviewed at the same instant the one stored last is taken. */
  function Latest(h: seq<ReviewRecord>): (l: Option<ReviewRecord>)
    ensures l.None? <==> h == []
    ensures l.Some? ==> l.value in h
    ensures l.Some? ==> forall r | r in h :: AtOrBefore(r.reviewedAt, l.value.reviewedAt)
  {
    if h == [] then None
    else
      var init := h[..|h| - 1];
      var last := h[|h| - 1];
      assert h == init + [last];
      assert forall r | r in h :: r in init || r == last;
      var l := Latest(init);
      if l.None? || AtOrBefore(l.value.reviewedAt, last.reviewedAt) then
        assert forall r | r in init :: AtOrBefore(r.reviewedAt, last.reviewedAt);
        Some(last)
      else
        l
  }

  /** A record reviewed strictly after every earlier one becomes the latest. */
  lemma LatestOfNewest(h: seq<ReviewRecord>, r: ReviewRecord)
    requires forall x | x in h :: !AtOrBefore(r.reviewedAt, x.reviewedAt)
    ensures Latest(h + [r]) == Some(r)
  {
  }

  /** The due rule read from the latest record only: never reviewed, or the latest
      record's next review has come. */
  predicate IsDueLatest(reviews: seq<ReviewRecord>, cardId: CardId, now: Instant) {
    match Latest(History(reviews, cardId))
    case None => true
    case Some(l) => AtOrBefore(l.nextReviewAt, now)
  }

  /** Under the latest-record rule every review defers its card: graded at `now`, and
      reviewed after all its earlier records, the card is due at `t` exactly when `t`
      has reached the new next-review instant, whatever the earlier records say. */
  lemma ReviewDefersCardUnderLatestRule(reviews: seq<ReviewRecord>, cardId: CardId, grade: real,
                                        now: Instant, reviewedAt: Instant, t: Instant)
    requires forall x | x in reviews && x.cardId == cardId :: !AtOrBefore(reviewedAt, x.reviewedAt)
    ensures var s := ScheduleReview(grade, now);
            var after := reviews + [ReviewRecord(cardId, grade, s.intervalDays, s.nextReviewAt, reviewedAt)];
            IsDueLatest(after, cardId, t) <==> AtOrBefore(s.nextReviewAt, t)
  {
  }

  /** Under the rule as written, a card whose first interval has passed stays due after
      a later review that scheduled it days ahead: graded 1 on day 0 (due day 1), then
      graded 4 on day 2 (due day 6), it is still due on day 3, where the latest-record
      rule says it is not. */
  lemma AsWrittenIgnoresLaterReview()
    ensures var first := ReviewRecord("c", 1.0, 1, Instant(1, 0), Instant(0, 0));
            var second := ReviewRecord("c", 4.0, 4, Instant(6, 0), Instant(2, 0));
            IsDue([first, second], "c", Instant(3, 0)) && !IsDueLatest([first, second], "c", Instant(3, 0))
  {
    var first := ReviewRecord("c", 1.0, 1, Instant(1, 0), Instant(0, 0));
    var second := ReviewRecord("c", 4.0, 4, Instant(6, 0), Instant(2, 0));
    assert first in [first, second];
    assert [first] + [second] == [first, second];
    HistoryAppend([first], second, "c");
    assert History([first], "c") == [first];
    LatestOfNewest([first], second);
  }
}
