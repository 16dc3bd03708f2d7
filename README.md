# Flashcard review core: scheduling, due cards, validators, review session

A Dafny model of the core of a flashcard study web application. Users own decks,
decks hold cards, and every graded review of a card appends one review-history
record. The model covers:

- the **scheduler**: a fixed table from grade to interval in days, with a
  fallback of one day, and the next review set that many calendar days ahead;
- the **review endpoint** (`GET` lists due cards, `POST` grades one card);
- the **due rule** as the query states it: a card is due when it has no review
  records, or when *some* record's `nextReviewAt` is at or before now;
- the **review queue page**, which runs the same query and attaches each card's
  latest record for display;
- the **card and deck creation endpoints** with their trimming and validation, and
  the **deck list**;
- the **client review session**: its queue, initial count and answer flag, and
  its load, reveal and grade transitions.

The database is a class `Store.Db` with three append-only tables (`decks`,
`cards`, `reviews`). The handlers are methods that take the store. `Db.Valid()`
is the invariant the creation handlers preserve: every card is in a stored deck,
every review belongs to a stored card, stored grades are in [0, 5] and stored
intervals are in {1, 2, 4, 7}. It says nothing about text fields: the update
handlers (app/api/cards/[cardId]/route.ts:55-61 and
app/api/decks/[deckId]/route.ts:61-63) store a trimmed front, back or title even
when it is blank, so the creation handlers must work on such a store too.
Authentication is a parameter `auth: Option<UserId>`. A JSON field that is
missing or not a string is `None`. The grade after `Number()` coercion is an
`Option<real>`, with NaN as `None`. Instants are a day number plus a time of day
in milliseconds. The current time, the database's generated ids and its default
timestamps (`createdAt`, `updatedAt`, `reviewedAt`) are parameters.

Points of the code's behaviour that the model keeps as they are:

- The due rule uses *any* record whose `nextReviewAt` has passed, not the latest
  record. See "## Findings".
- `POST /api/review` checks the payload (400) before it checks card ownership
  (404).
- The due-card query orders by `createdAt` alone, with no secondary key. The
  model's sort is a stable insertion sort by a key, so tied cards keep their
  stored order. The code leaves that order to the database.
- A grade such as 2.5 passes the payload check, gets interval 1 and is stored as
  given.

Files: `wrappers.dfy` (Option, Result), `time.dfy`, `text.dfy` (ECMAScript
`trim`), `seqs.dfy` (filter and sort), `entities.dfy`, `store.dfy`, `reviews.dfy`
(scheduler and due rule), `review_route.dfy`, `review_page.dfy`,
`cards_route.dfy`, `decks_route.dfy`, `review_queue.dfy`.

## Model

| member | source | states |
|---|---|---|
| Time.AddDays | app/api/review/route.ts:70-71 | the result keeps the time of day and lies exactly n days of milliseconds later; for n > 0 it is strictly after now |
| Time.MillisOrder | app/api/review/route.ts:28 | the millisecond rank orders instants exactly as the `lte` comparison does |
| Text.Trim | app/api/cards/route.ts:15-16 | the result is the slice of the input between its leading and its trailing white space, with no white space at either of its own ends (`TrimOf`); it keeps every non-white-space character and is empty exactly when the input is all white space |
| Text.TrimOfUnique | app/api/cards/route.ts:15-16 | `TrimOf` has exactly one solution for each input, the one `Trim` returns, so `TrimOf(s, r)` pins `r` down completely |
| Text.TrimTrimmed | app/api/decks/route.ts:41 | trimming text that is already trimmed returns it unchanged |
| Text.TrimIdempotent | app/api/decks/route.ts:41 | trimming twice is the same as trimming once |
| Text.RequiredText | app/api/decks/route.ts:37-41 | a non-string becomes ""; a string becomes its trim (`TrimOf`); the result is empty exactly when the field is missing or all white space |
| Text.OptionalText | app/api/cards/route.ts:17-20 | null exactly when the field is not a string or is blank; otherwise the field's trim (`TrimOf`), which is non-empty (the deck description at app/api/decks/route.ts:38-42 behaves the same way) |
| Seqs.Filter | app/api/review/route.ts:25-31 | a `where` keeps exactly the matching rows, each as often as in the table |
| Seqs.FilterAppend | app/api/review/route.ts:73-80 | filtering a table with one appended row gives the old result plus that row if it matches |
| Seqs.SortBy | app/api/review/route.ts:32 | an `orderBy` returns a permutation of its input, sorted by the key |
| Seqs.SelectSorted | app/api/review/route.ts:24-32 | a `where` followed by an `orderBy` returns exactly the matching rows, each as often as stored, sorted by the key |
| Reviews.IntervalDays | app/api/review/route.ts:69 | every interval is 1, 2, 4 or 7; a fractional grade or one outside [0, 5] gets 1 |
| Reviews.GradeInterval | app/api/review/route.ts:6-13 | the grade-to-interval table: 0, 1 and 2 map to 1 day, 3 to 2, 4 to 4, 5 to 7 |
| Reviews.IntervalTable | app/api/review/route.ts:6-13 | grades 0, 1, 2 give 1 day, 3 gives 2, 4 gives 4, 5 gives 7; a higher whole grade never gives a shorter interval |
| Reviews.ScheduleReview | app/api/review/route.ts:69-71 | interval from the table (1 if the grade is not in it); next review is that many days after now, at the same time of day, strictly after now |
| Reviews.History | app/api/review/route.ts:28-29 | a card's records are exactly the stored records with its id |
| Reviews.HistoryAppend | app/api/review/route.ts:73-80 | appending a record extends only its own card's history, at the end |
| Reviews.NeverReviewedIsDue | app/review/page.tsx:16 | a card with no records is due at every instant |
| Reviews.IsDue | app/review/page.tsx:14-17 | the due rule as the query writes it: some record of the card has `nextReviewAt <= now`, or the card has no record (same filter at app/api/review/route.ts:27-30) |
| Reviews.DueStaysDue | app/review/page.tsx:15 | a card due at t is due at every later t' |
| Reviews.DueAtNextReview | app/review/page.tsx:15 | a card is due at the very instant a record of it names as its next review: the `lte` bound is inclusive |
| Reviews.AppendOtherCard | app/review/page.tsx:14-17 | a record for another card does not change whether this card is due |
| Reviews.AppendKeepsReviewedCardDue | app/review/page.tsx:14-17 | once a card has a record, appending any record never makes it not due |
| Reviews.FirstReviewDefersCard | app/api/review/route.ts:69-80 | a never-reviewed card graded at now is due at t exactly when t has reached its new `nextReviewAt` |
| Reviews.IsDueLatest | app/review/page.tsx:22-26 | the corrected due rule: a card with no record, or one whose latest record (as the page selects it) has `nextReviewAt <= now` |
| Reviews.Latest | app/review/page.tsx:22-26 | none exactly for an empty history; otherwise a record of the history whose `reviewedAt` is not before any other |
| Reviews.LatestOfNewest | app/review/page.tsx:23-24 | a record reviewed strictly after all others is the latest |
| Reviews.ReviewDefersCardUnderLatestRule | app/review/page.tsx:14-17 | corrected rule: after a review at now, the card is due at t exactly when t has reached the new `nextReviewAt`, whatever older records say |
| Reviews.AsWrittenIgnoresLaterReview | app/review/page.tsx:15 | a card graded 1 on day 0 and 4 on day 2 is due on day 3 under the rule as written but not under the latest-record rule |
| Store.Consistent | app/api/cards/route.ts:26-36 | the store invariant: every card's deck is stored (cards are only created after the deck lookup), every record's card is stored (app/api/review/route.ts:60-80), and every record's grade is in [0, 5] with an interval from the table |
| Store.Db.Valid | app/api/review/route.ts:60-80 | the store invariant of `Store.Consistent` on the three tables of the object |
| Store.AddDeckConsistent | app/api/decks/route.ts:48-54 | storing any deck keeps the store invariant |
| Store.AddCardConsistent | app/api/cards/route.ts:26-36 | storing a card whose deck exists keeps the store invariant |
| Store.AddReviewConsistent | app/api/review/route.ts:73-80 | storing a record of an existing card, with a grade in [0, 5] and a table interval, keeps the store invariant |
| Store.Db.CreateDeck | app/api/decks/route.ts:48-54 | appends exactly the given deck; the other tables are unchanged |
| Store.Db.CreateCard | app/api/cards/route.ts:34-36 | appends exactly the given card; the other tables are unchanged |
| Store.Db.CreateReview | app/api/review/route.ts:73-80 | appends exactly the given record; earlier records and other tables are unchanged |
| Entities.OwnsDeck | app/api/cards/route.ts:26-28 | the deck lookup `{ id, userId }`: some stored deck has that id and belongs to the user |
| Entities.OwnsCard | app/api/review/route.ts:60-63 | the card lookup `{ id, deck: { userId } }`: some stored card has that id and lies in a deck of the user's |
| ReviewRoute.ParsePayload | app/api/review/route.ts:52-58 | accepts exactly a non-empty string card id and a grade that is a number in [0, 5]; it passes both through unchanged |
| ReviewRoute.DueCards | app/api/review/route.ts:24-32 | exactly the cards in the user's decks that are due (no records, or some record with `nextReviewAt <= now`), each as often as stored, ordered by `createdAt` ascending |
| ReviewRoute.DueCardsIsolationAndFreshCards | app/review/page.tsx:13-16 | every listed card lies in a deck whose `userId` is the requester's; every never-reviewed card of theirs is listed |
| ReviewRoute.DueCardsAfterAppend | app/review/page.tsx:14-17 | appending a record never removes a listed card that already had a record, nor a card the record is not about |
| ReviewRoute.Get | app/api/review/route.ts:15-43 | 401 without a user; otherwise the due cards of the user at now |
| ReviewRoute.Post | app/api/review/route.ts:45-87 | 401, then 400, then 404, each leaving the store unchanged; success exactly when all three pass; then one record (id, grade, interval, next review) is appended, with decks, cards and earlier records unchanged; replies with the interval and `nextReviewAt`; keeps the store invariant |
| ReviewPage.BadgeOf | app/review/page.tsx:70-81 | "first study needed" exactly when there is no latest record; otherwise that record's grade and next review |
| ReviewPage.Entries | app/review/page.tsx:11-28 | the same cards in the same order as the review endpoint; each carries its latest record, and the badge says "first study needed" exactly when the card has no records |
| ReviewPage.Render | app/review/page.tsx:8-54 | redirect to sign-in without a user; the all-caught-up view when nothing is due; otherwise the entries |
| CardsRoute.ReadCardFields | app/api/cards/route.ts:13-20 | deck id as sent ("" if not a string); front and back are the trims of the sent strings (`TrimOf`), empty exactly when missing or blank; the hint is null exactly when not a string or blank, otherwise the trim of the sent hint |
| CardsRoute.Post | app/api/cards/route.ts:6-39 | 401, then 400 (no deck id, blank front or back), then 404 (no deck of the user's with that id), each leaving the store unchanged; on success exactly one card with the trimmed fields is appended to that deck; keeps the store invariant |
| DecksRoute.CardCount | app/api/decks/route.ts:22 | at most the number of stored cards; zero exactly when none has that deck id |
| DecksRoute.CardCountAppend | app/api/decks/route.ts:22 | storing one more card raises its own deck's count by one and leaves every other count unchanged; with the empty case, this fixes the count as the number of the deck's cards |
| DecksRoute.OwnDecksByUpdate | app/api/decks/route.ts:13-15 | exactly the user's decks, each as often as stored, ordered by `updatedAt` descending |
| DecksRoute.ListDecks | app/api/decks/route.ts:13-24 | the user's decks only, a permutation of them, newest update first, each with its card count |
| DecksRoute.Get | app/api/decks/route.ts:6-27 | 401 without a user; otherwise the deck list of the user |
| DecksRoute.ReadDeckFields | app/api/decks/route.ts:36-42 | the title is the trim of the sent string (`TrimOf`), empty exactly when not a string or blank; the description is null exactly when not a string or blank, otherwise the trim of the sent description |
| DecksRoute.Post | app/api/decks/route.ts:29-63 | 401, then 400 for a blank title, each leaving the store unchanged; otherwise one deck owned by the user, with the trimmed fields, is appended, and the reply reports 0 cards; keeps the store invariant |
| ReviewQueue.HeaderText | components/review/review-queue-client.tsx:52-60 | "no cards" exactly when the initial count is 0; "finished" exactly when it is not and nothing remains; otherwise remaining / initial |
| ReviewQueue.OfferedGradesAccepted | components/review/review-queue-client.tsx:11 | every offered grade 0..5 passes the endpoint's payload check and is found in the interval table |
| ReviewQueue.ReviewSession.constructor | components/review/review-queue-client.tsx:16-18 | an empty queue, initial count 0, answer hidden |
| ReviewQueue.ReviewSession.Completed | components/review/review-queue-client.tsx:28-30 | completed is in [0, initialCount] and completed + remaining = initialCount |
| ReviewQueue.ReviewSession.Header | components/review/review-queue-client.tsx:52-60 | progress is shown exactly while a card is up, with remaining <= initial; with the queue empty, "finished" exactly when some card was completed |
| ReviewQueue.ReviewSession.Load | components/review/review-queue-client.tsx:20-26 | with data: queue := data, initialCount := length of data, answer hidden; without data: nothing changes |
| ReviewQueue.ReviewSession.Reveal | components/review/review-queue-client.tsx:32 | sets showAnswer and changes nothing else |
| ReviewQueue.ReviewSession.Grade | components/review/review-queue-client.tsx:34-50 | empty queue: sends nothing and changes nothing; otherwise sends the head card's id and the grade; success drops exactly the head and hides the answer; failure leaves queue and showAnswer as they were; initialCount never changes, so remaining <= initialCount holds |

## Findings

| source | as written | input that shows it | evidently intended | confidence | as-written member | corrected member |
|---|---|---|---|---|---|---|
| app/review/page.tsx:15 (same query at app/api/review/route.ts:28) | a card is due if *some* record has `nextReviewAt <= now`, so once its first interval has passed it stays due however often it is graded again | grade 1 on day 0 (due day 1), then grade 4 on day 2 (due day 6); on day 3 the card is listed | a card is due when its latest review's `nextReviewAt` has passed: the page's caption (app/review/page.tsx:37) says the queue holds cards whose nextReviewAt has passed or that were never studied; beside each listed card the page shows the latest record's next review (app/review/page.tsx:73-75), which for this card is day 6, in the future; and after every grade the queue is refetched (hooks/use-review.ts:35-37), so a card graded again with an old past-due record comes straight back | medium, not executed | Reviews.AsWrittenIgnoresLaterReview | Reviews.ReviewDefersCardUnderLatestRule |

The endpoint and page models keep the rule as written (`Reviews.IsDue`), because
that is the behaviour the code has. The corrected rule (`Reviews.IsDueLatest`)
sits beside it, and its intended property is proved. Under the rule as written,
`Reviews.AppendKeepsReviewedCardDue` shows the general form of the problem: no
later review can take an already-reviewed due card off the list.

A related observation about the rule as written: appending a review record can
remove a card from the due set only when the card had no record before. Its
first review takes it off the list until its next review instant
(`Reviews.FirstReviewDefersCard`). For a card that already has a record, and for
a record about another card, an append never removes a card
(`ReviewRoute.DueCardsAfterAppend`).

## Left out

- HTTP, JSON parsing and `Number()` coercion: handlers take the already-read fields. A field that is missing or not a string is `None`. The grade as coerced is `Option<real>`, with NaN as `None`.
- Infinite grades: `Number()` can yield `Infinity` or `-Infinity`, which `Option<real>` cannot hold. The source rejects both with 400 through `grade < 0 || grade > 5` (app/api/review/route.ts:56), the same answer the model gives for any grade outside [0, 5].
- Authentication and sessions (`lib/current-user.ts`, `lib/require-user.ts`, next-auth): the user is `auth: Option<UserId>`.
- Database-generated values: ids, `createdAt`/`updatedAt` and the `reviewedAt` default are parameters. Ids are not assumed unique, and ownership checks are "some matching row exists", as `findFirst` is. Review-record ids are not modelled.
- The database schema is not part of this model. Whether its grade column would reject a fractional grade such as 2.5 is not modelled; the record stores the grade as given.
- Ties: `Reviews.Latest` breaks `reviewedAt` ties in favour of the record stored last, and the due-card and deck sorts keep stored order among equal keys. The source leaves both to the database.
- Response projections (`select` of card and deck fields, the deck title on each due card) are not modelled. `ReviewRoute.Get` returns whole card rows.
- Time zones and daylight saving in `Date.setDate`: an instant is a day number plus a time of day, so adding days adds to the day.
- Rendering, the Korean interface strings, toasts, animation and loading states. `ReviewQueue.Header` is the three header cases, not their text.
- The react-query hooks: after a successful grade they invalidate the queue query, and the refetch reloads the session through `ReviewSession.Load`. The model has no scheduling of that refetch. It also has no concurrent submissions.
- Card and deck update and delete endpoints, including the cascade delete of review records. They are not part of this model.
