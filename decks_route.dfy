/** The deck endpoint: `GET` lists the user's decks, most recently updated first,
    with their card counts; `POST` creates a deck owned by the user. */
module DecksRoute {
  import opened Wrappers
  import opened Time
  import opened Text
  import opened Seqs
  import opened Entities
  import opened Store

  /** A deck row as listed, with `_count.cards`. */
  datatype DeckSummary = DeckSummary(deck: Deck, cardCount: nat)

  /** The number of stored cards in the deck with this id. */
  function CardCount(cards: seq<Card>, deckId: DeckId): (n: nat)
    ensures n <= |cards|
    ensures n == 0 <==> forall c | c in cards :: c.deckId != deckId
  {
    |Filter(cards, (c: Card) => c.deckId == deckId)|
  }

  /** Storing one more card raises the count of its own deck by one and leaves every
      other deck's count as it was. */
  lemma CardCountAppend(cards: seq<Card>, c: Card, deckId: DeckId)
    ensures CardCount(cards + [c], deckId) == CardCount(cards, deckId) + (if c.deckId == deckId then 1 else 0)
  {
    FilterAppend(cards, c, (c: Card) => c.deckId == deckId);
  }

  function DecksOf(rows: seq<DeckSummary>): (ds: seq<Deck>)
    ensures |ds| == |rows| && forall i | 0 <= i < |rows| :: ds[i] == rows[i].deck
  {
    seq(|rows|, i requires 0 <= i < |rows| => rows[i].deck)
  }

  /** Newer `updatedAt` first: an ascending sort on the negated rank. */
  function UpdatedDescKey(d: Deck): int {
    -Millis(d.updatedAt)
  }

  /** Decks sorted on the negated update rank are newest first. */
  lemma UpdatedOrder(ds: seq<Deck>)
    requires SortedBy(ds, UpdatedDescKey)
    ensures forall i, j | 0 <= i < j < |ds| :: AtOrBefore(ds[j].updatedAt, ds[i].updatedAt)
  {
    forall i, j | 0 <= i < j < |ds| ensures AtOrBefore(ds[j].updatedAt, ds[i].updatedAt) {
      MillisOrder(ds[j].updatedAt, ds[i].updatedAt);
    }
  }

  /** The `where` and `orderBy` of the deck list: exactly the user's decks, each as
      often as stored, ordered by `updatedAt` descending. */
  function OwnDecksByUpdate(decks: seq<Deck>, user: UserId): (ds: seq<Deck>)
    ensures forall d :: multiset(ds)[d] == if d.userId == user then multiset(decks)[d] else 0
    ensures forall i | 0 <= i < |ds| :: ds[i].userId == user
    ensures forall i, j | 0 <= i < j < |ds| :: AtOrBefore(ds[j].updatedAt, ds[i].updatedAt)
  {
    var ds := SelectSorted(decks, (d: Deck) => d.userId == user, UpdatedDescKey);
    UpdatedOrder(ds);
    ds
  }

  /** A card count for each deck, in the order given. */
  function WithCounts(ds: seq<Deck>, cards: seq<Card>): (rows: seq<DeckSummary>)
    ensures DecksOf(rows) == ds
    ensures forall i | 0 <= i < |rows| :: rows[i].cardCount == CardCount(cards, rows[i].deck.id)
  {
    var rows := seq(|ds|, i requires 0 <= i < |ds| => DeckSummary(ds[i], CardCount(cards, ds[i].id)));
    assert DecksOf(rows) == ds;
    rows
  }

  /** The deck list: the user's decks, newest update first, each with its number of cards. */
  function ListDecks(decks: seq<Deck>, cards: seq<Card>, user: UserId): (rows: seq<DeckSummary>)
    ensures forall d :: multiset(DecksOf(rows))[d] == if d.userId == user then multiset(decks)[d] else 0
    ensures forall i | 0 <= i < |rows| :: rows[i].deck.userId == user
    ensures forall i | 0 <= i < |rows| :: rows[i].cardCount == CardCount(cards, rows[i].deck.id)
    ensures forall i, j | 0 <= i < j < |rows| :: AtOrBefore(rows[j].deck.updatedAt, rows[i].deck.updatedAt)
  {
    WithCounts(OwnDecksByUpdate(decks, user), cards)
  }

  /** `GET /api/decks`. */
  method Get(db: Db, auth: Option<UserId>) returns (res: Result<seq<DeckSummary>, Status>)
    ensures auth.None? ==> res == Failure(Unauthorized)
    ensures auth.Some? ==> res == Success(ListDecks(db.decks, db.cards, auth.value))
  {
    if auth.None? {
      return Failure(Unauthorized);
    }
    res := Success(ListDecks(db.decks, db.cards, auth.value));
  }

  /** The submitted deck fields: the trimmed title ("" when not a string) and the
      trimmed description, null when it is not a string or blank. */
  function ReadDeckFields(rawTitle: Option<string>, rawDescription: Option<string>): (f: (string, Option<string>))
    ensures rawTitle.Some? ==> TrimOf(rawTitle.value, f.0)
    ensures f.0 == "" <==> rawTitle.None? || AllWhitespace(rawTitle.value)
    ensures f.1.None? <==> rawDescription.None? || AllWhitespace(rawDescription.value)
    ensures f.1.Some? ==> f.1.value != "" && TrimOf(rawDescription.value, f.1.value)
  {
    (RequiredText(rawTitle), OptionalText(rawDescription))
  }

  /** What a successful creation answers with: the deck and a card count of zero. */
  datatype DeckReply = DeckReply(deck: Deck, cardCount: nat)

  /** `POST /api/decks`. The checks run in this order: a user (401), a non-blank title
      (400). Then exactly one deck owned by the user is stored. `newId` and `now` are
      what the database assigns. */
  method Post(db: Db, auth: Option<UserId>, rawTitle: Option<string>, rawDescription: Option<string>,
              newId: DeckId, now: Instant) returns (res: Result<DeckReply, Status>)
    requires db.Valid()
    modifies db
    ensures db.Valid()
    ensures db.cards == old(db.cards) && db.reviews == old(db.reviews)
    ensures var (title, description) := ReadDeckFields(rawTitle, rawDescription);
            && (auth.None? ==> res == Failure(Unauthorized))
            && (auth.Some? && title == "" ==> res == Failure(BadRequest))
            && (res.Success? <==> auth.Some? && title != "")
            && (res.Failure? ==> db.decks == old(db.decks))
            && (res.Success? ==>
                  res.value == DeckReply(Deck(newId, auth.value, title, description, now, now), 0)
                  && db.decks == old(db.decks) + [res.value.deck])
  {
    if auth.None? {
      return Failure(Unauthorized);
    }
    var (title, description) := ReadDeckFields(rawTitle, rawDescription);
    if title == "" {
      return Failure(BadRequest);
    }
    var deck := Deck(newId, auth.value, title, description, now, now);
    AddDeckConsistent(db.decks, db.cards, db.reviews, deck);
    db.CreateDeck(deck);
    res := Success(DeckReply(deck, 0));
  }
}
