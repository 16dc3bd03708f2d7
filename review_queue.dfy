/** The client review session: a queue of due cards worked through front to back,
    the number of cards it started with, and whether the answer is showing. */
module ReviewQueue {
  import opened Wrappers
  import opened Entities
  import opened Reviews
  import opened ReviewRoute

  /** The grade buttons the session offers. */
  const GradeOptions: seq<int> := [0, 1, 2, 3, 4, 5]

  /** A due card as the review endpoint serves it to the client. */
  datatype ReviewCard = ReviewCard(id: CardId, front: string, back: string, hint: Option<string>,
                                   deckId: DeckId, deckTitle: string)

  /** The request a grade button sends. */
  datatype Submission = Submission(cardId: CardId, grade: int)

  /** How the submission ended, as reported back to the client. */
  datatype Outcome = Succeeded | Failed

  /** The session's header line. */
  datatype Header = NoCardsToday | Finished | Progress(remaining: nat, initialCount: nat)

  /** `headerText`: nothing to review when the session started empty; finished when
      the queue has run out; otherwise remaining over initial. */
  function HeaderText(initialCount: nat, remaining: nat): (h: Header)
    ensures h == NoCardsToday <==> initialCount == 0
    ensures h == Finished <==> initialCount != 0 && remaining == 0
    ensures h.Progress? ==> h == Progress(remaining, initialCount) && 0 < remaining && 0 < initialCount
  {
    if initialCount == 0 then NoCardsToday
    else if remaining == 0 then Finished
    else Progress(remaining, initialCount)
  }

  /** Every grade offered passes the review endpoint's payload check for any card
      id, and is scheduled by the table. */
  lemma OfferedGradesAccepted(cardId: CardId, g: int)
    requires cardId != ""
    requires g in GradeOptions
    ensures ParsePayload(Some(cardId), Some(g as real)) == Some((cardId, g as real))
    ensures g as real in GradeInterval && IntervalDays(g as real) == GradeInterval[g as real]
  {
  }

  class ReviewSession {
    var queue: seq<ReviewCard>
    var initialCount: nat
    var showAnswer: bool

    /** The queue never holds more cards than the session started with. */
    ghost predicate Valid()
      reads this
    {
      |queue| <= initialCount
    }

    constructor ()
      ensures Valid()
      ensures queue == [] && initialCount == 0 && !showAnswer
    {
      queue, initialCount, showAnswer := [], 0, false;
    }

    function Remaining(): nat
      reads this
    {
      |queue|
    }

    /** `completed = initialCount - remaining`, which stays within [0, initialCount]. */
    function Completed(): (n: nat)
      reads this
      requires Valid()
      ensures n <= initialCount && n + Remaining() == initialCount
    {
      initialCount - |queue|
    }

    /** The header of the session as it stands. While a card is up the header shows
        progress; once the queue is empty it shows the end or the empty start. */
    function Header(): (h: Header)
      reads this
      requires Valid()
      ensures queue != [] <==> h.Progress?
      ensures h.Progress? ==> h.remaining == |queue| && h.remaining <= h.initialCount
      ensures queue == [] ==> (h == Finished <==> Completed() > 0)
    {
      HeaderText(initialCount, |queue|)
    }

    /** The load effect: when the query has data the session restarts on it. */
    method Load(data: Option<seq<ReviewCard>>)
      requires Valid()
      modifies this
      ensures Valid()
      ensures data.None? ==> queue == old(queue) && initialCount == old(initialCount) && showAnswer == old(showAnswer)
      ensures data.Some? ==> queue == data.value && initialCount == |data.value| && !showAnswer
    {
      if data.Some? {
        queue := data.value;
        initialCount := |data.value|;
        showAnswer := false;
      }
    }

    /** `handleReveal`. */
    method Reveal()
      modifies this
      ensures showAnswer
      ensures queue == old(queue) && initialCount == old(initialCount)
    {
      showAnswer := true;
    }

    /** `handleGrade`: with no current card nothing is sent and nothing changes;
        otherwise the grade for the head card is sent, and on success the head is
        dropped and the answer hidden, while on failure the session stays as it was. */
    method Grade(grade: int, outcome: Outcome) returns (sent: Option<Submission>)
      requires Valid()
      modifies this
      ensures Valid()
      ensures initialCount == old(initialCount)
      ensures old(queue) == [] ==> sent.None? && queue == old(queue) && showAnswer == old(showAnswer)
      ensures old(queue) != [] ==> sent == Some(Submission(old(queue)[0].id, grade))
      ensures old(queue) != [] && outcome == Succeeded ==> queue == old(queue)[1..] && !showAnswer
      ensures outcome == Failed ==> queue == old(queue) && showAnswer == old(showAnswer)
    {
      if queue == [] {
        return None;
      }
      sent := Some(Submission(queue[0].id, grade));
      if outcome == Succeeded {
        queue := queue[1..];
        showAnswer := false;
      }
    }
  }
}
