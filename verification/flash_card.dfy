/**
 * The flashcard review screen: one card at a time, tap to reveal the
 * translation, swipe right for "memorised" and left for "not yet".
 */
module FlashCard {
  import opened Wrappers
  import opened Words

  // ---------------------------------------------------------------------------
  // Gestures

  /** The gesture handler state that marks the end of a pan gesture. */
  const GestureEnd := 5

  /** Horizontal travel a pan must exceed, in either direction, to count as a swipe. */
  const SwipeThreshold: real := 100.0

  /** The two fields of a pan gesture's state-change event that the screen reads. */
  datatype GestureEvent = GestureEvent(state: int, translationX: real)

  datatype Swipe = Right | Left

  /** `onHandlerStateChange`: only an ended pan beyond the threshold is a swipe. */
  function Classify(e: GestureEvent): (r: Option<Swipe>)
    ensures r == Some(Right) <==> e.state == GestureEnd && e.translationX > SwipeThreshold
    ensures r == Some(Left) <==> e.state == GestureEnd && e.translationX < -SwipeThreshold
    ensures r == None <==> e.state != GestureEnd || -SwipeThreshold <= e.translationX <= SwipeThreshold
  {
    if e.state != GestureEnd then None
    else if e.translationX > SwipeThreshold then Some(Right)
    else if e.translationX < -SwipeThreshold then Some(Left)
    else None
  }

  // ---------------------------------------------------------------------------
  // Review session

  /** The screen's state: the deck, the position in it, and whether the answer is shown. */
  datatype Session = Session(cards: seq<WordRecord>, currentIndex: nat, showAnswer: bool)

  /** A freshly loaded deck starts at the first card with the question side up. */
  function Start(cards: seq<WordRecord>): Session {
    Session(cards, 0, false)
  }

  predicate Valid(s: Session) {
    s.currentIndex <= |s.cards|
  }

  /** "Finish All Cards!" is shown once the position has passed the last card. */
  function Finished(s: Session): (r: bool)
    ensures !r <==> s.currentIndex < |s.cards|
    ensures r && Valid(s) ==> s.currentIndex == |s.cards|
    ensures s.cards == [] ==> r
  {
    s.currentIndex >= |s.cards|
  }

  /** The body of the `/update_known` request a swipe sends. */
  datatype KnownUpdate = KnownUpdate(id: int, known: int)

  /** A swipe's outcome: the next state and the update sent for the card swiped away. */
  datatype SwipeOutcome = SwipeOutcome(session: Session, update: KnownUpdate)

  function KnownFlag(d: Swipe): (known: int)
    ensures known == 1 <==> d.Right?
    ensures known == 0 <==> d.Left?
  {
    if d == Right then 1 else 0
  }

  /**
   * `handleSwipe`: reports the current card as memorised or not, hides the
   * answer and moves to the next card. A card must be on screen, since the
   * gesture handler only exists while one is shown.
   */
  function HandleSwipe(s: Session, d: Swipe): (r: SwipeOutcome)
    requires !Finished(s)
    ensures r.session.cards == s.cards
    ensures r.session.currentIndex == s.currentIndex + 1
    ensures !r.session.showAnswer
    ensures r.update.id == s.cards[s.currentIndex].id
    ensures r.update.known == KnownFlag(d)
    ensures Valid(r.session)
  {
    var word := s.cards[s.currentIndex];
    SwipeOutcome(Session(s.cards, s.currentIndex + 1, false), KnownUpdate(word.id, KnownFlag(d)))
  }

  /** A gesture event on the card: a swipe as above, anything else leaves the state alone and sends nothing. */
  function OnGesture(s: Session, e: GestureEvent): (r: (Session, Option<KnownUpdate>))
    requires !Finished(s)
    ensures Classify(e) == None ==> r == (s, None)
    ensures Classify(e).Some? ==>
              var o := HandleSwipe(s, Classify(e).value);
              r == (o.session, Some(o.update))
  {
    match Classify(e)
    case None => (s, None)
    case Some(d) =>
      var o := HandleSwipe(s, d);
      (o.session, Some(o.update))
  }

  /** Tapping the card flips between question and answer and changes nothing else. */
  function Tap(s: Session): (r: Session)
    ensures r.showAnswer != s.showAnswer
    ensures r.cards == s.cards && r.currentIndex == s.currentIndex
  {
    s.(showAnswer := !s.showAnswer)
  }

  /** What the screen shows. */
  datatype View = AllDone | CardText(text: string)

  function Display(s: Session): (v: View)
    ensures v == AllDone <==> Finished(s)
    ensures !Finished(s) && s.showAnswer ==> v == CardText(s.cards[s.currentIndex].translatedText)
    ensures !Finished(s) && !s.showAnswer ==> v == CardText(s.cards[s.currentIndex].sourceText)
  {
    if s.currentIndex >= |s.cards| then AllDone
    else
      var card := s.cards[s.currentIndex];
      CardText(if s.showAnswer then card.translatedText else card.sourceText)
  }

  /**
   * A run of swipes from `s`: the state after them and the updates sent, in
   * order. Each swipe needs a card on screen.
   */
  function Review(s: Session, swipes: seq<Swipe>): (r: (Session, seq<KnownUpdate>))
    requires s.currentIndex + |swipes| <= |s.cards|
    ensures r.0.cards == s.cards
    ensures r.0.currentIndex == s.currentIndex + |swipes|
    ensures |swipes| > 0 ==> !r.0.showAnswer
    ensures |r.1| == |swipes|
    decreases |swipes|
  {
    if |swipes| == 0 then (s, [])
    else
      var first := HandleSwipe(s, swipes[0]);
      var rest := Review(first.session, swipes[1..]);
      (rest.0, [first.update] + rest.1)
  }
}
