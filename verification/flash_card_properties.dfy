/** Properties of the flashcard review screen across several events. */
module FlashCardProperties {
  import opened Wrappers
  import opened Words
  import opened FlashCard

  /** The classifier is symmetric: mirroring a pan swaps right and left. */
  lemma ClassifyMirror(e: GestureEvent)
    ensures var m := GestureEvent(e.state, -e.translationX);
            && (Classify(e) == Some(Right) <==> Classify(m) == Some(Left))
            && (Classify(e) == None <==> Classify(m) == None)
  {
  }

  /** A pan of exactly the threshold, either way, is not a swipe; neither is any pan that has not ended. */
  lemma ClassifyBoundary(state: int, x: real)
    ensures Classify(GestureEvent(GestureEnd, SwipeThreshold)) == None
    ensures Classify(GestureEvent(GestureEnd, -SwipeThreshold)) == None
    ensures state != GestureEnd ==> Classify(GestureEvent(state, x)) == None
  {
  }

  /** Two taps restore the card as it was. */
  lemma TapTwice(s: Session)
    ensures Tap(Tap(s)) == s
  {
  }

  /** Whether the answer was revealed does not affect what a swipe does. */
  lemma SwipeIgnoresReveal(s: Session, d: Swipe)
    requires !Finished(s)
    ensures HandleSwipe(Tap(s), d) == HandleSwipe(s, d)
  {
  }

  /** An empty deck shows the closing message straight away. */
  lemma EmptyDeckFinished()
    ensures Display(Start([])) == AllDone
  {
  }

  /** No event takes a valid session past the end of the deck. */
  lemma EventsKeepValid(s: Session, e: GestureEvent)
    requires Valid(s) && !Finished(s)
    ensures Valid(OnGesture(s, e).0)
    ensures Valid(Tap(s))
  {
  }

  /** Reviewing in two runs is reviewing in one: states chain and the updates are concatenated. */
  lemma {:induction false} ReviewConcat(s: Session, a: seq<Swipe>, b: seq<Swipe>)
    requires s.currentIndex + |a| + |b| <= |s.cards|
    ensures Review(s, a + b).0 == Review(Review(s, a).0, b).0
    ensures Review(s, a + b).1 == Review(s, a).1 + Review(Review(s, a).0, b).1
    decreases |a|
  {
    if |a| == 0 {
      assert a + b == b;
      var second := Review(s, b);
      assert Review(s, a).0 == s && Review(s, a).1 == [];
      assert [] + second.1 == second.1;
    } else {
      assert (a + b)[0] == a[0] && (a + b)[1..] == a[1..] + b;
      var step := HandleSwipe(s, a[0]);
      var tail := Review(step.session, a[1..]);
      var second := Review(tail.0, b);
      var rest := Review(step.session, a[1..] + b);
      ReviewConcat(step.session, a[1..], b);
      assert rest.0 == second.0 && rest.1 == tail.1 + second.1;
      assert Review(s, a).0 == tail.0 && Review(s, a).1 == [step.update] + tail.1;
      assert Review(s, a + b).0 == rest.0 && Review(s, a + b).1 == [step.update] + rest.1;
      assert [step.update] + (tail.1 + second.1) == ([step.update] + tail.1) + second.1;
    }
  }

  /** The i-th update of a run reports the i-th card from the starting position with the i-th swipe's flag. */
  lemma {:induction false} ReviewUpdates(s: Session, swipes: seq<Swipe>)
    requires s.currentIndex + |swipes| <= |s.cards|
    ensures forall i :: 0 <= i < |swipes| ==>
              Review(s, swipes).1[i] == KnownUpdate(s.cards[s.currentIndex + i].id, KnownFlag(swipes[i]))
    decreases |swipes|
  {
    if |swipes| > 0 {
      var step := HandleSwipe(s, swipes[0]);
      ReviewUpdates(step.session, swipes[1..]);
      var rest := Review(step.session, swipes[1..]);
      assert Review(s, swipes).1 == [step.update] + rest.1;
      forall i | 0 < i < |swipes|
        ensures Review(s, swipes).1[i] == KnownUpdate(s.cards[s.currentIndex + i].id, KnownFlag(swipes[i]))
      {
        assert Review(s, swipes).1[i] == rest.1[i - 1];
        assert swipes[1..][i - 1] == swipes[i];
      }
    }
  }

  /**
   * Swiping through the whole of a freshly loaded deck reports every card
   * once, in deck order, and ends on the closing message.
   */
  lemma WholeDeck(cards: seq<WordRecord>, swipes: seq<Swipe>)
    requires |swipes| == |cards|
    ensures var r := Review(Start(cards), swipes);
            && Display(r.0) == AllDone
            && |r.1| == |cards|
            && forall i :: 0 <= i < |cards| ==> r.1[i].id == cards[i].id && (r.1[i].known == 1 <==> swipes[i].Right?)
  {
    ReviewUpdates(Start(cards), swipes);
  }
}
