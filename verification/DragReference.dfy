// A declarative description of what one frame does, written without the
// loop: from an idle state the first confident hand with a tip inside the
// circle picks it up; from a dragging state only the dragging hand matters
// for the move, and every hand matters for the release. The lemmas prove
// that the statement-by-statement Frame agrees with it on every consistent
// state and every list of hands.

module DragReference {
  import opened HandPose
  import opened DragFrame

  /** A hand that can start a drag on a circle centred at c. */
  predicate ConfidentTouch(h: Hand, c: Point)
    requires WellFormed(h)
  {
    h.confidence > ConfidenceThreshold && Touching(h, c)
  }

  /** The position of the first hand among hands[..n] that can start a drag
    * on a circle centred at c, if there is one. */
  function FirstToucher(hands: seq<Hand>, c: Point, n: nat): (k: Option<nat>)
    requires AllWellFormed(hands) && n <= |hands|
    ensures k.None? ==> forall j :: 0 <= j < n ==> !ConfidentTouch(hands[j], c)
    ensures k.Some? ==>
              && k.value < n
              && ConfidentTouch(hands[k.value], c)
              && forall j :: 0 <= j < k.value ==> !ConfidentTouch(hands[j], c)
  {
    if n == 0 then None
    else
      match FirstToucher(hands, c, n - 1)
      case Some(k) => Some(k)
      case None => if ConfidentTouch(hands[n - 1], c) then Some(n - 1) else None
  }

  /** The finger a hand picks the circle up with: the index tip whenever it
    * is inside, the thumb tip only otherwise. */
  function StartingFinger(h: Hand, c: Point): nat
    requires WellFormed(h)
  {
    if InCircle(h.keypoints[IndexTip], c) then IndexTip else ThumbTip
  }

  /** The state after a drag has been picked up, or carried on, by the tip
    * at position tip: circle and previous position both sit on it. */
  function Carried(handIndex: nat, finger: nat, tip: Point): DragState
  {
    DragState(tip, true, Some(handIndex), Some(finger), Some(tip))
  }

  /** What a frame does, stated case by case. */
  function ReferenceFrame(s0: DragState, hands: seq<Hand>): (o: Outcome)
    requires Consistent(s0) && AllWellFormed(hands)
  {
    if s0.isDragging then
      var i := s0.handIndex.value;
      if i < |hands| && hands[i].confidence > ConfidenceThreshold then
        // the dragging hand is present: the circle follows its finger
        var tip := Tip(hands[i], s0.finger);
        Outcome(Carried(i, s0.finger.value, tip),
                [Segment(s0.previous.value, tip, TrailColour(s0.finger))])
      else if AnyTouching(hands, s0.circle) then
        // nothing moves; some hand still touches, so the drag is kept
        Outcome(s0, [])
      else
        Outcome(Cleared(s0), [])
    else
      match FirstToucher(hands, s0.circle, |hands|)
      case None => Outcome(s0, [])
      case Some(k) =>
        var f := StartingFinger(hands[k], s0.circle);
        var tip := hands[k].keypoints[f];
        Outcome(Carried(k, f, tip), [Segment(tip, tip, TrailColour(Some(f)))])
  }

  /** A fingertip is always inside the circle it has just been moved onto. */
  lemma TouchingOwnTip(h: Hand, finger: Option<nat>)
    requires WellFormed(h)
    ensures Touching(h, Tip(h, finger))
  {
  }

  /** Without a drag and with no confident hand touching, the loop changes
    * nothing and draws nothing. */
  lemma {:induction false} LoopIdle(s0: DragState, hands: seq<Hand>, n: nat)
    requires AllWellFormed(hands) && n <= |hands|
    requires !s0.isDragging
    requires forall j :: 0 <= j < n ==> !ConfidentTouch(hands[j], s0.circle)
    ensures Loop(s0, hands, n) == Outcome(s0, [])
  {
    if n > 0 {
      LoopIdle(s0, hands, n - 1);
    }
  }

  /** Without a drag, the first confident hand k touching the circle picks it
    * up at its starting finger, moves it onto that tip and draws one
    * zero-length segment; the hands after k change nothing. */
  lemma {:induction false} LoopStart(s0: DragState, hands: seq<Hand>, k: nat, n: nat)
    requires AllWellFormed(hands) && k < n <= |hands|
    requires !s0.isDragging
    requires ConfidentTouch(hands[k], s0.circle)
    requires forall j :: 0 <= j < k ==> !ConfidentTouch(hands[j], s0.circle)
    ensures var f := StartingFinger(hands[k], s0.circle);
            var tip := hands[k].keypoints[f];
            Loop(s0, hands, n) == Outcome(Carried(k, f, tip), [Segment(tip, tip, TrailColour(Some(f)))])
  {
    if n == k + 1 {
      LoopIdle(s0, hands, k);
    } else {
      LoopStart(s0, hands, k, n - 1);
    }
  }

  /** During a drag, only the dragging hand's iteration does anything, and it
    * does something only when that hand is confident. */
  lemma {:induction false} LoopFollow(s0: DragState, hands: seq<Hand>, n: nat)
    requires AllWellFormed(hands) && n <= |hands|
    requires Consistent(s0) && s0.isDragging
    ensures var i := s0.handIndex.value;
            Loop(s0, hands, n) ==
              if i < n && hands[i].confidence > ConfidenceThreshold then
                var tip := Tip(hands[i], s0.finger);
                Outcome(Carried(i, s0.finger.value, tip),
                        [Segment(s0.previous.value, tip, TrailColour(s0.finger))])
              else
                Outcome(s0, [])
  {
    if n > 0 {
      LoopFollow(s0, hands, n - 1);
    }
  }

  /** The statement-by-statement frame agrees with the reference. */
  lemma FrameMatchesReference(s0: DragState, hands: seq<Hand>)
    requires Consistent(s0) && AllWellFormed(hands)
    ensures Frame(s0, hands) == ReferenceFrame(s0, hands)
  {
    var n := |hands|;
    if s0.isDragging {
      var i := s0.handIndex.value;
      LoopFollow(s0, hands, n);
      if i < n && hands[i].confidence > ConfidenceThreshold {
        TouchingOwnTip(hands[i], s0.finger);
      }
    } else {
      match FirstToucher(hands, s0.circle, n)
      case None =>
        LoopIdle(s0, hands, n);
      case Some(k) =>
        LoopStart(s0, hands, k, n);
        var f := StartingFinger(hands[k], s0.circle);
        assert hands[k].keypoints[f] == Tip(hands[k], Some(f));
        TouchingOwnTip(hands[k], Some(f));
    }
  }
}
