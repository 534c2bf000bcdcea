// What the drag controller promises about a frame, proved of Frame for
// every consistent state and every list of detected hands.

module DragProperties {
  import opened HandPose
  import opened DragFrame
  import opened DragReference

  /** A drag that starts in a frame is started by the first confident hand
    * whose index or thumb tip was inside the circle at the start of the
    * frame; that hand exists in this frame's list, the recorded finger is
    * the thumb or the index tip, and the circle ends on that tip. */
  lemma DragStartsAtFirstConfidentTouch(s0: DragState, hands: seq<Hand>)
    requires Consistent(s0) && AllWellFormed(hands)
    requires !s0.isDragging && Frame(s0, hands).state.isDragging
    ensures var s1 := Frame(s0, hands).state;
            && s1.handIndex.Some? && s1.handIndex.value < |hands|
            && (s1.finger == Some(IndexTip) || s1.finger == Some(ThumbTip))
            && ConfidentTouch(hands[s1.handIndex.value], s0.circle)
            && (forall j :: 0 <= j < s1.handIndex.value ==> !ConfidentTouch(hands[j], s0.circle))
            && s1.circle == Tip(hands[s1.handIndex.value], s1.finger)
            && s1.previous == Some(s1.circle)
  {
    FrameMatchesReference(s0, hands);
    var k := FirstToucher(hands, s0.circle, |hands|);
    if k.Some? {
      var f := StartingFinger(hands[k.value], s0.circle);
      assert hands[k.value].keypoints[f] == Tip(hands[k.value], Some(f));
    }
  }

  /** Index before thumb: a drag started by hand k is recorded on the index
    * finger exactly when that hand's index tip was inside the circle, so in
    * particular whenever both of its tips were. */
  lemma IndexFingerHasPriority(s0: DragState, hands: seq<Hand>, k: nat)
    requires Consistent(s0) && AllWellFormed(hands)
    requires !s0.isDragging && Frame(s0, hands).state.handIndex == Some(k)
    ensures k < |hands|
    ensures var s1 := Frame(s0, hands).state;
            s1.finger == Some(IndexTip) <==> InCircle(hands[k].keypoints[IndexTip], s0.circle)
    ensures var both := InCircle(hands[k].keypoints[IndexTip], s0.circle) && InCircle(hands[k].keypoints[ThumbTip], s0.circle);
            both ==> Frame(s0, hands).state.finger == Some(IndexTip)
  {
    FrameMatchesReference(s0, hands);
  }

  /** Hands whose confidence is at most the threshold never start a drag,
    * never move the circle and draw no trail. */
  lemma LowConfidenceHandsAreInert(s0: DragState, hands: seq<Hand>)
    requires Consistent(s0) && AllWellFormed(hands)
    requires forall i :: 0 <= i < |hands| ==> hands[i].confidence <= ConfidenceThreshold
    ensures Frame(s0, hands).state.circle == s0.circle
    ensures Frame(s0, hands).trail == []
    ensures !s0.isDragging ==> Frame(s0, hands) == Outcome(s0, [])
  {
    FrameMatchesReference(s0, hands);
  }

  /** The circle moves only under a drag, to the recorded fingertip of the
    * dragging hand, which is present and confident in this frame. */
  lemma MovementNeedsDraggingHand(s0: DragState, hands: seq<Hand>)
    requires Consistent(s0) && AllWellFormed(hands)
    ensures var s1 := Frame(s0, hands).state;
            s1.circle != s0.circle ==>
            && s1.isDragging
            && s1.handIndex.value < |hands|
            && hands[s1.handIndex.value].confidence > ConfidenceThreshold
            && s1.circle == Tip(hands[s1.handIndex.value], s1.finger)
            && s1.previous == Some(s1.circle)
  {
    FrameMatchesReference(s0, hands);
    if !s0.isDragging {
      var k := FirstToucher(hands, s0.circle, |hands|);
      if k.Some? {
        var f := StartingFinger(hands[k.value], s0.circle);
        assert hands[k.value].keypoints[f] == Tip(hands[k.value], Some(f));
      }
    }
  }

  /** While the dragging hand is present and confident, the circle and the
    * previous position land on its fingertip, one segment in the finger's
    * colour is drawn from the old previous position, and the drag survives
    * the release rule. */
  lemma DraggingHandCarriesCircle(s0: DragState, hands: seq<Hand>)
    requires Consistent(s0) && AllWellFormed(hands) && s0.isDragging
    requires s0.handIndex.value < |hands| && hands[s0.handIndex.value].confidence > ConfidenceThreshold
    ensures var tip := Tip(hands[s0.handIndex.value], s0.finger);
            Frame(s0, hands) ==
              Outcome(s0.(circle := tip, previous := Some(tip)),
                      [Segment(s0.previous.value, tip, TrailColour(s0.finger))])
  {
    FrameMatchesReference(s0, hands);
  }

  /** Every frame draws at most one trail segment. It ends on the circle's
    * new centre, is red for the index finger and blue for the thumb, starts
    * at the previous fingertip position, and has zero length on the frame
    * that starts the drag. */
  lemma TrailFollowsFinger(s0: DragState, hands: seq<Hand>)
    requires Consistent(s0) && AllWellFormed(hands)
    ensures var o := Frame(s0, hands);
            && |o.trail| <= 1
            && (|o.trail| == 1 ==>
                  && o.state.isDragging
                  && o.trail[0].to == o.state.circle
                  && o.trail[0].colour == (if o.state.finger == Some(IndexTip) then Rgb(255, 0, 0) else Rgb(0, 0, 255))
                  && o.trail[0].from == (if s0.isDragging then s0.previous.value else o.state.circle))
    ensures Frame(s0, hands).state.isDragging && !s0.isDragging ==> |Frame(s0, hands).trail| == 1
  {
    FrameMatchesReference(s0, hands);
  }

  /** Release when the dragging hand is gone or not confident: the circle
    * stays, nothing is drawn, and the drag is kept exactly when some hand,
    * of any confidence, still has a tip inside the circle; otherwise the
    * whole drag record is cleared. */
  lemma GlobalReleaseRule(s0: DragState, hands: seq<Hand>)
    requires Consistent(s0) && AllWellFormed(hands) && s0.isDragging
    requires s0.handIndex.value >= |hands| || hands[s0.handIndex.value].confidence <= ConfidenceThreshold
    ensures Frame(s0, hands).trail == []
    ensures Frame(s0, hands).state.circle == s0.circle
    ensures Frame(s0, hands).state.isDragging <==> AnyTouching(hands, s0.circle)
    ensures Frame(s0, hands).state == if AnyTouching(hands, s0.circle) then s0 else Cleared(s0)
  {
    FrameMatchesReference(s0, hands);
  }

  /** The release rule in general: after a frame a drag is active exactly
    * when one was active or some confident hand touched the circle at the
    * start of the frame, and some hand touches the circle where it ends. */
  lemma ReleaseRule(s0: DragState, hands: seq<Hand>)
    requires Consistent(s0) && AllWellFormed(hands)
    ensures var s1 := Frame(s0, hands).state;
            s1.isDragging <==>
              && (s0.isDragging || exists j :: 0 <= j < |hands| && ConfidentTouch(hands[j], s0.circle))
              && AnyTouching(hands, s1.circle)
  {
    FrameMatchesReference(s0, hands);
    var s1 := Frame(s0, hands).state;
    if s0.isDragging {
      var i := s0.handIndex.value;
      if i < |hands| && hands[i].confidence > ConfidenceThreshold {
        TouchingOwnTip(hands[i], s0.finger);
      }
    } else {
      var k := FirstToucher(hands, s0.circle, |hands|);
      if k.Some? {
        var f := StartingFinger(hands[k.value], s0.circle);
        assert hands[k.value].keypoints[f] == Tip(hands[k.value], Some(f));
        TouchingOwnTip(hands[k.value], Some(f));
      }
    }
  }

  /** Detection and rendering run at different rates, so a frame can see the
    * same hand list as the one before. Rendering it again leaves the state
    * as it is and draws only zero-length segments. */
  lemma RepeatedFrameIsStable(s0: DragState, hands: seq<Hand>)
    requires Consistent(s0) && AllWellFormed(hands)
    ensures var s1 := Frame(s0, hands).state;
            var again := Frame(s1, hands);
            && again.state == s1
            && forall j :: 0 <= j < |again.trail| ==> again.trail[j].from == again.trail[j].to
  {
    FrameMatchesReference(s0, hands);
    var s1 := Frame(s0, hands).state;
    FrameMatchesReference(s1, hands);
    if !s0.isDragging {
      var k := FirstToucher(hands, s0.circle, |hands|);
      if k.Some? {
        var f := StartingFinger(hands[k.value], s0.circle);
        assert hands[k.value].keypoints[f] == Tip(hands[k.value], Some(f));
      }
    }
  }
}
