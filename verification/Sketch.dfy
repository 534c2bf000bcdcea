// The sketch's drag state and its per-frame update, as an object whose
// fields are the sketch's globals and whose Step method is the drag part of
// draw(), changing those fields in place.

module Sketch {
  import opened HandPose
  import opened DragFrame

  class DragController {
    var circleX: real
    var circleY: real
    var isDragging: bool
    /** Position, in the frame's hand list, of the hand that drags. */
    var draggingHandIndex: Option<nat>
    /** Keypoint number of the dragging fingertip (8 index, 4 thumb). */
    var draggingFinger: Option<nat>
    var previousFingerPosition: Option<Point>

    /** The fields, as one value. */
    function State(): DragState
      reads this
    {
      DragState(Point(circleX, circleY), isDragging, draggingHandIndex, draggingFinger, previousFingerPosition)
    }

    predicate Valid()
      reads this
    {
      Consistent(State())
    }

    /** setup(): the circle at the centre of the 640 x 480 canvas, no drag. */
    constructor ()
      ensures Valid()
      ensures State() == Initial()
    {
      circleX := CanvasWidth / 2.0;
      circleY := CanvasHeight / 2.0;
      isDragging := false;
      draggingHandIndex := None;
      draggingFinger := None;
      previousFingerPosition := None;
    }

    /** One frame of draw(): walk the detected hands in order, starting,
      * following and drawing the drag, then apply the release rule. Returns
      * the trail segments drawn, in order. */
    method Step(hands: seq<Hand>) returns (trail: seq<Segment>)
      requires Valid() && AllWellFormed(hands)
      modifies this
      ensures Valid()
      ensures State() == Frame(old(State()), hands).state
      ensures trail == Frame(old(State()), hands).trail
    {
      trail := [];
      if |hands| > 0 {
        var handIndex := 0;
        while handIndex < |hands|
          invariant 0 <= handIndex <= |hands|
          invariant Valid()
          invariant Loop(old(State()), hands, handIndex) == Outcome(State(), trail)
        {
          var hand := hands[handIndex];
          if hand.confidence > ConfidenceThreshold {
            var indexFinger := hand.keypoints[IndexTip];
            var indexInside := InCircle(indexFinger, Point(circleX, circleY));
            var thumb := hand.keypoints[ThumbTip];
            var thumbInside := InCircle(thumb, Point(circleX, circleY));

            if indexInside {
              if !isDragging {
                isDragging := true;
                draggingHandIndex := Some(handIndex);
                draggingFinger := Some(IndexTip);
                previousFingerPosition := Some(indexFinger);
              }
            }

            if thumbInside {
              if !isDragging {
                isDragging := true;
                draggingHandIndex := Some(handIndex);
                draggingFinger := Some(ThumbTip);
                previousFingerPosition := Some(thumb);
              }
            }

            if isDragging && draggingHandIndex == Some(handIndex) {
              var currentFinger := if draggingFinger == Some(IndexTip) then indexFinger else thumb;
              var lineColour := if draggingFinger == Some(IndexTip) then IndexTrailColour else ThumbTrailColour;
              if previousFingerPosition.Some? {
                trail := trail + [Segment(previousFingerPosition.value, currentFinger, lineColour)];
              }
              circleX := currentFinger.x;
              circleY := currentFinger.y;
              previousFingerPosition := Some(currentFinger);
            }
          }
          handIndex := handIndex + 1;
        }
      }

      var centre := Point(circleX, circleY);
      if |hands| == 0 || !(exists i :: 0 <= i < |hands| && Touching(hands[i], centre)) {
        isDragging := false;
        draggingHandIndex := None;
        draggingFinger := None;
        previousFingerPosition := None;
      }
    }
  }
}
