// The hand observations that the external hand-landmark detector delivers
// once per detection, as the drag controller sees them.

module HandPose {

  /** A planar canvas position (the detector's keypoint x/y). */
  datatype Point = Point(x: real, y: real)

  datatype Handedness = Left | Right

  /** One detected hand: a confidence score, its handedness and its
    * keypoints in the detector's fixed skeletal order (21 of them). */
  datatype Hand = Hand(confidence: real, handedness: Handedness, keypoints: seq<Point>)

  /** Keypoint number of the thumb tip. */
  const ThumbTip: nat := 4
  /** Keypoint number of the index-finger tip. */
  const IndexTip: nat := 8

  /** The controller reads keypoints 4 and 8 of every hand it is given. */
  predicate WellFormed(h: Hand)
  {
    IndexTip < |h.keypoints|
  }

  predicate AllWellFormed(hands: seq<Hand>)
  {
    forall i :: 0 <= i < |hands| ==> WellFormed(hands[i])
  }
}
