// One rendering frame of the drag controller, written as functions that
// follow draw() statement by statement: the loop over the detected hands
// (start a drag, follow the dragging finger and emit a trail segment) and
// the end-of-frame release rule.

module DragFrame {
  import opened HandPose

  /** Radius of the draggable circle, in canvas pixels; never changed. */
  const CircleRadius: real := 50.0
  const CanvasWidth: real := 640.0
  const CanvasHeight: real := 480.0
  /** A hand takes part in the drag logic only when its confidence is
    * strictly above this score. */
  const ConfidenceThreshold: real := 0.1

  /** JavaScript's null, for the drag record's optional fields. */
  datatype Option<T> = None | Some(value: T)

  datatype Colour = Rgb(red: nat, green: nat, blue: nat)
  const IndexTrailColour: Colour := Rgb(255, 0, 0)
  const ThumbTrailColour: Colour := Rgb(0, 0, 255)

  /** A stroked trail line, from the previous fingertip position to the
    * current one. */
  datatype Segment = Segment(from: Point, to: Point, colour: Colour)

  /** Everything the controller carries from one frame to the next: the
    * circle centre and the drag record. */
  datatype DragState = DragState(
    circle: Point,
    isDragging: bool,
    handIndex: Option<nat>,
    finger: Option<nat>,
    previous: Option<Point>)

  /** What a frame (or a part of one) produces: the new state and the trail
    * segments drawn, in order. */
  datatype Outcome = Outcome(state: DragState, trail: seq<Segment>)

  /** The drag record's invariant: not dragging exactly when hand, finger
    * and previous position are all unset, and a recorded finger is the
    * thumb tip or the index tip. */
  predicate Consistent(s: DragState)
  {
    && s.handIndex.Some? == s.isDragging
    && s.finger.Some? == s.isDragging
    && s.previous.Some? == s.isDragging
    && (s.finger.Some? ==> s.finger.value == IndexTip || s.finger.value == ThumbTip)
  }

  /** The state set up before the first frame: the circle in the middle of
    * the canvas, no drag. */
  function Initial(): (s: DragState)
    ensures Consistent(s) && !s.isDragging
    ensures s.circle.x == CanvasWidth / 2.0 && s.circle.y == CanvasHeight / 2.0
  {
    DragState(Point(CanvasWidth / 2.0, CanvasHeight / 2.0), false, None, None, None)
  }

  function DistSq(p: Point, q: Point): real
  {
    (p.x - q.x) * (p.x - q.x) + (p.y - q.y) * (p.y - q.y)
  }

  /** `dist(p, c) < circleRadius`; since the radius is positive this is the
    * same as comparing squared distances. */
  predicate InCircle(p: Point, c: Point)
  {
    DistSq(p, c) < CircleRadius * CircleRadius
  }

  /** The release test for one hand: its index tip or its thumb tip lies
    * strictly inside the circle centred at c. */
  predicate Touching(h: Hand, c: Point)
    requires WellFormed(h)
  {
    InCircle(h.keypoints[IndexTip], c) || InCircle(h.keypoints[ThumbTip], c)
  }

  /** `hands.some(...)` of the release rule: whatever their confidence. */
  predicate AnyTouching(hands: seq<Hand>, c: Point)
    requires AllWellFormed(hands)
  {
    exists i :: 0 <= i < |hands| && Touching(hands[i], c)
  }

  /** The fingertip that drags: the index tip when the recorded finger is 8,
    * the thumb tip otherwise. */
  function Tip(h: Hand, finger: Option<nat>): Point
    requires WellFormed(h)
  {
    if finger == Some(IndexTip) then h.keypoints[IndexTip] else h.keypoints[ThumbTip]
  }

  /** Red for the index finger, blue otherwise. */
  function TrailColour(finger: Option<nat>): Colour
  {
    if finger == Some(IndexTip) then IndexTrailColour else ThumbTrailColour
  }

  function StartDrag(s: DragState, handIndex: nat, finger: nat, tip: Point): DragState
  {
    s.(isDragging := true, handIndex := Some(handIndex), finger := Some(finger), previous := Some(tip))
  }

  function Cleared(s: DragState): DragState
  {
    s.(isDragging := false, handIndex := None, finger := None, previous := None)
  }

  /** The follow step for the hand at position handIndex: when it is the
    * dragging hand, draw the trail segment (if a previous position is
    * recorded) and move the circle and the previous position to the tip. */
  function Follow(s: DragState, h: Hand, handIndex: nat): Outcome
    requires WellFormed(h)
  {
    if s.isDragging && s.handIndex == Some(handIndex) then
      var current := Tip(h, s.finger);
      var trail := if s.previous.Some? then [Segment(s.previous.value, current, TrailColour(s.finger))] else [];
      Outcome(s.(circle := current, previous := Some(current)), trail)
    else
      Outcome(s, [])
  }

  /** One iteration of the loop over the hands: a confident hand may start a
    * drag (index tip tested first, then thumb tip, both against the circle
    * as it was when the iteration began) and then follows it. */
  function ProcessHand(s: DragState, h: Hand, handIndex: nat): (o: Outcome)
    requires WellFormed(h)
    ensures Consistent(s) ==> Consistent(o.state)
    ensures s.isDragging ==>
              o.state.isDragging && o.state.handIndex == s.handIndex && o.state.finger == s.finger
    ensures !s.isDragging && o.state.isDragging ==>
              o.state.handIndex == Some(handIndex) && h.confidence > ConfidenceThreshold
    ensures o.state.circle != s.circle ==>
              o.state.isDragging && o.state.handIndex == Some(handIndex) && h.confidence > ConfidenceThreshold
    ensures h.confidence <= ConfidenceThreshold ==> o == Outcome(s, [])
  {
    if h.confidence > ConfidenceThreshold then
      var indexFinger := h.keypoints[IndexTip];
      var thumb := h.keypoints[ThumbTip];
      var s1 := if InCircle(indexFinger, s.circle) && !s.isDragging
                then StartDrag(s, handIndex, IndexTip, indexFinger) else s;
      var s2 := if InCircle(thumb, s.circle) && !s1.isDragging
                then StartDrag(s1, handIndex, ThumbTip, thumb) else s1;
      Follow(s2, h, handIndex)
    else
      Outcome(s, [])
  }

  /** The loop over the first n hands, in array order, each one seeing the
    * state (and circle) left by the ones before it. */
  function Loop(s0: DragState, hands: seq<Hand>, n: nat): (o: Outcome)
    requires AllWellFormed(hands) && n <= |hands|
    ensures Consistent(s0) ==> Consistent(o.state)
    ensures s0.isDragging ==>
              o.state.isDragging && o.state.handIndex == s0.handIndex && o.state.finger == s0.finger
    ensures !s0.isDragging && o.state.isDragging ==>
              o.state.handIndex.Some? && o.state.handIndex.value < n
              && hands[o.state.handIndex.value].confidence > ConfidenceThreshold
    ensures o.state.circle != s0.circle ==>
              o.state.isDragging && o.state.handIndex.Some? && o.state.handIndex.value < n
              && hands[o.state.handIndex.value].confidence > ConfidenceThreshold
  {
    if n == 0 then
      Outcome(s0, [])
    else
      var before := Loop(s0, hands, n - 1);
      var step := ProcessHand(before.state, hands[n - 1], n - 1);
      Outcome(step.state, before.trail + step.trail)
  }

  /** A whole frame: the loop (only entered when there are hands), then the
    * release rule, which clears the drag record when there are no hands or
    * when no hand, of any confidence, has a tip inside the circle at its
    * end-of-frame position. */
  function Frame(s0: DragState, hands: seq<Hand>): (o: Outcome)
    requires AllWellFormed(hands)
    ensures Consistent(s0) ==> Consistent(o.state)
    ensures |hands| == 0 ==> o == Outcome(Cleared(s0), [])
    ensures o.state.isDragging ==> |hands| > 0 && AnyTouching(hands, o.state.circle)
    ensures s0.isDragging && o.state.isDragging ==>
              o.state.handIndex == s0.handIndex && o.state.finger == s0.finger
  {
    var looped := if |hands| > 0 then Loop(s0, hands, |hands|) else Outcome(s0, []);
    var last := looped.state;
    if |hands| == 0 || !AnyTouching(hands, last.circle) then
      Outcome(Cleared(last), looped.trail)
    else
      looped
  }
}
