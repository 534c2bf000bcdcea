# Drag controller of the hand-pose circle sketch

The sketch shows webcam video, receives the hands found by a hand-landmark
detector, and lets the user drag a red circle of radius 50 with a
fingertip. This project models the sketch's drag controller: the globals
that hold the circle centre and the drag record (`isDragging`,
`draggingHandIndex`, `draggingFinger`, `previousFingerPosition`), and the
part of `draw()` that changes them once per frame. In each frame the loop
walks the detected hands in array order. A confident hand (confidence above
0.1) may start a drag. The index tip is tested first, then the thumb tip,
and a drag only starts when none is active. The dragging hand then moves the
circle onto its fingertip and draws a trail segment: red for the index
finger, blue for the thumb. At the end of the frame a release rule clears
the whole drag record when there are no hands. It also clears it when no
hand, whatever its confidence, has its index or thumb tip strictly inside
the circle where the circle now is.

While the dragging hand is present and confident, the circle jumps to its
fingertip wherever that tip is, however far it moved since the last frame.
The tip then sits at distance 0 from the new centre, so the release rule
cannot end that drag (`DraggingHandCarriesCircle`). The release rule only
matters once the dragging hand leaves the list or its confidence drops to
0.1 or below (`GlobalReleaseRule`).

Files:

- `HandPose.dfy`: the detector's hand observations (`Point`, `Hand`, the keypoint numbers 4 and 8).
- `DragFrame.dfy`: one frame written as functions that follow `draw()` statement by statement. `ProcessHand` is one loop iteration, `Loop` is the loop over the first n hands, and `Frame` is the loop plus the release rule. It also holds the drag-record invariant `Consistent`.
- `DragReference.dfy`: `ReferenceFrame`, a case-by-case description of a frame written without the loop. `FrameMatchesReference` proves that `Frame` agrees with it on every consistent state and every hand list.
- `DragProperties.dfy`: the controller's promises, proved of `Frame`.
- `Sketch.dfy`: the class `DragController`, whose fields are the sketch's globals. Its `Step` method runs the frame in place with a `while` loop. The loop invariant ties the fields to `Loop`, and `Step`'s postcondition ties the new fields to `Frame`.

Modelling choices:

- `dist(p, c) < circleRadius` is written as a comparison of squared distances over `real` (`InCircle`). The two agree because the radius is positive.
- `draggingHandIndex` is the hand's position in this frame's list. It does not identify a hand across frames: if the detector reorders its hands, the drag follows whichever hand is now at that position. The model keeps this behaviour.
- `draggingFinger === 8 ? indexFinger : thumb` and the `if (previousFingerPosition)` guard are kept as written. `Tip`, `TrailColour` and `Follow` branch on the optional values exactly as the code does.
- Later hands in the same frame test against the circle as earlier hands left it. The release test uses the circle's centre after this frame's move.
- The order of the hands matters: the first confident hand in the list that touches the circle picks it up (`DragStartsAtFirstConfidentTouch`). The circle tracks the dragging hand only while that hand's confidence is above 0.1. Otherwise the circle stays put and only the release rule applies (`GlobalReleaseRule`).

## Model

| member | source | states |
|---|---|---|
| DragFrame.Initial | sketch.js:33-34 | The initial state satisfies the drag-record invariant and has no drag. The circle sits at the centre of the 640 x 480 canvas. |
| DragFrame.ProcessHand | sketch.js:53-133 | One hand's iteration keeps the invariant. An active drag keeps its hand and finger. A drag that starts is recorded on this hand, which is confident. The circle moves only when this hand is the dragging one and is confident. A hand with confidence of at most 0.1 changes nothing. |
| DragFrame.Loop | sketch.js:50-135 | Over the first n hands the invariant is kept, and an active drag keeps its hand and finger (mutual exclusion). A drag started in the loop, or a moved circle, belongs to a confident hand among the first n. |
| DragFrame.Frame | sketch.js:49-150 | A frame keeps the invariant. With zero hands the circle stays and the drag record ends fully cleared. A drag survives only if some hand touches the end-of-frame circle. A surviving drag keeps its hand and finger. |
| DragReference.FirstToucher | sketch.js:50-113 | Returns the first hand among the first n that is confident and has a tip inside the circle, or reports that none has. |
| DragReference.LoopIdle | sketch.js:96-113 | Without a drag, and with no confident hand touching, the loop leaves the state unchanged and draws nothing. |
| DragReference.LoopStart | sketch.js:96-133 | Without a drag, the first confident touching hand k starts it. It uses the index tip if that tip is inside, else the thumb. The circle and the previous position move to that tip, and one zero-length segment is drawn. Later hands change nothing. |
| DragReference.LoopFollow | sketch.js:116-133 | During a drag, the loop moves the circle and the previous position onto the recorded tip of hand `draggingHandIndex` and draws one segment from the old position, if that hand is present and confident. Otherwise it changes nothing. |
| DragReference.FrameMatchesReference | sketch.js:49-150 | The statement-by-statement frame equals the case-by-case reference description, for every consistent state and hand list. |
| DragProperties.DragStartsAtFirstConfidentTouch | sketch.js:96-113 | A drag that starts in a frame has a hand index below the frame's hand count and finger 4 or 8. Its hand is the first confident hand touching the start-of-frame circle. The circle and the previous position end on that tip. |
| DragProperties.IndexFingerHasPriority | sketch.js:96-113 | For a drag started by hand k, the finger is the index finger exactly when k's index tip was inside the circle. In particular, when both tips were inside, it is the index finger. |
| DragProperties.LowConfidenceHandsAreInert | sketch.js:53 | If no hand has confidence above 0.1, the circle does not move and nothing is drawn. From an idle state the frame changes nothing at all. |
| DragProperties.MovementNeedsDraggingHand | sketch.js:116-129 | If the circle moved, a drag is active and its hand is present and confident. The circle and the previous position sit on that hand's recorded fingertip. |
| DragProperties.DraggingHandCarriesCircle | sketch.js:116-150 | While the dragging hand is present and confident, the circle and the previous position become its tip. One segment in the finger's colour runs from the old position, and the drag survives the release rule. |
| DragProperties.TrailFollowsFinger | sketch.js:116-125 | A frame draws at most one segment. It ends on the new circle centre. It is red (255,0,0) for finger 8 and blue (0,0,255) otherwise. It starts at the previous fingertip position, and it has zero length on the frame that starts the drag. |
| DragProperties.GlobalReleaseRule | sketch.js:139-150 | If the dragging hand is absent or not confident, the circle stays and nothing is drawn. The drag is kept exactly when some hand of any confidence still touches the circle. Otherwise the drag record is cleared. |
| DragProperties.ReleaseRule | sketch.js:139-150 | After a frame a drag is active exactly when (a drag was active, or a confident hand touched the start-of-frame circle) and some hand touches the end-of-frame circle. |
| DragProperties.RepeatedFrameIsStable | sketch.js:40-150 | Rendering the same hand list twice leaves the state unchanged and draws only zero-length segments. This matters because detection and rendering run at different rates. |
| Sketch.DragController.constructor | sketch.js:7-34 | The fields start in the initial state: the null drag record of the globals and the circle at the canvas centre that `setup()` sets; the invariant holds. |
| Sketch.DragController.Step | sketch.js:49-150 | The in-place frame keeps the invariant. The new fields equal `Frame` of the old ones, and the returned trail equals `Frame`'s trail. The loop invariant ties the fields to `Loop` after each hand. |

## Left out

- Video capture, the hand-pose model and its asynchronous `gotHands` callback are external and are not modelled. Each call of `Step` receives the hand list as a parameter: the last one the detector delivered.
- The `mousePressed` debug handler, which only logs the hand list, is not modelled.
- Drawing is not modelled: the video image, the circle, the keypoint dots coloured by handedness, and the skeleton lines for keypoints 5-8 and 9-12. Trail segments are returned from `Step` as data instead of being stroked.
- `dist` is a square root over double-precision floats. The model compares squared distances over exact reals, so rounding at the very edge of the circle is not modelled.
- Every hand must have at least 9 keypoints (`WellFormed`), because the drag logic and the release rule read keypoints 4 and 8 of every hand. The detector always delivers 21. The drawing loops read keypoints up to 12, but drawing is not modelled, so no stronger demand is made.
- Handedness is carried in `Hand` but affects only the colour of the keypoint dots, which are not modelled.
