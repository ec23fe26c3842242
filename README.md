# Hand-gesture LED control: a Dafny model of the per-frame decision logic

The program watches a camera, lets a hand-landmark detector find one hand,
reads four finger states (thumb, index, middle, ring) from the landmarks, and
sends them as a GET request `http://10.1.47.20/?t=a&i=b&m=c&r=d` to an LED
controller. It keeps going until a frame cannot be read, no hand has been
seen for more than 10 seconds, or the escape key is pressed.

This project models the decision logic of `4_leds.py` in three modules:

- `Gestures` (`gestures.dfy`): the classifier. `FingerUp` and `ThumbUp` are the
  two comparisons. `ClassifyHand` gives the vector of one hand. `Overwrite` is
  one pass of the per-hand loop. `Classified` is that loop run over all the
  hands of a frame. Landmark coordinates are reals, because the code only
  compares them strictly.
- `Notifier` (`notifier.dfy`): the request address built from the vector
  (`QueryUrl`) and its inverse (`ParseQuery`). `SendLedStates` is the
  notification whose network failure is only logged.
- `ControlLoop` (`control_loop.dfy`): one iteration of the `while True` loop.
  `StepSpec` is the specification function. `Step` is the imperative loop body
  over a four-entry array. `Run` and `RunLoop` run the loop over a finite
  sequence of iteration inputs until the first stop. The time of the last
  gesture is the only state carried between iterations (`LoopState`).
  Everything else an iteration depends on comes in as a `FrameInput`: whether
  the read succeeded, the detector's landmark sets and labels, the two clock
  readings, what the network returned, and the key code.

`wrappers.dfy` holds the `Option` type.

Three behaviours of the code are easy to misread; the model keeps them as
the code has them:

- The idle timeout is tested before the escape key (lines 109-119), so an
  iteration that times out while the key is pressed ends as a timeout.
- Only the exact label `"Right"` selects "thumb up iff tip.x < ip.x". Every
  other label, not only `"Left"`, selects "tip.x > ip.x". The comment at
  `4_leds.py:43-44` states the opposite table; the code is modelled.
- The comment at line 104 says the states are sent "when hand is detected",
  but the test at line 105 only asks for landmarks. Landmarks without
  handedness are sent as the all-down vector and do not refresh the gesture
  time, so an iteration can send a notification and then stop on the idle
  timeout.

## Model

| member | source | states |
|---|---|---|
| Gestures.FingerUp | 4_leds.py:34-36 | a finger is up only when its tip's y is strictly below its PIP joint's y; equal y is down |
| Gestures.ThumbUp | 4_leds.py:38-48 | label exactly "Right": up iff tip.x < ip.x (landmarks 4 and 3); any other label: up iff tip.x > ip.x; equal x is down for every label |
| Gestures.ClassifyHand | 4_leds.py:86-95 | the vector is (thumb, index, middle, ring) with entry 1 exactly when the thumb test holds, or landmark 8/12/16 lies strictly above 6/10/14 |
| Gestures.Overwrite | 4_leds.py:86-95 | one pass of the per-hand loop assigns all four entries, so the result is the hand's own vector whatever the previous vector was |
| Gestures.Classified | 4_leds.py:76-95 | the per-hand loop over the zipped hands: with no hands the vector stays as it started; with several, the last hand alone decides it |
| Gestures.MirroredHandSameStates | 4_leds.py:38-48 | a "Left"/"Right" hand and its horizontal mirror image with the swapped label give the same vector |
| Gestures.UnknownLabelBreaksMirror | 4_leds.py:45-48 | for a label other than "Left"/"Right" the mirror image flips the thumb entry, because such labels fall into the left-hand branch |
| Gestures.TranslatedHandSameStates | 4_leds.py:34-48 | moving a hand within the frame does not change its vector |
| Gestures.CollapsedHandAllDown | 4_leds.py:34-48 | ties read as down: a hand whose landmarks coincide is all zeros for any label |
| Notifier.QueryUrl | 4_leds.py:26 | the address is the base address followed by exactly 17 query characters |
| Notifier.ParseQueryUrl | 4_leds.py:26 | reading the address back yields the vector: parameters t, i, m, r in this order, each printed as 0 or 1 |
| Notifier.ParsedQueryIsUrl | 4_leds.py:26 | the only addresses that read back as a vector are the ones built for it |
| Notifier.QueryUrlInjective | 4_leds.py:26 | two vectors give the same address exactly when they are equal |
| Notifier.SendLedStates | 4_leds.py:20-32 | sending always returns to the caller with a notice for the vector's address, whatever the network replied, the failure included |
| ControlLoop.LowByte | 4_leds.py:117 | the key mask is the low byte: it lies in 0..255 and differs from the key by a multiple of 256 (so 0x10001B, escape with modifier flags, gives 27); codes 0..255 are kept and -1 (no key) gives 255 |
| ControlLoop.Zip | 4_leds.py:76 | landmark sets and labels are paired index by index up to the shorter list |
| ControlLoop.HandsOf | 4_leds.py:75-76 | hands are processed exactly when both detector lists are non-empty, and every processed hand is classifiable |
| ControlLoop.StepSpec | 4_leds.py:59-119 | one iteration: a vector is computed exactly when the iteration does not stop on a read failure, a notification only for a computed vector, and the next state is the gesture-time update |
| ControlLoop.Step | 4_leds.py:59-119 | the loop body, with the vector as a four-entry array reset to zeros and overwritten per hand, computes the iteration StepSpec describes |
| ControlLoop.StepReadFailureFirst | 4_leds.py:60-63 | a failed read stops the loop with no vector, no notification and the gesture time unchanged; it is the only way to stop with CameraReadFailed |
| ControlLoop.StepLastHandWins | 4_leds.py:73-95 | the vector is all down unless both detector lists are non-empty; then it is the vector of the last zipped hand |
| ControlLoop.StepNotifiesIffLandmarks | 4_leds.py:104-106 | a notification is made exactly when the read succeeded and landmarks were reported (handedness not required), carrying this iteration's vector |
| ControlLoop.StepGestureTime | 4_leds.py:75-102 | the gesture time becomes the clock reading exactly when a labelled hand was processed; otherwise it keeps its value |
| ControlLoop.StepStopOrder | 4_leds.py:108-119 | the loop stops on idle timeout iff (now - gesture time) > 10, strictly, tested after the send; on escape iff no timeout and key & 0xFF == 27; otherwise it goes on |
| ControlLoop.NetworkFailureSwallowed | 4_leds.py:25-32 | two iterations that differ only in the network reply agree on vector, next state, stop and address |
| ControlLoop.UnlabelledLandmarksSendAllDown | 4_leds.py:73-106 | landmarks without handedness send the all-down vector and leave the gesture time alone |
| ControlLoop.HandSeenKeepsRunning | 4_leds.py:101-111 | after a processed hand the idle timeout cannot fire unless the two clock readings are more than 10 s apart; only escape can stop it |
| ControlLoop.Run | 4_leds.py:59-119 | a run never goes past its inputs, ends before them only on a stop, runs all of them when nothing stops it, and sends at most one notification per iteration |
| ControlLoop.RunStopsAtFirstStop | 4_leds.py:59-119 | the run ends at the first iteration whose step stops, with that step's reason: every earlier iteration went on, and when the inputs ran out no iteration stopped |
| ControlLoop.FrameNotice | 4_leds.py:104-106 | an iteration's inputs give one notification exactly when the frame was read and landmarks were reported, and it reads back as the vector of that frame's hands |
| ControlLoop.RunNotices | 4_leds.py:59-119 | the notifications of a run are, in order, exactly those of the iterations it ran that reported landmarks, each with its own iteration's vector and reply, and none for the others |
| ControlLoop.RunNoticeCount | 4_leds.py:104-106 | a run sends exactly one notification per iteration it ran whose frame was read and reported landmarks |
| ControlLoop.GestureTimeNeverDecreases | 4_leds.py:18-102 | with a clock that does not run backwards, the gesture time never decreases from one iteration to the next and never runs ahead of the latest detection reading |
| ControlLoop.RunLoop | 4_leds.py:59-119 | the `while True` loop with `break` on each stop produces exactly the run Run describes |
| ControlLoop.IdleRunStops | 4_leds.py:104-111 | if no landmarks are reported up to some iteration whose clock is more than 10 s past the gesture time, the loop has stopped by that iteration with no notification, whatever the later inputs are |
| ControlLoop.RunIgnoresReplies | 4_leds.py:25-32 | runs that differ only in network replies stop at the same iteration for the same reason and send to the same addresses |

## Left out

- Camera: opening, reading, mirroring and colour conversion are device I/O. Only whether a read succeeded is modelled.
- The start-up failure to open the camera (lines 13-16) happens before the loop and is not modelled.
- The landmark detector is an external model. Its result is an input: the landmark sets and the first handedness label of each hand.
- The detector's confidence thresholds and its one-hand limit belong to the detector. The model accepts any number of hands.
- Drawing, the text overlay, the window and key polling are UI. The key code is an input.
- The GET request and its 5-second timeout are network I/O. Only the address and the swallowed reply are modelled.
- Printed messages are not modelled.
- The wall clock is an input. The model takes one reading for the gesture time and one for the idle test. The code reads the clock once per processed hand, and only the last of those readings survives, so the model takes that one.
- Coordinates are reals rather than floating-point numbers. The code only compares them.
- Exceptions other than request exceptions are not modelled. A landmark set too short to index (the detector always gives 21 points) is excluded by the `Readable` requirement instead.
- Releasing the camera and closing the window after the loop is cleanup and is not modelled.
