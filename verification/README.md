# GestureFlow core in Dafny

GestureFlow is a browser carousel of eight photos that the user turns by swiping a hand in
front of the camera. This project models its two pieces of state logic as pure functions over
immutable states and proves their properties:

- the **swipe classifier** (`detectGesture` in the hand controller): a debounced step function
  over one palm x coordinate per detected hand, with a hard cooldown of 800 ms since the last
  emitted gesture and a strict movement threshold of 0.05;
- the **carousel controller** (the application component): the item list, the selected index
  and the accumulated ring rotation, moved in lockstep by the arrows and by swipes, plus the
  edit dialog and the image upload that patch only the selected item; and the carousel's
  per-item layout (angle `360/n * i`, exactly one item highlighted).

Modules follow the source files: `Types` (types.ts), `Constants` (constants.ts),
`HandController` (the classifier), `Carousel` (the layout), `App` (the controller, the edit and
upload paths, and the wiring of classifier to controller), `Strings` (JavaScript's `split`
on one character, used to derive an upload's title), `Wrappers` (`Option`).

Each React state setter is read as one transition of an immutable `AppState`; the refs of the
hand controller become a `ClassifierState` threaded through `Observe`. Timestamps are `int`
milliseconds passed in as parameters; coordinates and angles are exact `real`s.

Main results:

- any two gestures the classifier emits from one stream of samples are at least 800 ms apart,
  whatever the order of the timestamps (`HandController.GesturesSpaced`, `SpacedApart`,
  `SpacedRate`);
- after any sequence of moves the index has advanced by the net move count modulo `n` and the
  rotation has gone back by that many steps of `360/n` (`App.NavigateNet`, with
  `App.StepsIsProduct` turning the accumulated steps into a product, and `App.NavigateFromInit`);
- in every state reachable from start-up by any mix of arrows, swipes, edits and uploads, the
  eight ids are those of start-up (hence distinct rendering keys) and the selected item's angle
  plus the ring rotation is a whole number of turns: the selected item faces the viewer
  (`App.Reachable`).

Behaviour as coded, which a reader might expect otherwise:

- the gesture clock starts at 0, not "no gesture yet"; with real wall-clock times this never
  suppresses anything, but fed the small timestamps 0, 100, 200, 900 the classifier suppresses
  the first 800 ms and emits only at 900 (`HandController.SmallTimestampScenario`); from any
  start time of at least 800 it emits at the second and fourth samples
  (`HandController.WallClockScenario`);
- the last observed x is never cleared when the hand is lost, so a swipe can be computed across
  a tracking gap of any length; `Observe` keeps that behaviour;
- `detectGesture` is called at most once per detection result, since the detector is configured
  for one hand; the frame loop is left out, and `HandController.Run` accepts any stream of
  samples, so repeated calls on the same frame (as when two frame loops run after a camera
  switch) are covered by its results.

The action fold (`App.Apply`, `App.Run`) admits every action in every state, including those
the interface hides: the arrows, upload and edit buttons are hidden while the edit dialog is
open or the controls are toggled off (App.tsx:169), and the dialog's fields, save and cancel
exist only while it is open (App.tsx:120). The invariants proved over
this larger set of action sequences therefore hold for the ones the interface allows.

## Model

| member | source | states |
|---|---|---|
| `Constants.PhotoItemsShape` | constants.ts:3-12 | the initial content has 8 entries with ids 1..8 in order, so the ids are distinct |
| `Constants.ThresholdsPositive` | constants.ts:15-16 | the swipe threshold and the cooldown are positive, so the no-swipe band is symmetric and non-empty |
| `HandController.Observe` | components/HandController.tsx:170-187 | the sample is always remembered; a gesture is emitted iff the cooldown is over, an earlier x exists and the palm moved strictly more than the threshold; right iff it moved right, left iff it moved left; the gesture clock becomes `now` exactly on emission |
| `HandController.DetectGesture` | components/HandController.tsx:166-187 | one call on a detected hand remembers the palm landmark's x and emits only swipes, stamping the clock |
| `HandController.OnlyPalmXRead` | components/HandController.tsx:166-167 | two hands agreeing on landmark 9's x are classified identically, whatever else differs |
| `HandController.CooldownSuppresses` | components/HandController.tsx:170-173 | inside the cooldown nothing is emitted, the clock is kept and x is remembered |
| `HandController.CooldownBoundary` | components/HandController.tsx:170 | the cooldown test is strict: at exactly 800 ms elapsed a large movement fires |
| `HandController.FirstSampleSilent` | components/HandController.tsx:175 | from the initial refs the first sample emits nothing, whatever its x |
| `HandController.ThresholdBoundary` | components/HandController.tsx:176-185 | a movement of exactly plus or minus the threshold emits nothing and keeps the clock |
| `HandController.NoDoubleFire` | components/HandController.tsx:170-183 | two samples at the same instant never both emit |
| `HandController.Run` | components/HandController.tsx:166-187 | feeding a stream emits at most one swipe per sample, each event a full cooldown after the previous one (the first after the initial clock); the clock ends at the last event; the last x is remembered |
| `HandController.SpacedApart` | components/HandController.tsx:170-183 | in a cooldown-spaced event list, events i < j are at least (j - i) cooldowns apart |
| `HandController.SpacedRate` | components/HandController.tsx:170-183 | the k-th event comes at least k cooldowns after the initial clock, bounding the gesture rate |
| `HandController.GesturesSpaced` | components/HandController.tsx:170-183 | any two gestures emitted from one stream are at least 800 ms apart, with no assumption on timestamp order |
| `HandController.SmallTimestampScenario` | components/HandController.tsx:20-21 | with the initial clock at 0, samples at 0, 100, 200, 900 ms emit only one right swipe, at 900 |
| `HandController.WallClockScenario` | components/HandController.tsx:168-187 | with wall-clock times the same movements emit right swipes at the second and fourth samples |
| `Carousel.StepAngle` | components/Carousel.tsx:79 | the step angle is positive and n steps make exactly one turn |
| `Carousel.Layout` | components/Carousel.tsx:95-107 | one placement per item, in input order, item i at angle step times i, highlighted iff i is the selected index |
| `Carousel.ExactlyOneSelected` | components/Carousel.tsx:97 | exactly the selected position is highlighted when the index is in range, none otherwise |
| `Carousel.AngleInTurn` | components/Carousel.tsx:96 | every item's angle lies in [0, 360) |
| `Carousel.AngleIncreasing` | components/Carousel.tsx:96 | a later item has a strictly larger angle |
| `Carousel.AnglesWithinOneTurn` | components/Carousel.tsx:95-96 | the angles lie in [0, 360) and increase strictly, hence are pairwise distinct |
| `Strings.Split` | App.tsx:55 | splitting yields at least one piece and no piece contains the separator |
| `Strings.JoinSplit` | App.tsx:55 | joining the pieces of a split with the separator gives back the input |
| `Strings.PrefixBefore` | App.tsx:55 | the result is a prefix without the separator, ending at the input's end or at its first separator |
| `Strings.SplitHead` | App.tsx:55 | the first piece of a split is the prefix before the first separator |
| `App.Init` | App.tsx:9-11 | the controller starts valid with 8 items, so a step of 45 degrees, at index 0, rotation 0, not editing |
| `App.RotateNext` | App.tsx:23-26 | the index moves to the next item, wrapping from the last to 0, the rotation drops by one step, nothing else changes |
| `App.RotatePrev` | App.tsx:28-31 | the index moves to the previous item, wrapping from 0 to the last, the rotation grows by one step, nothing else changes |
| `App.NextPrevInverse` | App.tsx:23-31 | next then previous, and previous then next, are the identity |
| `App.HandleGesture` | App.tsx:33-40 | while editing, and for non-swipes, nothing changes; a left swipe advances, a right swipe goes back |
| `App.UploadTitle` | App.tsx:55 | an upload's title is the file name before its first dot, or "Custom Image" when that is empty; never empty, never contains a dot |
| `App.FileChange` | App.tsx:46-60 | without a file nothing changes; with one only the selected item changes, getting the new url, the derived title and theme "User Upload" while keeping its id and kind; the ids, length, index and rotation are kept |
| `App.StartEditing` | App.tsx:65-70 | opens the dialog with the selected item's title and theme in the buffers, changing nothing else |
| `App.SaveEdit` | App.tsx:72-83 | only the selected item's title and theme change, to the buffers; its id, url and kind, every other item, the length, index and rotation are kept and the dialog closes |
| `App.EditRoundTrip` | App.tsx:65-83 | opening the dialog and saving it untouched leaves every item as it was |
| `App.MoveBy` | App.tsx:23-31 | one press of an arrow (or one routed swipe) is `rotateNext` or `rotatePrev`; its own contract only keeps the state valid, `App.MoveByStep` carries the content |
| `App.Navigate` | App.tsx:23-31 | any sequence of `rotateNext`/`rotatePrev` calls; its own contract only keeps the state valid, `App.NavigateNet` carries the content |
| `App.MoveByStep` | App.tsx:23-31 | one move shifts the index by plus or minus one modulo n and keeps the items |
| `App.StepsShift` | App.tsx:25 | one more net move forward or back adds or removes exactly one step angle from the accumulated turn |
| `App.StepsIsProduct` | App.tsx:21 | k accumulated steps of the step angle equal k times the step angle, for negative k too |
| `App.NavigateNet` | App.tsx:21-31 | after any moves the index is the start index plus the net count, modulo n, and the rotation has gone back by net-count steps of 360/n |
| `App.NavigateNetProduct` | App.tsx:21-31 | from any start, after any moves the rotation equals the start rotation minus the net count times 360/n |
| `App.NavigateIndex` | App.tsx:23-31 | after any moves the index is the start index plus the net count, modulo n, and the items are unchanged |
| `App.NavigateRotation` | App.tsx:23-31 | after any moves the rotation has gone back by net-count steps of 360/n and the items are unchanged |
| `App.NavigateKeepsEditor` | App.tsx:23-31 | moves touch only the index and the rotation |
| `App.ForwardBackRoundTrip` | App.tsx:23-31 | N moves forward then N back restore the whole state |
| `App.NavigateFromInit` | App.tsx:9-31 | from start-up, net count k selects item k mod 8 with the ring at -45k degrees |
| `App.InitFacesFront` | App.tsx:10-11 | at start-up the selected item faces the viewer |
| `App.NextFacesFront` | App.tsx:23-26 | advancing keeps the selected item's angle plus the rotation a whole number of turns |
| `App.PrevFacesFront` | App.tsx:28-31 | going back keeps the selected item's angle plus the rotation a whole number of turns |
| `App.Apply` | App.tsx:23-83 | every user action keeps the state valid, the length and the ids; actions other than moves and swipes keep index and rotation |
| `App.Run` | App.tsx:23-83 | any sequence of actions keeps the state valid, the length and the ids |
| `App.ApplyFacesFront` | App.tsx:23-83 | every user action keeps the selected item facing the viewer |
| `App.RunInvariant` | App.tsx:23-83 | any sequence of actions keeps the selected item facing the viewer |
| `App.Reachable` | App.tsx:9-83 | every reachable state has 8 items with the start-up ids, distinct, and the selected item facing the viewer |
| `App.SwipeScenario` | App.tsx:33-40 | three left swipes from start-up give index 3 at -135 degrees, a right swipe then gives index 2 at -90 |
| `App.Dispatch` | App.tsx:33-40 | handing any gestures to the controller keeps it valid and the items unchanged |
| `App.Track` | App.tsx:99 | the classifier wired to the controller ends in the classifier's own final state and keeps the items |
| `App.TrackDispatchesEvents` | App.tsx:99 | the controller receives exactly the classifier's emitted gestures, in order |
| `App.TrackFacesFront` | App.tsx:99 | hand tracking alone never turns the ring away from the selected item |

## Left out

- The hand detector, model loading, camera enumeration and stream set-up, and the per-frame
  animation loop (components/HandController.tsx:26-164): foreign calls and I/O. Each detected hand
  becomes one `Observe` call with the time passed in.
- The reset of the classifier's refs when the hand controller is unmounted while the edit dialog
  is open and mounted again after it (App.tsx:99): mounting is a React lifecycle event; a remount
  is the same as starting again from `HandController.Initial`.
- `HandController.DetectGesture`: requires a hand of at least ten landmarks; on a shorter list the
  source would fail reading landmark 9, which the detector, returning fixed-length hands, never
  produces.
- `Date.now()` and `URL.createObjectURL`: the time and the object URL are parameters.
- JavaScript floating point: coordinates and angles are exact reals, timestamps unbounded integers.
- `App.RotateNext`: requires the index to be in range; JavaScript's `%` truncates toward zero
  while Dafny's is Euclidean, and the two agree on the non-negative operands that in-range
  indices give.
- Rendering: CSS 3-D transforms, radius, perspective and tilt, the controls toggle, the modal
  markup, the reset of the file input, and video play and pause in the item component.
- The description panel and the description service: an asynchronous network call with no
  state logic.
- The missing `type` field of the initial items and the missing carousel props are type errors
  the program runs with; the initial items are modelled as images, which is how they render.
