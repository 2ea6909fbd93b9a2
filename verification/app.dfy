/** The carousel controller held by the application component (App.tsx): the item list, the
    selected index, the accumulated rotation, and the edit buffers. Each React state setter is
    read as one transition of an immutable state. */
module App {
  import opened Wrappers
  import opened Types
  import opened Constants
  import opened Carousel
  import opened Strings
  import HandController

  /** The application state behind the carousel and the edit dialog. */
  datatype AppState = AppState(
    items: seq<PhotoItem>,
    selectedIndex: int,
    rotation: real,
    isEditing: bool,
    editTitle: string,
    editTheme: string)

  /** A file chosen in the upload dialog: its name and the object URL created for it. */
  datatype UploadedFile = UploadedFile(name: string, objectUrl: string)

  /** The states the controller can be in: a non-empty list and an index into it. */
  predicate Valid(s: AppState) {
    |s.items| >= 1 && 0 <= s.selectedIndex < |s.items|
  }

  /** The state when the application mounts. */
  function Init(): (s: AppState)
    ensures Valid(s) && |s.items| == 8 && StepAngle(|s.items|) == 45.0
    ensures s.selectedIndex == 0 && s.rotation == 0.0 && !s.isEditing
  {
    AppState(PhotoItems(), 0, 0.0, false, "", "")
  }

  /** Advances to the next item and turns the ring back by one step. */
  function RotateNext(s: AppState): (r: AppState)
    requires Valid(s)
    ensures Valid(r)
    ensures r.selectedIndex == if s.selectedIndex == |s.items| - 1 then 0 else s.selectedIndex + 1
    ensures r.rotation + StepAngle(|s.items|) == s.rotation
    ensures r.(selectedIndex := s.selectedIndex, rotation := s.rotation) == s
  {
    ModUnique(s.selectedIndex + 1, |s.items|, if s.selectedIndex + 1 == |s.items| then 1 else 0,
      if s.selectedIndex + 1 == |s.items| then 0 else s.selectedIndex + 1);
    s.(selectedIndex := (s.selectedIndex + 1) % |s.items|, rotation := s.rotation - StepAngle(|s.items|))
  }

  /** Goes back to the previous item and turns the ring forward by one step. */
  function RotatePrev(s: AppState): (r: AppState)
    requires Valid(s)
    ensures Valid(r)
    ensures r.selectedIndex == if s.selectedIndex == 0 then |s.items| - 1 else s.selectedIndex - 1
    ensures r.rotation == s.rotation + StepAngle(|s.items|)
    ensures r.(selectedIndex := s.selectedIndex, rotation := s.rotation) == s
  {
    ModUnique(s.selectedIndex - 1 + |s.items|, |s.items|, if s.selectedIndex == 0 then 0 else 1,
      if s.selectedIndex == 0 then |s.items| - 1 else s.selectedIndex - 1);
    s.(selectedIndex := (s.selectedIndex - 1 + |s.items|) % |s.items|, rotation := s.rotation + StepAngle(|s.items|))
  }

  /** Each move undoes the other. */
  lemma NextPrevInverse(s: AppState)
    requires Valid(s)
    ensures RotatePrev(RotateNext(s)) == s
    ensures RotateNext(RotatePrev(s)) == s
  {
  }

  /** Routes a gesture: a left swipe advances, a right swipe goes back, anything else and any
      gesture during editing leaves the state alone. */
  function HandleGesture(s: AppState, g: GestureType): (r: AppState)
    requires Valid(s)
    ensures Valid(r)
    ensures s.isEditing || !g.IsSwipe() ==> r == s
    ensures !s.isEditing && g == SwipeLeft ==> r == RotateNext(s)
    ensures !s.isEditing && g == SwipeRight ==> r == RotatePrev(s)
  {
    if s.isEditing then s
    else if g == SwipeLeft then RotateNext(s)
    else if g == SwipeRight then RotatePrev(s)
    else s
  }

  /** The title given to an uploaded file: its name up to the first dot, or "Custom Image"
      when that part is empty. */
  function UploadTitle(name: string): (title: string)
    ensures title != ""
    ensures '.' !in title
    ensures title == if PrefixBefore(name, '.') == "" then "Custom Image" else PrefixBefore(name, '.')
  {
    SplitHead(name, '.');
    var head := Split(name, '.')[0];
    if head == "" then "Custom Image" else head
  }

  /** Replaces the selected item's media with an uploaded file; without a file nothing changes. */
  function FileChange(s: AppState, file: Option<UploadedFile>): (r: AppState)
    requires Valid(s)
    ensures Valid(r)
    ensures file.None? ==> r == s
    ensures |r.items| == |s.items| && Ids(r.items) == Ids(s.items)
    ensures r.(items := s.items) == s
    ensures forall j :: 0 <= j < |s.items| && j != s.selectedIndex ==> r.items[j] == s.items[j]
    ensures file.Some? ==>
      r.items[s.selectedIndex] == PhotoItem(s.items[s.selectedIndex].id, file.value.objectUrl,
        UploadTitle(file.value.name), "User Upload", s.items[s.selectedIndex].kind)
  {
    match file
    case None => s
    case Some(f) =>
      var current := s.items[s.selectedIndex];
      var patched := current.(url := f.objectUrl, title := UploadTitle(f.name), theme := "User Upload");
      s.(items := s.items[s.selectedIndex := patched])
  }

  /** Opens the edit dialog with the selected item's title and theme in the buffers. */
  function StartEditing(s: AppState): (r: AppState)
    requires Valid(s)
    ensures Valid(r) && r.isEditing
    ensures r.editTitle == s.items[s.selectedIndex].title && r.editTheme == s.items[s.selectedIndex].theme
    ensures r.(isEditing := s.isEditing, editTitle := s.editTitle, editTheme := s.editTheme) == s
  {
    var current := s.items[s.selectedIndex];
    s.(editTitle := current.title, editTheme := current.theme, isEditing := true)
  }

  /** Writes the edit buffers into the selected item and closes the dialog. */
  function SaveEdit(s: AppState): (r: AppState)
    requires Valid(s)
    ensures Valid(r) && !r.isEditing
    ensures |r.items| == |s.items| && Ids(r.items) == Ids(s.items)
    ensures r.selectedIndex == s.selectedIndex && r.rotation == s.rotation
    ensures r.editTitle == s.editTitle && r.editTheme == s.editTheme
    ensures forall j :: 0 <= j < |s.items| && j != s.selectedIndex ==> r.items[j] == s.items[j]
    ensures r.items[s.selectedIndex].title == s.editTitle && r.items[s.selectedIndex].theme == s.editTheme
    ensures r.items[s.selectedIndex].id == s.items[s.selectedIndex].id
    ensures r.items[s.selectedIndex].url == s.items[s.selectedIndex].url
    ensures r.items[s.selectedIndex].kind == s.items[s.selectedIndex].kind
  {
    var patched := s.items[s.selectedIndex].(title := s.editTitle, theme := s.editTheme);
    s.(items := s.items[s.selectedIndex := patched], isEditing := false)
  }

  /** Opening the dialog and saving it untouched leaves every item as it was. */
  lemma EditRoundTrip(s: AppState)
    requires Valid(s)
    ensures SaveEdit(StartEditing(s)).items == s.items
    ensures SaveEdit(StartEditing(s)).(isEditing := s.isEditing, editTitle := s.editTitle, editTheme := s.editTheme) == s
  {
  }

  /** A manual or gesture-driven step around the ring. */
  datatype Move = Forward | Back

  function MoveBy(s: AppState, m: Move): (r: AppState)
    requires Valid(s)
    ensures Valid(r)
  {
    if m == Forward then RotateNext(s) else RotatePrev(s)
  }

  /** Applies `moves` in order. */
  function Navigate(s: AppState, moves: seq<Move>): (r: AppState)
    requires Valid(s)
    ensures Valid(r)
    decreases |moves|
  {
    if |moves| == 0 then s else Navigate(MoveBy(s, moves[0]), moves[1..])
  }

  /** Division with remainder has a unique answer. */
  lemma ModUnique(a: int, n: int, q: int, r: int)
    requires n >= 1 && 0 <= r < n && a == q * n + r
    ensures a % n == r
  {
    var q', r' := a / n, a % n;
    assert a == q' * n + r';
    var d := q - q';
    assert d * n == r' - r by {
      assert d * n == q * n - q' * n;
    }
    if d >= 1 {
      MulAtLeast(d, n);
      assert false;
    } else if d <= -1 {
      MulAtLeast(-d, n);
      assert false;
    }
  }

  lemma MulAtLeast(d: int, n: int)
    requires d >= 1 && n >= 1
    ensures d * n >= n
  {
  }

  /** Reducing a summand modulo `n` first does not change the sum's remainder. */
  lemma ModAddLeft(a: int, b: int, n: int)
    requires n >= 1
    ensures ((a % n) + b) % n == (a + b) % n
  {
    var x := (a % n) + b;
    var q, d := a / n, x / n;
    assert a + b == (q + d) * n + x % n;
    ModUnique(a + b, n, q + d, x % n);
  }

  /** The signed size of one move: +1 forward, -1 back. */
  function Step(m: Move): int {
    if m == Forward then 1 else -1
  }

  /** Forward moves minus backward moves. */
  function Net(moves: seq<Move>): int
    decreases |moves|
  {
    if |moves| == 0 then 0 else Step(moves[0]) + Net(moves[1..])
  }

  /** One move shifts the index by its step modulo the item count and keeps the items. */
  lemma MoveByStep(s: AppState, m: Move)
    requires Valid(s)
    ensures MoveBy(s, m).selectedIndex == (s.selectedIndex + Step(m)) % |s.items|
    ensures MoveBy(s, m).items == s.items
  {
    var n := |s.items|;
    var t := MoveBy(s, m);
    if m == Forward {
      ModUnique(s.selectedIndex + 1, n, if s.selectedIndex + 1 == n then 1 else 0, t.selectedIndex);
    } else {
      ModUnique(s.selectedIndex - 1, n, if s.selectedIndex == 0 then -1 else 0, t.selectedIndex);
    }
  }

  /** `count` steps of `theta` (negative counts step the other way), built by repeated
      addition as the controller accumulates them. */
  function Steps(count: int, theta: real): real
    decreases if count < 0 then -count else count
  {
    if count == 0 then 0.0
    else if count > 0 then Steps(count - 1, theta) + theta
    else Steps(count + 1, theta) - theta
  }

  /** One more step forward or back adds or removes one `theta`. */
  lemma StepsShift(count: int, theta: real)
    ensures Steps(count + 1, theta) == Steps(count, theta) + theta
    ensures Steps(count - 1, theta) == Steps(count, theta) - theta
  {
  }

  /** Repeated addition is multiplication. */
  lemma {:induction false} StepsIsProduct(count: int, theta: real)
    ensures Steps(count, theta) == (count as real) * theta
    decreases if count < 0 then -count else count
  {
    if count > 0 {
      StepsIsProduct(count - 1, theta);
      var before, now := ((count - 1) as real) * theta, (count as real) * theta;
      assert now == before + theta;
    } else if count < 0 {
      StepsIsProduct(count + 1, theta);
      var before, now := ((count + 1) as real) * theta, (count as real) * theta;
      assert now == before - theta;
    }
  }

  /** The index and the rotation never desynchronise: after any moves, the index has advanced by
      the net count modulo the item count and the rotation has gone back by that many steps. */
  lemma NavigateNet(s: AppState, moves: seq<Move>)
    requires Valid(s)
    ensures Navigate(s, moves).selectedIndex == (s.selectedIndex + Net(moves)) % |s.items|
    ensures Navigate(s, moves).rotation == s.rotation - Steps(Net(moves), StepAngle(|s.items|))
    ensures Navigate(s, moves).items == s.items
  {
    NavigateIndex(s, moves);
    NavigateRotation(s, moves);
  }

  /** The same for any start, with the rotation as a product: the ring has gone back by the net
      count times the step angle. The step, the net count and the final rotation are named by
      the caller. */
  lemma NavigateNetProduct(s: AppState, moves: seq<Move>, theta: real, net: int, rotation: real)
    requires Valid(s)
    requires theta == StepAngle(|s.items|) && net == Net(moves) && rotation == Navigate(s, moves).rotation
    ensures rotation == s.rotation - (net as real) * theta
  {
    NavigateRotation(s, moves);
    StepsIsProduct(net, theta);
  }

  lemma {:induction false} NavigateIndex(s: AppState, moves: seq<Move>)
    requires Valid(s)
    ensures Navigate(s, moves).selectedIndex == (s.selectedIndex + Net(moves)) % |s.items|
    ensures Navigate(s, moves).items == s.items
    decreases |moves|
  {
    var n := |s.items|;
    if |moves| == 0 {
      ModUnique(s.selectedIndex, n, 0, s.selectedIndex);
    } else {
      var t := MoveBy(s, moves[0]);
      var rest := moves[1..];
      MoveByStep(s, moves[0]);
      NavigateIndex(t, rest);
      ModAddLeft(s.selectedIndex + Step(moves[0]), Net(rest), n);
    }
  }

  lemma {:induction false} NavigateRotation(s: AppState, moves: seq<Move>)
    requires Valid(s)
    ensures Navigate(s, moves).rotation == s.rotation - Steps(Net(moves), StepAngle(|s.items|))
    ensures Navigate(s, moves).items == s.items
    decreases |moves|
  {
    if |moves| > 0 {
      var theta := StepAngle(|s.items|);
      var t := MoveBy(s, moves[0]);
      var rest := moves[1..];
      NavigateRotation(t, rest);
      StepsShift(Net(rest), theta);
    }
  }

  function Repeat(m: Move, count: nat): (moves: seq<Move>)
    ensures |moves| == count
    ensures forall i :: 0 <= i < count ==> moves[i] == m
  {
    if count == 0 then [] else [m] + Repeat(m, count - 1)
  }

  lemma {:induction false} NetAppend(a: seq<Move>, b: seq<Move>)
    ensures Net(a + b) == Net(a) + Net(b)
    decreases |a|
  {
    if |a| == 0 {
      assert a + b == b;
    } else {
      assert (a + b)[0] == a[0];
      assert (a + b)[1..] == a[1..] + b;
      NetAppend(a[1..], b);
    }
  }

  lemma {:induction false} NetRepeat(m: Move, count: nat)
    ensures Net(Repeat(m, count)) == if m == Forward then count as int else -(count as int)
    decreases count
  {
    if count > 0 {
      assert Repeat(m, count)[1..] == Repeat(m, count - 1);
      NetRepeat(m, count - 1);
    }
  }

  /** Going forward `count` times and back `count` times restores the index and the rotation. */
  lemma ForwardBackRoundTrip(s: AppState, count: nat)
    requires Valid(s)
    ensures Navigate(s, Repeat(Forward, count) + Repeat(Back, count)) == s
  {
    var moves := Repeat(Forward, count) + Repeat(Back, count);
    NetAppend(Repeat(Forward, count), Repeat(Back, count));
    NetRepeat(Forward, count);
    NetRepeat(Back, count);
    NavigateNet(s, moves);
    ModUnique(s.selectedIndex, |s.items|, 0, s.selectedIndex);
    NavigateKeepsEditor(s, moves);
  }

  /** Moves touch only the index and the rotation. */
  lemma {:induction false} NavigateKeepsEditor(s: AppState, moves: seq<Move>)
    requires Valid(s)
    ensures Navigate(s, moves).(selectedIndex := s.selectedIndex, rotation := s.rotation) == s
    decreases |moves|
  {
    if |moves| > 0 {
      NavigateKeepsEditor(MoveBy(s, moves[0]), moves[1..]);
    }
  }

  /** From the initial state, `k` net forward moves select item `k mod 8` and leave the ring
      turned back by `k` times 45 degrees. */
  lemma NavigateFromInit(moves: seq<Move>)
    ensures Navigate(Init(), moves).selectedIndex == Net(moves) % 8
    ensures Navigate(Init(), moves).rotation == -(Net(moves) as real) * 45.0
  {
    NavigateNet(Init(), moves);
    assert StepAngle(8) == 45.0;
    StepsIsProduct(Net(moves), 45.0);
  }

  /** The initial state has the first item facing the viewer. */
  lemma InitFacesFront()
    ensures FacesFront(Init().items, Init().selectedIndex, Init().rotation)
  {
    assert Turns(0) == Layout(Init().items, 0)[0].angle + 0.0;
    TurnsAreWhole(0);
  }

  /** Advancing keeps the selected item facing the viewer: either the ring turns back by exactly
      the step the index moved, or the index wraps to 0 and the ring is one full turn further on. */
  lemma NextFacesFront(s: AppState)
    requires Valid(s) && FacesFront(s.items, s.selectedIndex, s.rotation)
    ensures FacesFront(RotateNext(s).items, RotateNext(s).selectedIndex, RotateNext(s).rotation)
  {
    var n, i, theta := |s.items|, s.selectedIndex, StepAngle(|s.items|);
    var r := RotateNext(s);
    var m := ((Layout(s.items, i)[i].angle + s.rotation) / 360.0).Floor;
    assert Turns(m) == theta * (i as real) + s.rotation;
    if i + 1 < n {
      assert theta * ((i + 1) as real) == theta * (i as real) + theta;
      assert Turns(m) == Layout(r.items, r.selectedIndex)[r.selectedIndex].angle + r.rotation;
      TurnsAreWhole(m);
    } else {
      assert theta * (i as real) + theta == 360.0;
      assert Turns(m - 1) == Layout(r.items, r.selectedIndex)[r.selectedIndex].angle + r.rotation;
      TurnsAreWhole(m - 1);
    }
  }

  /** Going back keeps the selected item facing the viewer. */
  lemma PrevFacesFront(s: AppState)
    requires Valid(s) && FacesFront(s.items, s.selectedIndex, s.rotation)
    ensures FacesFront(RotatePrev(s).items, RotatePrev(s).selectedIndex, RotatePrev(s).rotation)
  {
    var n, i, theta := |s.items|, s.selectedIndex, StepAngle(|s.items|);
    var r := RotatePrev(s);
    var m := ((Layout(s.items, i)[i].angle + s.rotation) / 360.0).Floor;
    assert Turns(m) == theta * (i as real) + s.rotation;
    if i > 0 {
      assert theta * ((i - 1) as real) == theta * (i as real) - theta;
      assert Turns(m) == Layout(r.items, r.selectedIndex)[r.selectedIndex].angle + r.rotation;
      TurnsAreWhole(m);
    } else {
      assert theta * ((n - 1) as real) + theta == 360.0;
      assert Turns(m + 1) == Layout(r.items, r.selectedIndex)[r.selectedIndex].angle + r.rotation;
      TurnsAreWhole(m + 1);
    }
  }

  /** Everything the user can do: the manual arrows, a recognised gesture, and the edit and
      upload actions. */
  datatype Action =
    | Press(move: Move)
    | Gesture(gesture: GestureType)
    | StartEdit
    | TypeTitle(title: string)
    | TypeTheme(theme: string)
    | CancelEdit
    | Save
    | Upload(file: Option<UploadedFile>)

  /** One user action. Typing only changes the edit buffers and cancelling only closes the dialog. */
  function Apply(s: AppState, a: Action): (r: AppState)
    requires Valid(s)
    ensures Valid(r)
    ensures |r.items| == |s.items| && Ids(r.items) == Ids(s.items)
    ensures !a.Press? && !a.Gesture? ==> r.selectedIndex == s.selectedIndex && r.rotation == s.rotation
  {
    match a
    case Press(m) => MoveBy(s, m)
    case Gesture(g) => HandleGesture(s, g)
    case StartEdit => StartEditing(s)
    case TypeTitle(t) => s.(editTitle := t)
    case TypeTheme(t) => s.(editTheme := t)
    case CancelEdit => s.(isEditing := false)
    case Save => SaveEdit(s)
    case Upload(f) => FileChange(s, f)
  }

  /** Applies `actions` in order. */
  function Run(s: AppState, actions: seq<Action>): (r: AppState)
    requires Valid(s)
    ensures Valid(r)
    ensures |r.items| == |s.items| && Ids(r.items) == Ids(s.items)
    decreases |actions|
  {
    if |actions| == 0 then s else Run(Apply(s, actions[0]), actions[1..])
  }

  /** Every action keeps the selected item facing the viewer. */
  lemma ApplyFacesFront(s: AppState, a: Action)
    requires Valid(s) && FacesFront(s.items, s.selectedIndex, s.rotation)
    ensures FacesFront(Apply(s, a).items, Apply(s, a).selectedIndex, Apply(s, a).rotation)
  {
    var r := Apply(s, a);
    if a == Press(Forward) || (a == Gesture(SwipeLeft) && !s.isEditing) {
      NextFacesFront(s);
    } else if a == Press(Back) || (a == Gesture(SwipeRight) && !s.isEditing) {
      PrevFacesFront(s);
    } else {
      var i := s.selectedIndex;
      var m := ((Layout(s.items, i)[i].angle + s.rotation) / 360.0).Floor;
      assert Turns(m) == Layout(r.items, i)[i].angle + r.rotation;
      TurnsAreWhole(m);
    }
  }

  /** Whatever the user does from start-up, the ring keeps its eight entries with their original
      ids (so the rendering keys stay distinct) and the selected item faces the viewer. */
  lemma {:induction false} RunInvariant(s: AppState, actions: seq<Action>)
    requires Valid(s) && FacesFront(s.items, s.selectedIndex, s.rotation)
    ensures FacesFront(Run(s, actions).items, Run(s, actions).selectedIndex, Run(s, actions).rotation)
    decreases |actions|
  {
    if |actions| > 0 {
      ApplyFacesFront(s, actions[0]);
      RunInvariant(Apply(s, actions[0]), actions[1..]);
    }
  }

  /** Ids equal pointwise carry distinctness over. */
  lemma SameIdsDistinct(a: seq<PhotoItem>, b: seq<PhotoItem>)
    requires Ids(a) == Ids(b) && DistinctIds(a)
    ensures DistinctIds(b)
  {
    forall i, j | 0 <= i < j < |b|
      ensures b[i].id != b[j].id
    {
      assert Ids(a)[i] == b[i].id && Ids(a)[j] == b[j].id;
    }
  }

  /** Every state reachable from start-up holds eight items with distinct ids, keyed as at
      start-up, with the selected one facing the viewer. */
  lemma Reachable(actions: seq<Action>)
    ensures |Run(Init(), actions).items| == 8
    ensures Ids(Run(Init(), actions).items) == Ids(PhotoItems())
    ensures DistinctIds(Run(Init(), actions).items)
    ensures FacesFront(Run(Init(), actions).items, Run(Init(), actions).selectedIndex, Run(Init(), actions).rotation)
  {
    PhotoItemsShape();
    SameIdsDistinct(PhotoItems(), Run(Init(), actions).items);
    InitFacesFront();
    RunInvariant(Init(), actions);
  }

  /** Three left swipes from start-up select item 3 with the ring at -135 degrees; a right swipe
      then selects item 2 at -90 degrees. */
  lemma SwipeScenario()
    ensures var s := Run(Init(), [Gesture(SwipeLeft), Gesture(SwipeLeft), Gesture(SwipeLeft)]);
      s.selectedIndex == 3 && s.rotation == -135.0
    ensures var s := Run(Init(), [Gesture(SwipeLeft), Gesture(SwipeLeft), Gesture(SwipeLeft), Gesture(SwipeRight)]);
      s.selectedIndex == 2 && s.rotation == -90.0
  {
    var s0 := Init();
    assert StepAngle(8) == 45.0;
    var s1 := RotateNext(s0);
    var s2 := RotateNext(s1);
    var s3 := RotateNext(s2);
    var s4 := RotatePrev(s3);
    assert s3.selectedIndex == 3 && s3.rotation == -135.0;
    assert s4.selectedIndex == 2 && s4.rotation == -90.0;
    assert Run(s3, []) == s3;
    assert Run(s3, [Gesture(SwipeRight)]) == s4;
    assert Run(s2, [Gesture(SwipeLeft)]) == s3;
    assert Run(s2, [Gesture(SwipeLeft), Gesture(SwipeRight)]) == s4;
    assert Run(s1, [Gesture(SwipeLeft), Gesture(SwipeLeft)]) == s3;
    assert Run(s1, [Gesture(SwipeLeft), Gesture(SwipeLeft), Gesture(SwipeRight)]) == s4;
  }

  /** The classifier wired to the controller: each sample goes through `detectGesture` and any
      gesture it emits is handed to `HandleGesture`. */
  function Track(c: HandController.ClassifierState, s: AppState, samples: seq<HandController.Sample>)
    : (r: (HandController.ClassifierState, AppState))
    requires Valid(s)
    ensures Valid(r.1) && r.1.items == s.items
    ensures r.0 == HandController.Run(c, samples).state
    decreases |samples|
  {
    if |samples| == 0 then
      (c, s)
    else
      var o := HandController.Observe(c, samples[0].x, samples[0].time);
      var next := if o.emitted.Some? then HandleGesture(s, o.emitted.value) else s;
      Track(o.state, next, samples[1..])
  }

  /** Hand tracking alone never turns the ring away from the selected item. */
  lemma {:induction false} TrackFacesFront(c: HandController.ClassifierState, s: AppState, samples: seq<HandController.Sample>)
    requires Valid(s) && FacesFront(s.items, s.selectedIndex, s.rotation)
    ensures FacesFront(Track(c, s, samples).1.items, Track(c, s, samples).1.selectedIndex, Track(c, s, samples).1.rotation)
    decreases |samples|
  {
    if |samples| > 0 {
      var o := HandController.Observe(c, samples[0].x, samples[0].time);
      if o.emitted.Some? {
        ApplyFacesFront(s, Gesture(o.emitted.value));
        TrackFacesFront(o.state, HandleGesture(s, o.emitted.value), samples[1..]);
      } else {
        TrackFacesFront(o.state, s, samples[1..]);
      }
    }
  }

  /** Hands the gestures of `events` to `HandleGesture`, in order. */
  function Dispatch(s: AppState, events: seq<HandController.Event>): (r: AppState)
    requires Valid(s)
    ensures Valid(r) && r.items == s.items
    decreases |events|
  {
    if |events| == 0 then s else Dispatch(HandleGesture(s, events[0].gesture), events[1..])
  }

  /** The controller sees exactly the gestures the classifier emits, in the order it emits them. */
  lemma {:induction false} TrackDispatchesEvents(c: HandController.ClassifierState, s: AppState, samples: seq<HandController.Sample>)
    requires Valid(s)
    ensures Track(c, s, samples).1 == Dispatch(s, HandController.Run(c, samples).events)
    decreases |samples|
  {
    if |samples| > 0 {
      var o := HandController.Observe(c, samples[0].x, samples[0].time);
      var rest := HandController.Run(o.state, samples[1..]);
      if o.emitted.Some? {
        var e := HandController.Event(o.emitted.value, samples[0].time);
        TrackDispatchesEvents(o.state, HandleGesture(s, o.emitted.value), samples[1..]);
        assert ([e] + rest.events)[1..] == rest.events;
      } else {
        TrackDispatchesEvents(o.state, s, samples[1..]);
      }
    }
  }
}
