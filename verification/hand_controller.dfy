/** The swipe classifier of the hand controller (components/HandController.tsx, `detectGesture`).
    The detector, the camera and the animation loop are outside the model: each call receives
    one detected hand and the current time as parameters. */
module HandController {
  import opened Wrappers
  import opened Types
  import opened Constants

  /** Index of the palm-centre landmark whose x coordinate is tracked. */
  const PalmLandmark: nat := 9

  /** The classifier's two refs: time of the last emitted gesture and the last palm x seen. */
  datatype ClassifierState = ClassifierState(lastGestureTime: int, previousX: Option<real>)

  /** The refs as created when the controller mounts. */
  function Initial(): ClassifierState {
    ClassifierState(0, None)
  }

  /** The outcome of one sample: the next state and the gesture handed to the callback, if any. */
  datatype Observation = Observation(state: ClassifierState, emitted: Option<GestureType>)

  /** True while a sample at `now` falls inside the cooldown window of the last gesture. */
  predicate CoolingDown(s: ClassifierState, now: int) {
    now - s.lastGestureTime < CooldownMs
  }

  function Abs(r: real): real {
    if r < 0.0 then -r else r
  }

  /** Processes one palm x coordinate taken at time `now`. */
  function Observe(s: ClassifierState, currentX: real, now: int): (o: Observation)
    // the sample is always remembered
    ensures o.state.previousX == Some(currentX)
    // a gesture is emitted exactly when the cooldown is over, there is an earlier sample,
    // and the palm moved strictly more than the threshold
    ensures o.emitted.Some? <==>
      !CoolingDown(s, now) && s.previousX.Some? && Abs(currentX - s.previousX.value) > SwipeThreshold
    ensures o.emitted == Some(SwipeRight) <==>
      !CoolingDown(s, now) && s.previousX.Some? && currentX > s.previousX.value + SwipeThreshold
    ensures o.emitted == Some(SwipeLeft) <==>
      !CoolingDown(s, now) && s.previousX.Some? && currentX < s.previousX.value - SwipeThreshold
    // the gesture clock moves to `now` exactly on emission
    ensures o.emitted.Some? ==> o.state.lastGestureTime == now
    ensures o.emitted.None? ==> o.state.lastGestureTime == s.lastGestureTime
  {
    if now - s.lastGestureTime < CooldownMs then
      Observation(s.(previousX := Some(currentX)), None)
    else if s.previousX.None? then
      Observation(s.(previousX := Some(currentX)), None)
    else
      var deltaX := currentX - s.previousX.value;
      if deltaX > SwipeThreshold then
        Observation(ClassifierState(now, Some(currentX)), Some(SwipeRight))
      else if deltaX < -SwipeThreshold then
        Observation(ClassifierState(now, Some(currentX)), Some(SwipeLeft))
      else
        Observation(s.(previousX := Some(currentX)), None)
  }

  /** One call of the classifier on a detected hand: only the palm landmark's x is consulted. */
  function DetectGesture(s: ClassifierState, landmarks: seq<HandLandmark>, now: int): (o: Observation)
    requires |landmarks| > PalmLandmark
    ensures o.state.previousX == Some(landmarks[PalmLandmark].x)
    ensures o.emitted.Some? ==> o.emitted.value.IsSwipe() && o.state.lastGestureTime == now
  {
    Observe(s, landmarks[PalmLandmark].x, now)
  }

  /** Two hands that agree on the palm's x coordinate are classified identically,
      whatever their other landmarks and coordinates. */
  lemma OnlyPalmXRead(s: ClassifierState, a: seq<HandLandmark>, b: seq<HandLandmark>, now: int)
    requires |a| > PalmLandmark && |b| > PalmLandmark
    requires a[PalmLandmark].x == b[PalmLandmark].x
    ensures DetectGesture(s, a, now) == DetectGesture(s, b, now)
  {
  }

  /** Inside the cooldown nothing is emitted, the gesture clock is kept and the sample is remembered. */
  lemma CooldownSuppresses(s: ClassifierState, currentX: real, now: int)
    requires now - s.lastGestureTime < CooldownMs
    ensures Observe(s, currentX, now) == Observation(ClassifierState(s.lastGestureTime, Some(currentX)), None)
  {
  }

  /** The cooldown test is strict: once exactly `CooldownMs` has elapsed, a large enough movement fires. */
  lemma CooldownBoundary(s: ClassifierState, currentX: real, now: int)
    requires now - s.lastGestureTime == CooldownMs
    requires s.previousX.Some? && currentX - s.previousX.value > SwipeThreshold
    ensures Observe(s, currentX, now).emitted == Some(SwipeRight)
  {
  }

  /** The first sample (no earlier x) never emits, whatever its value. */
  lemma FirstSampleSilent(currentX: real, now: int)
    ensures Observe(Initial(), currentX, now).emitted == None
    ensures Observe(Initial(), currentX, now).state == ClassifierState(0, Some(currentX))
  {
  }

  /** A movement of exactly the threshold, in either direction, does not count as a swipe. */
  lemma ThresholdBoundary(s: ClassifierState, now: int)
    requires s.previousX.Some?
    ensures Observe(s, s.previousX.value + SwipeThreshold, now).emitted == None
    ensures Observe(s, s.previousX.value - SwipeThreshold, now).emitted == None
    ensures Observe(s, s.previousX.value + SwipeThreshold, now).state.lastGestureTime == s.lastGestureTime
    ensures Observe(s, s.previousX.value - SwipeThreshold, now).state.lastGestureTime == s.lastGestureTime
  {
  }

  /** Two samples at the same instant never both emit. */
  lemma NoDoubleFire(s: ClassifierState, x1: real, x2: real, now: int)
    ensures !(Observe(s, x1, now).emitted.Some? && Observe(Observe(s, x1, now).state, x2, now).emitted.Some?)
  {
  }

  /** A sample handed to the classifier: the palm x coordinate and the time it was taken. */
  datatype Sample = Sample(x: real, time: int)

  /** A gesture handed to the callback, stamped with the time of the sample that caused it. */
  datatype Event = Event(gesture: GestureType, time: int)

  /** The result of feeding a stream of samples: final state and the emitted events in order. */
  datatype Trace = Trace(state: ClassifierState, events: seq<Event>)

  /** Every event comes at least one cooldown after the one before it (the first one,
      at least one cooldown after `since`). */
  predicate Spaced(since: int, events: seq<Event>) {
    && (|events| > 0 ==> events[0].time - since >= CooldownMs)
    && (forall i :: 0 < i < |events| ==> events[i].time - events[i - 1].time >= CooldownMs)
  }

  lemma SpacedCons(since: int, e: Event, rest: seq<Event>)
    requires e.time - since >= CooldownMs
    requires Spaced(e.time, rest)
    ensures Spaced(since, [e] + rest)
  {
    var all := [e] + rest;
    forall i | 0 < i < |all|
      ensures all[i].time - all[i - 1].time >= CooldownMs
    {
      assert all[i] == rest[i - 1];
      if i == 1 {
        assert all[i - 1] == e;
      } else {
        assert all[i - 1] == rest[i - 2];
      }
    }
  }

  /** Feeds `samples` to the classifier one by one, starting from `s`. */
  function Run(s: ClassifierState, samples: seq<Sample>): (t: Trace)
    decreases |samples|
    ensures |t.events| <= |samples|
    ensures forall i :: 0 <= i < |t.events| ==> t.events[i].gesture.IsSwipe()
    ensures Spaced(s.lastGestureTime, t.events)
    ensures t.state.lastGestureTime == if |t.events| == 0 then s.lastGestureTime else t.events[|t.events| - 1].time
    ensures |samples| == 0 ==> t.state == s
    ensures |samples| > 0 ==> t.state.previousX == Some(samples[|samples| - 1].x)
  {
    if |samples| == 0 then
      Trace(s, [])
    else
      var o := Observe(s, samples[0].x, samples[0].time);
      var rest := Run(o.state, samples[1..]);
      if o.emitted.Some? then
        var e := Event(o.emitted.value, samples[0].time);
        SpacedCons(s.lastGestureTime, e, rest.events);
        Trace(rest.state, [e] + rest.events)
      else
        Trace(rest.state, rest.events)
  }

  /** Any two emitted events, not only neighbours, are separated by one cooldown per step between
      them; no assumption is made on the order of the timestamps. */
  lemma {:induction false} SpacedApart(since: int, events: seq<Event>, i: int, j: int)
    requires Spaced(since, events)
    requires 0 <= i < j < |events|
    ensures events[j].time - events[i].time >= (j - i) * CooldownMs
    decreases j - i
  {
    if j > i + 1 {
      SpacedApart(since, events, i, j - 1);
    }
  }

  /** The k-th event (counting from 1) comes at least k cooldowns after `since`: a stream spanning
      `d` milliseconds carries at most `d / CooldownMs` gestures. */
  lemma {:induction false} SpacedRate(since: int, events: seq<Event>, i: int)
    requires Spaced(since, events)
    requires 0 <= i < |events|
    ensures events[i].time - since >= (i + 1) * CooldownMs
    decreases i
  {
    if i > 0 {
      SpacedRate(since, events, i - 1);
      assert events[i].time - events[i - 1].time >= CooldownMs;
    }
  }

  /** Any two gestures emitted from one stream of samples are at least one cooldown apart. */
  lemma GesturesSpaced(s: ClassifierState, samples: seq<Sample>, i: int, j: int)
    requires 0 <= i < j < |Run(s, samples).events|
    ensures Run(s, samples).events[j].time - Run(s, samples).events[i].time >= CooldownMs
  {
    SpacedApart(s.lastGestureTime, Run(s, samples).events, i, j);
  }

  /** The classifier as written, fed samples at 0, 100, 200 and 900 ms: the initial gesture clock
      of 0 keeps the first 800 ms inside the cooldown, so only the last sample fires. */
  lemma SmallTimestampScenario()
    ensures Run(Initial(), [Sample(0.40, 0), Sample(0.50, 100), Sample(0.60, 200), Sample(0.70, 900)]).events
         == [Event(SwipeRight, 900)]
  {
  }

  /** The same movements at wall-clock times (any start `t0` at least one cooldown past the epoch):
      the first sample is silent, the second fires, the third is suppressed and the fourth fires
      again exactly one cooldown later. */
  lemma WallClockScenario(t0: int)
    requires t0 >= CooldownMs
    ensures Run(Initial(), [Sample(0.40, t0), Sample(0.50, t0 + 100), Sample(0.60, t0 + 200), Sample(0.70, t0 + 900)]).events
         == [Event(SwipeRight, t0 + 100), Event(SwipeRight, t0 + 900)]
  {
    var s1 := ClassifierState(0, Some(0.40));
    var s2 := ClassifierState(t0 + 100, Some(0.50));
    var s3 := ClassifierState(t0 + 100, Some(0.60));
    var s4 := ClassifierState(t0 + 900, Some(0.70));
    assert Run(s3, [Sample(0.70, t0 + 900)]) == Trace(s4, [Event(SwipeRight, t0 + 900)]);
    assert Run(s2, [Sample(0.60, t0 + 200), Sample(0.70, t0 + 900)]) == Trace(s4, [Event(SwipeRight, t0 + 900)]);
    assert Run(s1, [Sample(0.50, t0 + 100), Sample(0.60, t0 + 200), Sample(0.70, t0 + 900)])
        == Trace(s4, [Event(SwipeRight, t0 + 100), Event(SwipeRight, t0 + 900)]);
  }
}
