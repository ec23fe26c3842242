/**
 * The main loop. One iteration reads a frame (or stops on a read failure),
 * classifies the hands the detector reported, notifies the controller when
 * landmarks were reported, updates the time of the last gesture, and then
 * stops on the idle timeout or, failing that, on the escape key.
 *
 * The wall clock, the camera, the detector, the network reply and the
 * keyboard are inputs of the iteration (FrameInput); the only state carried
 * from one iteration to the next is the time of the last gesture (LoopState).
 */
module ControlLoop {
  import opened Wrappers
  import opened Gestures
  import opened Notifier

  /** Everything one iteration receives from outside. */
  datatype FrameInput = FrameInput(
    readOk: bool,                    // the camera returned a frame
    handLandmarks: seq<seq<Point>>,  // the detector's landmark sets (empty when it found none)
    handLabels: seq<string>,         // the detector's handedness labels (empty when none)
    detectClock: real,               // the wall clock read when a hand is processed
    reply: Reply,                    // what the GET request produces, if one is made
    checkClock: real,                // the wall clock read for the idle test
    key: int)                        // the key code polled after display (-1 when none)

  /** Why the loop ends. */
  datatype Stop = CameraReadFailed | IdleTimeout | EscPressed

  /** What one iteration hands to the next. */
  datatype LoopState = LoopState(lastGestureTime: real)

  /** What one iteration produces: the vector (none when the frame could not
      be read), the notification made, the next state and the stop, if any. */
  datatype Outcome = Outcome(
    states: Option<FingerStates>,
    notice: Option<Notice>,
    next: LoopState,
    stop: Option<Stop>)

  /** Seconds without a processed hand after which the loop ends. */
  const IdleLimit: real := 10.0

  /** The escape key code. */
  const EscKey := 27

  /** Python's `key & 0xFF`: Python integers behave as unbounded two's
      complement, so the mask keeps the non-negative remainder modulo 256
      (-1, the code for "no key", becomes 255). */
  function LowByte(key: int): (b: int)
    ensures 0 <= b < 256
    ensures 0 <= key < 256 ==> b == key
    ensures key == -1 ==> b == 255
    ensures (key - b) % 256 == 0
  {
    key % 256
  }

  predicate IsEsc(key: int) {
    LowByte(key) == EscKey
  }

  function Min(a: nat, b: nat): nat {
    if a < b then a else b
  }

  /** Python's zip: pairs up to the shorter of the two sequences. */
  function Zip(lms: seq<seq<Point>>, labels: seq<string>): (hands: seq<Hand>)
    ensures |hands| == Min(|lms|, |labels|)
    ensures forall i :: 0 <= i < |hands| ==> hands[i] == Hand(lms[i], labels[i])
  {
    seq(Min(|lms|, |labels|), i requires 0 <= i < Min(|lms|, |labels|) => Hand(lms[i], labels[i]))
  }

  /** The detector's landmark sets that get paired with a label can be classified. */
  predicate ReadableFrame(inp: FrameInput) {
    forall i :: 0 <= i < |inp.handLandmarks| && i < |inp.handLabels| ==>
      Readable(inp.handLandmarks[i])
  }

  /** The hands the per-hand loop runs over: none unless both detector lists
      are non-empty, otherwise the two lists zipped. */
  function HandsOf(inp: FrameInput): (hands: seq<Hand>)
    ensures ReadableFrame(inp) ==> AllReadable(hands)
    ensures hands != [] <==> |inp.handLandmarks| > 0 && |inp.handLabels| > 0
  {
    if |inp.handLandmarks| > 0 && |inp.handLabels| > 0 then Zip(inp.handLandmarks, inp.handLabels)
    else []
  }

  /** The state an iteration hands on: the gesture time moves to the clock
      reading when a labelled hand was processed (the per-hand loop ran). */
  function NextState(st: LoopState, inp: FrameInput): LoopState {
    if inp.readOk && inp.handLandmarks != [] && inp.handLabels != [] then LoopState(inp.detectClock)
    else st
  }

  /** One iteration of the main loop: read check, classification, notification,
      gesture time, idle test, escape test. A frame is classified exactly when
      the iteration does not stop on a read failure, and only a classified
      frame is notified. Its further properties are the Step* lemmas below. */
  function StepSpec(st: LoopState, inp: FrameInput): (o: Outcome)
    requires ReadableFrame(inp)
    ensures o.states.None? <==> o.stop == Some(CameraReadFailed)
    ensures o.notice.Some? ==> o.states.Some?
    ensures o.next == NextState(st, inp)
  {
    if !inp.readOk then Outcome(None, None, st, Some(CameraReadFailed))
    else
      var states := Classified(AllDown, HandsOf(inp));
      var next := NextState(st, inp);
      var notice := if inp.handLandmarks != [] then Some(SendLedStates(states, inp.reply)) else None;
      var stop :=
        if inp.checkClock - next.lastGestureTime > IdleLimit then Some(IdleTimeout)
        else if IsEsc(inp.key) then Some(EscPressed)
        else None;
      Outcome(Some(states), notice, next, stop)
  }

  /** A read failure ends the loop before anything else happens; it is the
      only way the loop ends with CameraReadFailed. */
  lemma StepReadFailureFirst(st: LoopState, inp: FrameInput)
    requires ReadableFrame(inp)
    ensures StepSpec(st, inp).stop == Some(CameraReadFailed) <==> !inp.readOk
    ensures !inp.readOk ==>
      StepSpec(st, inp) == Outcome(None, None, st, Some(CameraReadFailed))
    ensures inp.readOk ==> StepSpec(st, inp).states.Some?
  {
  }

  /** The vector starts all down each iteration and stays so without a
      labelled hand; otherwise the last labelled hand decides all four entries. */
  lemma StepLastHandWins(st: LoopState, inp: FrameInput)
    requires ReadableFrame(inp) && inp.readOk
    ensures inp.handLandmarks == [] || inp.handLabels == [] ==>
      StepSpec(st, inp).states == Some(AllDown)
    ensures inp.handLandmarks != [] && inp.handLabels != [] ==>
      var k := Min(|inp.handLandmarks|, |inp.handLabels|) - 1;
      StepSpec(st, inp).states == Some(ClassifyHand(Hand(inp.handLandmarks[k], inp.handLabels[k])))
  {
  }

  /** A notification is made exactly when landmarks were reported, labelled or
      not, and it carries this iteration's vector. */
  lemma StepNotifiesIffLandmarks(st: LoopState, inp: FrameInput)
    requires ReadableFrame(inp)
    ensures StepSpec(st, inp).notice.Some? <==> inp.readOk && inp.handLandmarks != []
    ensures StepSpec(st, inp).notice.Some? ==>
      StepSpec(st, inp).states.Some? &&
      StepSpec(st, inp).notice.value == Notice(QueryUrl(StepSpec(st, inp).states.value), inp.reply)
  {
  }

  /** The gesture time moves to the clock exactly when a labelled hand was processed. */
  lemma StepGestureTime(st: LoopState, inp: FrameInput)
    requires ReadableFrame(inp)
    ensures StepSpec(st, inp).next.lastGestureTime ==
      if inp.readOk && inp.handLandmarks != [] && inp.handLabels != [] then inp.detectClock
      else st.lastGestureTime
  {
  }

  /** The idle test runs after the notification, is strict, and comes first;
      the key is only looked at when it passes. */
  lemma StepStopOrder(st: LoopState, inp: FrameInput)
    requires ReadableFrame(inp) && inp.readOk
    ensures var o := StepSpec(st, inp);
      o.stop == Some(IdleTimeout) <==> inp.checkClock - o.next.lastGestureTime > IdleLimit
    ensures var o := StepSpec(st, inp);
      o.stop == Some(EscPressed) <==>
        inp.checkClock - o.next.lastGestureTime <= IdleLimit && LowByte(inp.key) == EscKey
    ensures StepSpec(st, inp).stop == None <==>
      inp.checkClock - StepSpec(st, inp).next.lastGestureTime <= IdleLimit && !IsEsc(inp.key)
  {
  }

  /** One iteration, as the loop body runs it: the vector is a four-entry
      array reset to zeros and overwritten entry by entry for every hand. */
  method Step(st: LoopState, inp: FrameInput) returns (o: Outcome)
    requires ReadableFrame(inp)
    ensures o == StepSpec(st, inp)
  {
    if !inp.readOk {
      return Outcome(None, None, st, Some(CameraReadFailed));
    }
    var states := new int[4](_ => 0);
    var last := st.lastGestureTime;
    var hands: seq<Hand> := [];
    if |inp.handLandmarks| > 0 && |inp.handLabels| > 0 {
      hands := Zip(inp.handLandmarks, inp.handLabels);
      var i := 0;
      while i < |hands|
        invariant 0 <= i <= |hands|
        invariant i == 0 ==> states[..] == AllDown && last == st.lastGestureTime
        invariant i > 0 ==> states[..] == ClassifyHand(hands[i - 1]) && last == inp.detectClock
      {
        var h := hands[i];
        var lms := h.landmarks;
        states[0] := if ThumbUp(lms, h.handedness) then 1 else 0;
        states[1] := if FingerUp(lms, IndexTip, IndexPip) then 1 else 0;
        states[2] := if FingerUp(lms, MiddleTip, MiddlePip) then 1 else 0;
        states[3] := if FingerUp(lms, RingTip, RingPip) then 1 else 0;
        last := inp.detectClock;
        i := i + 1;
      }
    }
    assert hands == HandsOf(inp);
    var vector: FingerStates := states[..];
    assert vector == Classified(AllDown, HandsOf(inp));
    assert LoopState(last) == NextState(st, inp);
    var notice: Option<Notice> := None;
    if |inp.handLandmarks| > 0 {
      notice := Some(SendLedStates(vector, inp.reply));
    }
    var stop: Option<Stop> := None;
    if inp.checkClock - last > IdleLimit {
      stop := Some(IdleTimeout);
    } else if IsEsc(inp.key) {
      stop := Some(EscPressed);
    }
    o := Outcome(Some(vector), notice, LoopState(last), stop);
  }

  /** A notification's failure is swallowed: two iterations that differ only
      in what the request produced agree on everything but that reply. */
  lemma NetworkFailureSwallowed(st: LoopState, a: FrameInput, b: FrameInput)
    requires ReadableFrame(a)
    requires a.(reply := b.reply) == b
    ensures StepSpec(st, a).states == StepSpec(st, b).states
    ensures StepSpec(st, a).next == StepSpec(st, b).next
    ensures StepSpec(st, a).stop == StepSpec(st, b).stop
    ensures StepSpec(st, a).notice.Some? <==> StepSpec(st, b).notice.Some?
    ensures StepSpec(st, a).notice.Some? ==>
      StepSpec(st, a).notice.value.url == StepSpec(st, b).notice.value.url
  {
  }

  /** Landmarks without handedness still trigger a notification, of the
      all-down vector, and leave the gesture time alone. */
  lemma UnlabelledLandmarksSendAllDown(st: LoopState, inp: FrameInput)
    requires inp.readOk && inp.handLandmarks != [] && inp.handLabels == []
    ensures StepSpec(st, inp).notice == Some(Notice(QueryUrl(AllDown), inp.reply))
    ensures StepSpec(st, inp).next == st
  {
  }

  /** A processed hand rules out the idle timeout unless the two clock
      readings of the iteration lie more than the limit apart. */
  lemma HandSeenKeepsRunning(st: LoopState, inp: FrameInput)
    requires ReadableFrame(inp)
    requires inp.readOk && inp.handLandmarks != [] && inp.handLabels != []
    requires inp.checkClock - inp.detectClock <= IdleLimit
    ensures StepSpec(st, inp).stop != Some(IdleTimeout)
    ensures StepSpec(st, inp).stop.Some? ==> LowByte(inp.key) == EscKey
  {
  }

  /** What a run of the loop produces: the notifications in order, why it
      stopped (none when the inputs ran out first) and how many iterations ran. */
  datatype Trace = Trace(notices: seq<Notice>, stop: Option<Stop>, iterations: nat)

  predicate ReadableFrames(frames: seq<FrameInput>) {
    forall k :: 0 <= k < |frames| ==> ReadableFrame(frames[k])
  }

  function Sent(o: Outcome): seq<Notice> {
    if o.notice.Some? then [o.notice.value] else []
  }

  /** The `while True` loop over a finite supply of iteration inputs: it runs
      iterations until one stops. */
  function Run(st: LoopState, frames: seq<FrameInput>): (t: Trace)
    requires ReadableFrames(frames)
    ensures t.iterations <= |frames|
    ensures t.iterations < |frames| ==> t.stop.Some?
    ensures t.stop.None? ==> t.iterations == |frames|
    ensures t.stop.Some? ==> t.iterations > 0
    ensures |t.notices| <= t.iterations
    decreases |frames|
  {
    if frames == [] then Trace([], None, 0)
    else
      var o := StepSpec(st, frames[0]);
      if o.stop.Some? then Trace(Sent(o), o.stop, 1)
      else
        var t := Run(o.next, frames[1..]);
        Trace(Sent(o) + t.notices, t.stop, t.iterations + 1)
  }

  function Then(prefix: seq<Notice>, done: nat, t: Trace): Trace {
    Trace(prefix + t.notices, t.stop, done + t.iterations)
  }

  /** Every suffix of readable inputs is readable. */
  lemma ReadableSuffix(frames: seq<FrameInput>, i: nat)
    requires ReadableFrames(frames) && i <= |frames|
    ensures ReadableFrames(frames[i..])
  {
    forall k | 0 <= k < |frames[i..]| ensures ReadableFrame(frames[i..][k]) {
      assert frames[i..][k] == frames[i + k];
    }
  }

  /** One unfolding of Run: the first iteration, then the rest of the run. */
  lemma RunFirst(st: LoopState, frames: seq<FrameInput>)
    requires ReadableFrames(frames) && frames != []
    ensures ReadableFrames(frames[1..])
    ensures var o := StepSpec(st, frames[0]);
      Run(st, frames) ==
        if o.stop.Some? then Trace(Sent(o), o.stop, 1)
        else Then(Sent(o), 1, Run(o.next, frames[1..]))
  {
    ReadableSuffix(frames, 1);
  }

  /** Prefixing twice is prefixing once with the joined prefix. */
  lemma ThenThen(p: seq<Notice>, n: nat, q: seq<Notice>, m: nat, t: Trace)
    ensures Then(p, n, Then(q, m, t)) == Then(p + q, n + m, t)
  {
    assert p + (q + t.notices) == (p + q) + t.notices;
  }

  /** One iteration of the loop, in terms of Run: either it stops the run,
      or the run goes on from its next state. */
  lemma RunAdvance(start: LoopState, frames: seq<FrameInput>, notices: seq<Notice>, i: nat, st: LoopState)
    requires ReadableFrames(frames) && i < |frames|
    requires ReadableFrames(frames[i..])
    requires Run(start, frames) == Then(notices, i, Run(st, frames[i..]))
    ensures ReadableFrames(frames[i + 1..])
    ensures var o := StepSpec(st, frames[i]);
      Run(start, frames) ==
        if o.stop.Some? then Trace(notices + Sent(o), o.stop, i + 1)
        else Then(notices + Sent(o), i + 1, Run(o.next, frames[i + 1..]))
  {
    var rest := frames[i..];
    ReadableSuffix(frames, i + 1);
    assert rest[0] == frames[i];
    assert rest[1..] == frames[i + 1..];
    RunFirst(st, rest);
    var o := StepSpec(st, frames[i]);
    if o.stop.None? {
      ThenThen(notices, i, Sent(o), 1, Run(o.next, frames[i + 1..]));
    }
  }

  /** The main loop, with `break` on the first stop. */
  method RunLoop(start: LoopState, frames: seq<FrameInput>) returns (t: Trace)
    requires ReadableFrames(frames)
    ensures t == Run(start, frames)
  {
    var st := start;
    var notices: seq<Notice> := [];
    var i := 0;
    while i < |frames|
      invariant 0 <= i <= |frames|
      invariant ReadableFrames(frames[i..])
      invariant Run(start, frames) == Then(notices, i, Run(st, frames[i..]))
    {
      RunAdvance(start, frames, notices, i, st);
      var o := Step(st, frames[i]);
      notices := notices + Sent(o);
      i := i + 1;
      if o.stop.Some? {
        return Trace(notices, o.stop, i);
      }
      st := o.next;
    }
    t := Trace(notices, None, i);
  }

  /** The state before iteration j, had the loop got that far. */
  function StateBefore(st: LoopState, frames: seq<FrameInput>, j: nat): LoopState
    requires j <= |frames|
  {
    if j == 0 then st else NextState(StateBefore(st, frames, j - 1), frames[j - 1])
  }

  /** Starting one iteration later from the first iteration's next state
      reaches the same states. */
  lemma {:induction false} StateBeforeShift(st: LoopState, frames: seq<FrameInput>, j: nat)
    requires j < |frames|
    ensures StateBefore(st, frames, j + 1) == StateBefore(NextState(st, frames[0]), frames[1..], j)
    decreases j
  {
    if j > 0 {
      StateBeforeShift(st, frames, j - 1);
      assert frames[1..][j - 1] == frames[j];
    }
  }

  /** An iteration whose inputs make it send a notification. */
  predicate Notifies(inp: FrameInput) {
    inp.readOk && inp.handLandmarks != []
  }

  /** How many of the first n iterations send a notification. */
  function NotifyingCount(frames: seq<FrameInput>, n: nat): nat
    requires n <= |frames|
    decreases n
  {
    if n == 0 then 0 else (if Notifies(frames[0]) then 1 else 0) + NotifyingCount(frames[1..], n - 1)
  }

  /** Iteration j of a run is iteration j - 1 of the run that starts after
      the first iteration. */
  lemma StopShift(st: LoopState, frames: seq<FrameInput>, j: nat)
    requires ReadableFrames(frames) && 0 < j < |frames|
    ensures StepSpec(StateBefore(st, frames, j), frames[j]).stop ==
      StepSpec(StateBefore(NextState(st, frames[0]), frames[1..], j - 1), frames[1..][j - 1]).stop
  {
    StateBeforeShift(st, frames, j - 1);
    assert frames[1..][j - 1] == frames[j];
  }

  /** The loop breaks at the first iteration that stops, with that iteration's
      reason: every earlier iteration went on, and the last one run stopped
      with the run's reason (or, when the inputs ran out, went on too). */
  lemma {:induction false} RunStopsAtFirstStop(st: LoopState, frames: seq<FrameInput>)
    requires ReadableFrames(frames)
    ensures var t := Run(st, frames);
      forall j :: 0 <= j < t.iterations ==>
        StepSpec(StateBefore(st, frames, j), frames[j]).stop ==
          if j == t.iterations - 1 then t.stop else None
    decreases |frames|
  {
    if frames != [] {
      RunFirst(st, frames);
      var o := StepSpec(st, frames[0]);
      if o.stop.None? {
        var rest := frames[1..];
        RunStopsAtFirstStop(o.next, rest);
        var t, t' := Run(st, frames), Run(o.next, rest);
        assert t == Then(Sent(o), 1, t');
        forall j | 0 < j < t.iterations
          ensures StepSpec(StateBefore(st, frames, j), frames[j]).stop ==
            if j == t.iterations - 1 then t.stop else None
        {
          StopShift(st, frames, j);
        }
      }
    }
  }

  /** The notification an iteration with these inputs sends, if any: the
      address of the vector its hands give, with the reply it got. */
  function FrameNotice(inp: FrameInput): (ns: seq<Notice>)
    requires ReadableFrame(inp)
    ensures |ns| == if Notifies(inp) then 1 else 0
    ensures Notifies(inp) ==> ParseQuery(ns[0].url) == Some(Classified(AllDown, HandsOf(inp)))
  {
    if Notifies(inp) then [SendLedStates(Classified(AllDown, HandsOf(inp)), inp.reply)] else []
  }

  /** The notifications of the first n iterations, frame by frame. */
  function FrameNotices(frames: seq<FrameInput>, n: nat): seq<Notice>
    requires ReadableFrames(frames) && n <= |frames|
    decreases n
  {
    if n == 0 then []
    else
      ReadableSuffix(frames, 1);
      FrameNotice(frames[0]) + FrameNotices(frames[1..], n - 1)
  }

  /** The run sends, in order, exactly the notification of each iteration it
      ran that reported landmarks, each carrying that iteration's own vector,
      and nothing for the other iterations. */
  lemma {:induction false} RunNotices(st: LoopState, frames: seq<FrameInput>)
    requires ReadableFrames(frames)
    ensures Run(st, frames).notices == FrameNotices(frames, Run(st, frames).iterations)
    decreases |frames|
  {
    if frames != [] {
      RunFirst(st, frames);
      StepNotifiesIffLandmarks(st, frames[0]);
      var o := StepSpec(st, frames[0]);
      assert Sent(o) == FrameNotice(frames[0]);
      if o.stop.None? {
        RunNotices(o.next, frames[1..]);
      }
    }
  }

  /** FrameNotices holds one notification per notifying frame. */
  lemma {:induction false} FrameNoticesCount(frames: seq<FrameInput>, n: nat)
    requires ReadableFrames(frames) && n <= |frames|
    ensures |FrameNotices(frames, n)| == NotifyingCount(frames, n)
    decreases n
  {
    if n > 0 {
      ReadableSuffix(frames, 1);
      FrameNoticesCount(frames[1..], n - 1);
    }
  }

  /** The run sends one notification per iteration it ran that reported
      landmarks, and none otherwise. */
  lemma RunNoticeCount(st: LoopState, frames: seq<FrameInput>)
    requires ReadableFrames(frames)
    ensures |Run(st, frames).notices| == NotifyingCount(frames, Run(st, frames).iterations)
  {
    RunNotices(st, frames);
    FrameNoticesCount(frames, Run(st, frames).iterations);
  }

  /** A clock that does not run backwards: the start time and then every
      detection reading are in non-decreasing order. */
  predicate ClockForward(st: LoopState, frames: seq<FrameInput>) {
    (forall k :: 0 <= k < |frames| ==> st.lastGestureTime <= frames[k].detectClock) &&
    (forall i, k :: 0 <= i < k < |frames| ==> frames[i].detectClock <= frames[k].detectClock)
  }

  /** With a clock that does not run backwards the gesture time never
      decreases from one iteration to the next, and never runs ahead of the
      latest clock reading taken so far. */
  lemma {:induction false} GestureTimeNeverDecreases(st: LoopState, frames: seq<FrameInput>, j: nat)
    requires ReadableFrames(frames) && ClockForward(st, frames)
    requires 0 < j <= |frames|
    ensures st.lastGestureTime <= StateBefore(st, frames, j - 1).lastGestureTime
    ensures StateBefore(st, frames, j - 1).lastGestureTime <= StateBefore(st, frames, j).lastGestureTime
    ensures StateBefore(st, frames, j).lastGestureTime <= frames[j - 1].detectClock
    decreases j
  {
    if j > 1 {
      GestureTimeNeverDecreases(st, frames, j - 1);
    }
  }

  /** Idle frames: read fine, no landmarks reported. */
  predicate AllIdle(frames: seq<FrameInput>) {
    forall k :: 0 <= k < |frames| ==> frames[k].readOk && frames[k].handLandmarks == []
  }

  /** Once the clock has passed the idle limit with no landmarks reported up
      to that iteration, the loop has stopped by then, without a single notification. */
  lemma {:induction false} IdleRunStops(st: LoopState, frames: seq<FrameInput>, k: nat)
    requires ReadableFrames(frames)
    requires k < |frames| && AllIdle(frames[..k + 1])
    requires frames[k].checkClock - st.lastGestureTime > IdleLimit
    ensures Run(st, frames).stop.Some?
    ensures Run(st, frames).iterations <= k + 1
    ensures Run(st, frames).notices == []
    decreases k
  {
    assert frames[..k + 1][0] == frames[0];
    var o := StepSpec(st, frames[0]);
    assert o.next == st && o.notice == None;
    if o.stop.None? {
      assert k > 0;
      var rest := frames[1..];
      assert rest[k - 1] == frames[k];
      assert rest[..k] == frames[..k + 1][1..];
      IdleRunStops(st, rest, k - 1);
    }
  }

  /** The addresses a sequence of notifications went to. */
  function Urls(ns: seq<Notice>): (us: seq<string>)
    ensures |us| == |ns|
  {
    if ns == [] then [] else [ns[0].url] + Urls(ns[1..])
  }

  lemma {:induction false} UrlsAppend(p: seq<Notice>, q: seq<Notice>)
    ensures Urls(p + q) == Urls(p) + Urls(q)
  {
    if p != [] {
      assert (p + q)[0] == p[0] && (p + q)[1..] == p[1..] + q;
      UrlsAppend(p[1..], q);
    } else {
      assert p + q == q;
    }
  }

  /** The swallowed failures do not change the course of a whole run either. */
  lemma {:induction false} RunIgnoresReplies(st: LoopState, a: seq<FrameInput>, b: seq<FrameInput>)
    requires ReadableFrames(a) && |a| == |b|
    requires forall k :: 0 <= k < |a| ==> a[k].(reply := b[k].reply) == b[k]
    ensures ReadableFrames(b)
    ensures Run(st, a).stop == Run(st, b).stop
    ensures Run(st, a).iterations == Run(st, b).iterations
    ensures Urls(Run(st, a).notices) == Urls(Run(st, b).notices)
    decreases |a|
  {
    assert ReadableFrames(b) by {
      forall k | 0 <= k < |b| ensures ReadableFrame(b[k]) {
        assert a[k].(reply := b[k].reply) == b[k];
      }
    }
    if a != [] {
      NetworkFailureSwallowed(st, a[0], b[0]);
      RunFirst(st, a);
      RunFirst(st, b);
      var oa, ob := StepSpec(st, a[0]), StepSpec(st, b[0]);
      assert Urls(Sent(oa)) == Urls(Sent(ob));
      if oa.stop.None? {
        var a', b' := a[1..], b[1..];
        assert forall k :: 0 <= k < |a'| ==> a'[k].(reply := b'[k].reply) == b'[k] by {
          forall k | 0 <= k < |a'| ensures a'[k].(reply := b'[k].reply) == b'[k] {
            assert a'[k] == a[k + 1] && b'[k] == b[k + 1];
          }
        }
        RunIgnoresReplies(oa.next, a', b');
        UrlsAppend(Sent(oa), Run(oa.next, a').notices);
        UrlsAppend(Sent(ob), Run(ob.next, b').notices);
      }
    }
  }
}
