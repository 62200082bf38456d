/** The proctoring session engine of `proctoring.service.ts` as a state
    machine over values: the service's fields form a `ServiceState`, and each
    operation of the service is a function from the state before to the state
    after (and the value it returns). The class in `proctoring_service.dfy`
    carries out these operations in place and is proved to agree with them;
    the lemmas here are what the engine guarantees.

    Time is an injected integer clock in milliseconds. A `setTimeout`
    debounce timer is its deadline (`Some(deadline)`) or `None` when no
    callback is pending; the callback running is the separate operation
    `FireFaceTimer`/`FireFocusTimer`, which does nothing before the deadline. */
module SessionEngine {
  import opened Wrappers
  import opened Text
  import opened Events
  import opened Labels

  /** The two `setTimeout` delays. */
  const FaceTimeoutMs: int := 10000
  const FocusTimeoutMs: int := 5000

  /** `ProctoringSession`. */
  datatype Session = Session(
    candidateName: string,
    startTime: int,
    endTime: Option<int>,
    events: seq<DetectionEvent>,
    integrityScore: int,
    isRecording: bool)

  /** What the face-landmark model reports for one frame: the number of faces
      and, when the first face has keypoints, whether the gaze heuristic
      judges it to be looking away. */
  datatype FaceReading = FaceReading(count: nat, firstFaceLookingAway: Option<bool>)

  /** The perception input of one `analyzeFrame` call. `None` stands for a
      model call that threw: `faces` for `estimateFaces`, `objects` for
      `detect`; the call's `try`/`catch` then returns what was gathered so far. */
  datatype Frame = Frame(faces: Option<FaceReading>, objects: Option<seq<Detection>>)

  /** The fields of `ProctoringService` that the operations read and write. */
  datatype ServiceState = ServiceState(
    initialized: bool,
    session: Option<Session>,
    faceTimer: Option<int>,
    focusTimer: Option<int>)

  // ---------------------------------------------------------------------------
  // Invariant
  // ---------------------------------------------------------------------------

  /** A session the service holds: still open, not recording, every event as
      some call site creates it, and its score the rule applied to its ledger
      from 100. */
  predicate LiveSession(s: Session) {
    s.endTime.None? && !s.isRecording && AllWellFormed(s.events)
    && s.integrityScore == ScoreAfter(100, s.events)
  }

  /** The service invariant: the held session is live, and a timer is pending
      only while there is a session of an initialized service. */
  predicate Valid(st: ServiceState) {
    (st.session.Some? ==> LiveSession(st.session.value))
    && (st.faceTimer.Some? || st.focusTimer.Some? ==> st.session.Some? && st.initialized)
  }

  // ---------------------------------------------------------------------------
  // Operations
  // ---------------------------------------------------------------------------

  /** The field initialisers. */
  function Initial(): ServiceState {
    ServiceState(false, None, None, None)
  }

  /** `initialize`: a no-op once initialized; otherwise `loaded` says whether
      the TensorFlow.js models loaded (when they do not, the call throws and
      the service stays uninitialized). Returns whether the call succeeded. */
  function Initialize(st: ServiceState, loaded: bool): (ServiceState, bool) {
    if st.initialized then (st, true)
    else if loaded then (st.(initialized := true), true)
    else (st, false)
  }

  /** `startSession`: installs a fresh session whatever was there before; the
      timers are left as they are. */
  function StartSession(st: ServiceState, candidateName: string, now: int): ServiceState {
    st.(session := Some(Session(candidateName, now, None, [], 100, false)))
  }

  /** `endSession`: with a session, stamps the end time, stops recording,
      cancels both timers, drops the session and returns it; without one,
      returns `None` and changes nothing. */
  function EndSession(st: ServiceState, now: int): (ServiceState, Option<Session>) {
    match st.session
    case None => (st, None)
    case Some(s) =>
      (st.(session := None, faceTimer := None, focusTimer := None),
       Some(s.(endTime := Some(now), isRecording := false)))
  }

  /** `addEventToSession`: appends the event and applies the deduction rule;
      nothing happens without a session. */
  function AddEvent(st: ServiceState, ev: DetectionEvent): ServiceState {
    match st.session
    case None => st
    case Some(s) =>
      st.(session := Some(s.(events := s.events + [ev],
                             integrityScore := Deduct(s.integrityScore, ev.severity))))
  }

  /** `addEventToSession` on each event of `evs` in turn. */
  function AddEvents(st: ServiceState, evs: seq<DetectionEvent>): ServiceState {
    if evs == [] then st else AddEvent(AddEvents(st, evs[..|evs| - 1]), evs[|evs| - 1])
  }

  /** The face-absence timer after a frame with `count` faces: a frame with no
      face arms it unless it is already pending (so a pending deadline is
      never pushed back); a frame with a face cancels it. */
  function FaceTimerAfter(timer: Option<int>, count: nat, now: int): Option<int> {
    if count == 0 then (if timer.None? then Some(now + FaceTimeoutMs) else timer)
    else None
  }

  /** The gaze timer after a frame: only a frame with a face whose keypoints
      are present touches it; "looking away" arms it unless it is pending,
      "looking at the screen" cancels it. The verdict is that of the first
      face, however many faces there are. */
  function FocusTimerAfter(timer: Option<int>, r: FaceReading, now: int): Option<int> {
    if r.count == 0 || r.firstFaceLookingAway.None? then timer
    else if r.firstFaceLookingAway.value then (if timer.None? then Some(now + FocusTimeoutMs) else timer)
    else None
  }

  /** The `unauthorized_object` events of the detections `ds`, in order; the
      `k`-th event of the call takes the id `ids(k)`, and `offset` events
      came before these. */
  function ObjectEvents(ds: seq<Detection>, now: int, ids: nat -> string, offset: nat): (r: seq<DetectionEvent>)
    ensures |r| == |ds|
    ensures forall j :: 0 <= j < |r| ==>
              WellFormed(r[j]) && r[j].kind == UnauthorizedObject && r[j].severity == High
              && r[j].details == ObjectSeen(ds[j].objectClass, ds[j].score)
              && r[j].id == ids(offset + j) && r[j].timestamp == now
  {
    seq(|ds|, j requires 0 <= j < |ds| => ObjectEvent(ds[j].objectClass, ds[j].score, ids(offset + j), now))
  }

  /** The events of two runs of detections are the events of the first run
      followed by those of the second, whose ids continue after the first's. */
  lemma ObjectEventsConcat(a: seq<Detection>, b: seq<Detection>, now: int, ids: nat -> string, offset: nat)
    ensures ObjectEvents(a + b, now, ids, offset)
            == ObjectEvents(a, now, ids, offset) + ObjectEvents(b, now, ids, offset + |a|)
  {
    var l, r := ObjectEvents(a + b, now, ids, offset), ObjectEvents(a, now, ids, offset) + ObjectEvents(b, now, ids, offset + |a|);
    forall j | 0 <= j < |l| ensures l[j] == r[j] {
      if j >= |a| {
        assert (a + b)[j] == b[j - |a|];
        assert offset + |a| + (j - |a|) == offset + j;
      }
    }
  }

  /** The `multiple_faces` event of a frame with two or more faces. */
  function FacesEvents(r: FaceReading, now: int, ids: nat -> string): seq<DetectionEvent> {
    if r.count > 1 then [MultipleFacesEvent(r.count, ids(0), now)] else []
  }

  /** The suspicious detections of a frame; none when `detect` threw. */
  function FrameSuspicious(objects: Option<seq<Detection>>): seq<Detection> {
    if objects.Some? then SuspiciousDetections(objects.value) else []
  }

  /** The events one `analyzeFrame` call creates, in creation order: a
      `multiple_faces` event when there is more than one face, then the
      object events (none when `detect` threw). */
  function FrameEvents(r: FaceReading, objects: Option<seq<Detection>>, now: int, ids: nat -> string): seq<DetectionEvent> {
    var head := FacesEvents(r, now, ids);
    head + ObjectEvents(FrameSuspicious(objects), now, ids, |head|)
  }

  /** `analyzeFrame`: returns the events it created and the new state. Before
      `initialize` has succeeded, without a session, or when `estimateFaces`
      throws, it returns `[]` and changes nothing. */
  function AnalyzeFrame(st: ServiceState, frame: Frame, now: int, ids: nat -> string): (ServiceState, seq<DetectionEvent>) {
    if !st.initialized || st.session.None? || frame.faces.None? then (st, [])
    else
      var r := frame.faces.value;
      var timed := st.(faceTimer := FaceTimerAfter(st.faceTimer, r.count, now),
                       focusTimer := FocusTimerAfter(st.focusTimer, r, now));
      var evs := FrameEvents(r, frame.objects, now, ids);
      (AddEvents(timed, evs), evs)
  }

  /** The face-absence `setTimeout` callback, run at time `now`: once the
      deadline has come it records one `face_missing` event and clears the
      timer; before that (or with no timer) nothing happens. */
  function FireFaceTimer(st: ServiceState, now: int, id: string): ServiceState {
    match st.faceTimer
    case Some(deadline) =>
      if deadline <= now then AddEvent(st.(faceTimer := None), FaceMissingEvent(id, now)) else st
    case None => st
  }

  /** The gaze `setTimeout` callback: one `focus_loss` event, timer cleared. */
  function FireFocusTimer(st: ServiceState, now: int, id: string): ServiceState {
    match st.focusTimer
    case Some(deadline) =>
      if deadline <= now then AddEvent(st.(focusTimer := None), FocusLossEvent(id, now)) else st
    case None => st
  }

  /** `getIntegrityScore`: `currentSession?.integrityScore || 100`, so 100
      without a session and also when the score has reached 0. */
  function IntegrityScore(st: ServiceState): int {
    match st.session
    case None => 100
    case Some(s) => if s.integrityScore == 0 then 100 else s.integrityScore
  }

  /** `getEventCount`: `{}` without a session, else the per-type tally. */
  function EventCount(st: ServiceState): map<EventType, nat> {
    match st.session
    case None => map[]
    case Some(s) => KindCounts(s.events)
  }

  // ---------------------------------------------------------------------------
  // The ledger and the score
  // ---------------------------------------------------------------------------

  /** Adding events one at a time appends them to the ledger in order and
      scores them one after another; the timers and the rest of the session
      stay as they were. */
  lemma {:induction false} AddEventsAppends(st: ServiceState, evs: seq<DetectionEvent>)
    requires st.session.Some?
    ensures AddEvents(st, evs) == st.(session := Some(st.session.value.(
              events := st.session.value.events + evs,
              integrityScore := ScoreAfter(st.session.value.integrityScore, evs))))
  {
    var s := st.session.value;
    if evs == [] {
      assert s.events + evs == s.events;
      assert s.(events := s.events + evs, integrityScore := ScoreAfter(s.integrityScore, evs)) == s;
    } else {
      var init, last := evs[..|evs| - 1], evs[|evs| - 1];
      AddEventsAppends(st, init);
      AddEventOnto(st, init, last);
      assert evs == init + [last];
    }
  }

  /** One more event on top of a batch already added. */
  lemma AddEventOnto(st: ServiceState, evs: seq<DetectionEvent>, ev: DetectionEvent)
    requires st.session.Some?
    ensures var s := st.session.value;
      AddEvent(st.(session := Some(s.(events := s.events + evs, integrityScore := ScoreAfter(s.integrityScore, evs)))), ev)
      == st.(session := Some(s.(events := s.events + (evs + [ev]),
                                integrityScore := ScoreAfter(s.integrityScore, evs + [ev]))))
  {
    var s := st.session.value;
    assert (evs + [ev])[..|evs|] == evs;
    assert s.events + evs + [ev] == s.events + (evs + [ev]);
  }

  /** Adding two batches one after the other is adding their concatenation. */
  lemma {:induction false} AddEventsConcat(st: ServiceState, a: seq<DetectionEvent>, b: seq<DetectionEvent>)
    ensures AddEvents(AddEvents(st, a), b) == AddEvents(st, a + b)
  {
    if b == [] {
      assert a + b == a;
    } else {
      var b' := b[..|b| - 1];
      assert (a + b)[..|a + b| - 1] == a + b';
      AddEventsConcat(st, a, b');
    }
  }

  /** Without a session, adding events changes nothing. */
  lemma {:induction false} AddEventsNoSession(st: ServiceState, evs: seq<DetectionEvent>)
    requires st.session.None?
    ensures AddEvents(st, evs) == st
  {
    if evs != [] {
      AddEventsNoSession(st, evs[..|evs| - 1]);
    }
  }

  /** Adding well-formed events to a live session keeps it live: the score is
      still the rule applied to the whole ledger from 100. */
  lemma AddEventsLive(st: ServiceState, evs: seq<DetectionEvent>)
    requires Valid(st) && AllWellFormed(evs)
    ensures Valid(AddEvents(st, evs))
  {
    if st.session.Some? {
      var s := st.session.value;
      AddEventsAppends(st, evs);
      ScoreAfterConcat(100, s.events, evs);
    } else {
      AddEventsNoSession(st, evs);
    }
  }

  /** In a valid state the score is within [0, 100] and equals 100 minus all
      deductions, floored at 0; `getIntegrityScore` therefore always reports a
      value in (0, 100]. */
  lemma ScoreInRange(st: ServiceState)
    requires Valid(st) && st.session.Some?
    ensures 0 <= st.session.value.integrityScore <= 100
    ensures st.session.value.integrityScore == Max(0, 100 - TotalDeduction(st.session.value.events))
    ensures 0 < IntegrityScore(st) <= 100
  {
    ScoreAfterBounds(100, st.session.value.events);
    ScoreAfterClosedForm(100, st.session.value.events);
  }

  /** A session whose score has been driven to 0 reads as 100, the same as a
      session with no events at all. */
  lemma ExhaustedScoreReadsFull(st: ServiceState)
    requires st.session.Some? && st.session.value.integrityScore == 0
    ensures IntegrityScore(st) == 100
    ensures IntegrityScore(st) == IntegrityScore(StartSession(st, st.session.value.candidateName, 0))
  {
  }

  /** The per-type counts of `getEventCount` add up to the ledger length. */
  lemma EventCountSum(st: ServiceState)
    requires st.session.Some?
    ensures var m := EventCount(st);
      Tally(m, FocusLoss) + Tally(m, FaceMissing) + Tally(m, MultipleFaces) + Tally(m, UnauthorizedObject)
      == |st.session.value.events|
  {
    KindCountsSum(st.session.value.events);
  }

  // ---------------------------------------------------------------------------
  // Session lifecycle
  // ---------------------------------------------------------------------------

  lemma InitialValid()
    ensures Valid(Initial())
  {
  }

  /** `initialize` only ever sets the flag, and a failed load changes nothing. */
  lemma InitializeEffect(st: ServiceState, loaded: bool)
    ensures Initialize(st, loaded).1 <==> st.initialized || loaded
    ensures Initialize(st, loaded).0 == st.(initialized := st.initialized || loaded)
    ensures Valid(st) ==> Valid(Initialize(st, loaded).0)
  {
  }

  /** `startSession` always succeeds and replaces any session, discarding its
      ledger; both timers are left untouched, so a timer armed during the
      earlier session stays pending. */
  lemma StartSessionEffect(st: ServiceState, candidateName: string, now: int)
    requires Valid(st)
    ensures var st' := StartSession(st, candidateName, now);
      Valid(st') && st'.session.Some?
      && st'.session.value.events == [] && st'.session.value.integrityScore == 100
      && !st'.session.value.isRecording && st'.session.value.candidateName == candidateName
      && st'.faceTimer == st.faceTimer && st'.focusTimer == st.focusTimer
      && st'.initialized == st.initialized
  {
  }

  /** A face timer left pending by an earlier session fires into the session
      that replaced it: the new candidate's ledger gets the `face_missing`
      event and loses 10 points. */
  lemma StaleTimerHitsNewSession(st: ServiceState, name: string, start: int, now: int, id: string)
    requires Valid(st) && st.faceTimer.Some? && st.faceTimer.value <= now
    ensures var st' := FireFaceTimer(StartSession(st, name, start), now, id);
      st'.session.Some? && st'.session.value.events == [FaceMissingEvent(id, now)]
      && st'.session.value.integrityScore == 90
  {
  }

  /** `endSession` without a session returns `None` and changes nothing; with
      one it returns that session, its ledger and score unchanged and its end
      time stamped, and leaves no session and no pending timer behind. */
  lemma EndSessionEffect(st: ServiceState, now: int)
    requires Valid(st)
    ensures var (st', closed) := EndSession(st, now);
      Valid(st')
      && (st.session.None? ==> closed.None? && st' == st)
      && (st.session.Some? ==>
            closed.Some? && closed.value.events == st.session.value.events
            && closed.value.integrityScore == st.session.value.integrityScore
            && closed.value.candidateName == st.session.value.candidateName
            && closed.value.startTime == st.session.value.startTime
            && closed.value.endTime == Some(now) && !closed.value.isRecording
            && st'.session.None? && st'.faceTimer.None? && st'.focusTimer.None?
            && st'.initialized == st.initialized)
  {
  }

  /** Starting a session and ending it straight away yields a closed session
      with no events and a score of 100. */
  lemma StartThenEnd(st: ServiceState, name: string, start: int, end: int)
    ensures var closed := EndSession(StartSession(st, name, start), end).1;
      closed == Some(Session(name, start, Some(end), [], 100, false))
  {
  }

  // ---------------------------------------------------------------------------
  // analyzeFrame
  // ---------------------------------------------------------------------------

  /** Before `initialize` has succeeded, or without a session, `analyzeFrame`
      returns `[]` and changes nothing. */
  lemma AnalyzeIdle(st: ServiceState, frame: Frame, now: int, ids: nat -> string)
    requires !st.initialized || st.session.None?
    ensures AnalyzeFrame(st, frame, now, ids) == (st, [])
  {
  }

  /** Object events placed after any `head`: the one for detection `j` sits
      at position `|head| + j` and takes the id `ids(|head| + j)`. */
  lemma ObjectEventsAfter(head: seq<DetectionEvent>, ds: seq<Detection>, now: int, ids: nat -> string)
    ensures var evs := head + ObjectEvents(ds, now, ids, |head|);
      |evs| == |head| + |ds| &&
      forall j :: 0 <= j < |ds| ==>
        evs[|head| + j] == ObjectEvent(ds[j].objectClass, ds[j].score, ids(|head| + j), now)
  {
  }

  /** What one frame emits: at most one `multiple_faces` event, exactly when
      there are two or more faces, at the front; then one high-severity
      `unauthorized_object` event per suspicious detection, naming that
      detection's class, in the detector's order. */
  lemma FrameEventsShape(r: FaceReading, objects: Option<seq<Detection>>, now: int, ids: nat -> string)
    ensures |FrameEvents(r, objects, now, ids)| == (if r.count > 1 then 1 else 0) + |FrameSuspicious(objects)|
    ensures r.count > 1 ==> FrameEvents(r, objects, now, ids)[0] == MultipleFacesEvent(r.count, ids(0), now)
    ensures var evs := FrameEvents(r, objects, now, ids);
      var sus := FrameSuspicious(objects);
      var head := if r.count > 1 then 1 else 0;
      forall j :: 0 <= j < |sus| ==>
        evs[head + j] == ObjectEvent(sus[j].objectClass, sus[j].score, ids(head + j), now)
  {
    var head := FacesEvents(r, now, ids);
    var sus := FrameSuspicious(objects);
    ObjectEventsAfter(head, sus, now, ids);
    if r.count > 1 {
      assert |head| == 1;
    } else {
      assert |head| == 0;
    }
  }

  /** Every `unauthorized_object` event a frame emits names a class that
      matches one of the suspicious words. */
  lemma FrameObjectsSuspicious(r: FaceReading, objects: Option<seq<Detection>>, now: int, ids: nat -> string)
    ensures var evs := FrameEvents(r, objects, now, ids);
      forall i :: 0 <= i < |evs| && evs[i].kind == UnauthorizedObject ==>
        evs[i].details.ObjectSeen? && IsSuspicious(evs[i].details.objectClass)
  {
    var evs := FrameEvents(r, objects, now, ids);
    forall i | 0 <= i < |evs| && evs[i].kind == UnauthorizedObject
      ensures evs[i].details.ObjectSeen? && IsSuspicious(evs[i].details.objectClass)
    {
      FrameObjectAt(r, objects, now, ids, i);
    }
  }

  lemma FrameObjectAt(r: FaceReading, objects: Option<seq<Detection>>, now: int, ids: nat -> string, i: nat)
    requires i < |FrameEvents(r, objects, now, ids)|
    requires FrameEvents(r, objects, now, ids)[i].kind == UnauthorizedObject
    ensures var ev := FrameEvents(r, objects, now, ids)[i];
      ev.details.ObjectSeen? && IsSuspicious(ev.details.objectClass)
  {
    var head := FacesEvents(r, now, ids);
    var sus := FrameSuspicious(objects);
    var evs := FrameEvents(r, objects, now, ids);
    assert evs == head + ObjectEvents(sus, now, ids, |head|);
    if i >= |head| {
      ObjectEventAt(head, sus, now, ids, i);
      assert IsSuspicious(sus[i - |head|].objectClass);
    }
  }

  /** Every event a frame emits is well formed, stamped with the frame's time
      and the id for its position, and never of a timer-fired kind. */
  lemma FrameEventsKinds(r: FaceReading, objects: Option<seq<Detection>>, now: int, ids: nat -> string)
    ensures AllWellFormed(FrameEvents(r, objects, now, ids))
    ensures var evs := FrameEvents(r, objects, now, ids);
      forall i :: 0 <= i < |evs| ==>
        evs[i].kind != FaceMissing && evs[i].kind != FocusLoss && evs[i].timestamp == now && evs[i].id == ids(i)
  {
    var evs := FrameEvents(r, objects, now, ids);
    forall i | 0 <= i < |evs|
      ensures WellFormed(evs[i]) && evs[i].kind != FaceMissing && evs[i].kind != FocusLoss
      ensures evs[i].timestamp == now && evs[i].id == ids(i)
    {
      FrameEventAt(r, objects, now, ids, i);
    }
  }

  lemma FrameEventAt(r: FaceReading, objects: Option<seq<Detection>>, now: int, ids: nat -> string, i: nat)
    requires i < |FrameEvents(r, objects, now, ids)|
    ensures var ev := FrameEvents(r, objects, now, ids)[i];
      WellFormed(ev) && ev.kind != FaceMissing && ev.kind != FocusLoss && ev.timestamp == now && ev.id == ids(i)
  {
    var head := FacesEvents(r, now, ids);
    var evs := FrameEvents(r, objects, now, ids);
    assert evs == head + ObjectEvents(FrameSuspicious(objects), now, ids, |head|);
    if i < |head| {
      assert i == 0 && evs[i] == MultipleFacesEvent(r.count, ids(0), now);
    } else {
      ObjectEventAt(head, FrameSuspicious(objects), now, ids, i);
    }
  }

  lemma ObjectEventAt(head: seq<DetectionEvent>, ds: seq<Detection>, now: int, ids: nat -> string, i: nat)
    requires |head| <= i < |head| + |ds|
    ensures (head + ObjectEvents(ds, now, ids, |head|))[i]
              == ObjectEvent(ds[i - |head|].objectClass, ds[i - |head|].score, ids(i), now)
  {
    var j := i - |head|;
    assert |head| + j == i;
  }

  /** The list `analyzeFrame` returns is exactly what it appended to the
      ledger, in order, and the score is the rule applied to those events in
      turn; nothing else of the session changes. */
  lemma AnalyzeAppendsReturned(st: ServiceState, frame: Frame, now: int, ids: nat -> string)
    requires st.session.Some?
    ensures var (st', evs) := AnalyzeFrame(st, frame, now, ids);
      st'.session == Some(st.session.value.(events := st.session.value.events + evs,
                                             integrityScore := ScoreAfter(st.session.value.integrityScore, evs)))
      && st'.initialized == st.initialized
  {
    if st.initialized && frame.faces.Some? {
      var r := frame.faces.value;
      var timed := st.(faceTimer := FaceTimerAfter(st.faceTimer, r.count, now),
                       focusTimer := FocusTimerAfter(st.focusTimer, r, now));
      AddEventsAppends(timed, FrameEvents(r, frame.objects, now, ids));
    } else {
      assert st.session.value.events + [] == st.session.value.events;
    }
  }

  /** After `analyzeFrame` each type's entry of `getEventCount` has grown by
      the number of events of that type in the returned list. */
  lemma AnalyzeCountsGrow(st: ServiceState, frame: Frame, now: int, ids: nat -> string)
    requires st.session.Some?
    ensures var (st', evs) := AnalyzeFrame(st, frame, now, ids);
      forall k :: Tally(EventCount(st'), k) == Tally(EventCount(st), k) + CountKind(evs, k)
  {
    AnalyzeAppendsReturned(st, frame, now, ids);
    var evs := AnalyzeFrame(st, frame, now, ids).1;
    forall k {
      CountKindConcat(st.session.value.events, evs, k);
    }
  }

  /** What `analyzeFrame` returns is well formed and never holds an event of a
      timer-fired kind (`face_missing`, `focus_loss`), whatever the state. */
  lemma AnalyzeReturnedKinds(st: ServiceState, frame: Frame, now: int, ids: nat -> string)
    ensures var evs := AnalyzeFrame(st, frame, now, ids).1;
      AllWellFormed(evs) && forall i :: 0 <= i < |evs| ==> evs[i].kind != FaceMissing && evs[i].kind != FocusLoss
  {
    if st.initialized && st.session.Some? && frame.faces.Some? {
      FrameEventsKinds(frame.faces.value, frame.objects, now, ids);
    }
  }

  /** The timers after a frame: a frame without faces arms the face timer if
      it is idle and emits nothing for it, keeping an earlier deadline; a frame
      with a face cancels it; the gaze timer follows the first face's verdict
      and is untouched by a frame without faces or keypoints. */
  lemma AnalyzeTimers(st: ServiceState, frame: Frame, now: int, ids: nat -> string)
    requires st.initialized && st.session.Some? && frame.faces.Some?
    ensures var st' := AnalyzeFrame(st, frame, now, ids).0;
      var r := frame.faces.value;
      (r.count == 0 && st.faceTimer.None? ==> st'.faceTimer == Some(now + FaceTimeoutMs))
      && (r.count == 0 && st.faceTimer.Some? ==> st'.faceTimer == st.faceTimer)
      && (r.count > 0 ==> st'.faceTimer.None?)
      && (r.count == 0 || r.firstFaceLookingAway.None? ==> st'.focusTimer == st.focusTimer)
      && (r.count > 0 && r.firstFaceLookingAway == Some(true) && st.focusTimer.None? ==>
            st'.focusTimer == Some(now + FocusTimeoutMs))
      && (r.count > 0 && r.firstFaceLookingAway == Some(true) && st.focusTimer.Some? ==>
            st'.focusTimer == st.focusTimer)
      && (r.count > 0 && r.firstFaceLookingAway == Some(false) ==> st'.focusTimer.None?)
  {
    var r := frame.faces.value;
    var timed := st.(faceTimer := FaceTimerAfter(st.faceTimer, r.count, now),
                     focusTimer := FocusTimerAfter(st.focusTimer, r, now));
    AddEventsAppends(timed, FrameEvents(r, frame.objects, now, ids));
  }

  /** `analyzeFrame` keeps the invariant. */
  lemma AnalyzeValid(st: ServiceState, frame: Frame, now: int, ids: nat -> string)
    requires Valid(st)
    ensures Valid(AnalyzeFrame(st, frame, now, ids).0)
  {
    if st.initialized && st.session.Some? && frame.faces.Some? {
      var r := frame.faces.value;
      var timed := st.(faceTimer := FaceTimerAfter(st.faceTimer, r.count, now),
                       focusTimer := FocusTimerAfter(st.focusTimer, r, now));
      FrameEventsKinds(r, frame.objects, now, ids);
      AddEventsLive(timed, FrameEvents(r, frame.objects, now, ids));
      AddEventsAppends(timed, FrameEvents(r, frame.objects, now, ids));
    }
  }

  // ---------------------------------------------------------------------------
  // Timer callbacks
  // ---------------------------------------------------------------------------

  /** Once due, the face timer appends exactly one high-severity
      `face_missing` event with a duration of 10 seconds, costs 10 points
      (floored at 0) and clears the timer; before its deadline nothing
      happens. */
  lemma FireFaceEffect(st: ServiceState, now: int, id: string)
    requires Valid(st)
    ensures var st' := FireFaceTimer(st, now, id);
      Valid(st') && st'.focusTimer == st.focusTimer
      && (st.faceTimer.Some? && st.faceTimer.value <= now ==>
            st'.faceTimer.None? && st.session.Some? && st'.session.Some?
            && st'.session.value.events == st.session.value.events + [FaceMissingEvent(id, now)]
            && st'.session.value.integrityScore == Max(0, st.session.value.integrityScore - 10))
      && (st.faceTimer.None? || now < st.faceTimer.value ==> st' == st)
  {
    if st.faceTimer.Some? && st.faceTimer.value <= now {
      var s, ev := st.session.value, FaceMissingEvent(id, now);
      AddOneLive(s, ev);
      assert FireFaceTimer(st, now, id)
        == st.(faceTimer := None, session := Some(s.(events := s.events + [ev],
                                                     integrityScore := Deduct(s.integrityScore, High))));
    }
  }

  /** Once due, the gaze timer appends exactly one medium-severity
      `focus_loss` event with a duration of 5 seconds, costs 5 points and
      clears the timer. */
  lemma FireFocusEffect(st: ServiceState, now: int, id: string)
    requires Valid(st)
    ensures var st' := FireFocusTimer(st, now, id);
      Valid(st') && st'.faceTimer == st.faceTimer
      && (st.focusTimer.Some? && st.focusTimer.value <= now ==>
            st'.focusTimer.None? && st.session.Some? && st'.session.Some?
            && st'.session.value.events == st.session.value.events + [FocusLossEvent(id, now)]
            && st'.session.value.integrityScore == Max(0, st.session.value.integrityScore - 5))
      && (st.focusTimer.None? || now < st.focusTimer.value ==> st' == st)
  {
    if st.focusTimer.Some? && st.focusTimer.value <= now {
      var s, ev := st.session.value, FocusLossEvent(id, now);
      AddOneLive(s, ev);
      assert FireFocusTimer(st, now, id)
        == st.(focusTimer := None, session := Some(s.(events := s.events + [ev],
                                                      integrityScore := Deduct(s.integrityScore, Medium))));
    }
  }

  /** One created event added to a live session leaves it live. */
  lemma AddOneLive(s: Session, ev: DetectionEvent)
    requires LiveSession(s) && WellFormed(ev)
    ensures LiveSession(s.(events := s.events + [ev], integrityScore := Deduct(s.integrityScore, ev.severity)))
  {
    var evs := s.events + [ev];
    assert evs[..|evs| - 1] == s.events;
    WellFormedSnoc(s.events, ev);
  }

  lemma WellFormedSnoc(evs: seq<DetectionEvent>, ev: DetectionEvent)
    requires AllWellFormed(evs) && WellFormed(ev)
    ensures AllWellFormed(evs + [ev])
  {
    var all := evs + [ev];
    forall i | 0 <= i < |all| ensures WellFormed(all[i]) {
      if i < |evs| { assert all[i] == evs[i]; }
    }
  }

  /** A fired timer does not fire again: a second callback run is a no-op
      until a later faceless frame re-arms the timer (`FaceTimerRearms`). */
  lemma FaceFiresOnce(st: ServiceState, t1: int, t2: int, id1: string, id2: string)
    ensures var st' := FireFaceTimer(st, t1, id1);
      st.faceTimer.Some? && st.faceTimer.value <= t1 ==> FireFaceTimer(st', t2, id2) == st'
  {
  }

  // ---------------------------------------------------------------------------
  // Runs of inputs
  // ---------------------------------------------------------------------------

  /** What can happen to a running service between `startSession` and
      `endSession`: a frame is analysed, or a timer callback runs. */
  datatype Input =
    | Analyze(frame: Frame, now: int, ids: nat -> string)
    | FireFace(now: int, id: string)
    | FireFocus(now: int, id: string)

  function Step(st: ServiceState, input: Input): ServiceState {
    match input
    case Analyze(frame, now, ids) => AnalyzeFrame(st, frame, now, ids).0
    case FireFace(now, id) => FireFaceTimer(st, now, id)
    case FireFocus(now, id) => FireFocusTimer(st, now, id)
  }

  function Run(st: ServiceState, inputs: seq<Input>): ServiceState {
    if inputs == [] then st else Step(Run(st, inputs[..|inputs| - 1]), inputs[|inputs| - 1])
  }

  /** Over any run of frames and timer callbacks the session stays, its
      ledger only grows at the end, the score never rises, and the invariant
      holds throughout. */
  lemma {:induction false} RunAppendOnly(st: ServiceState, inputs: seq<Input>)
    requires Valid(st) && st.session.Some?
    ensures var st' := Run(st, inputs);
      Valid(st') && st'.session.Some?
      && st.session.value.events <= st'.session.value.events
      && st'.session.value.integrityScore <= st.session.value.integrityScore
      && st'.session.value.candidateName == st.session.value.candidateName
      && st'.session.value.startTime == st.session.value.startTime
  {
    if inputs != [] {
      var mid := Run(st, inputs[..|inputs| - 1]);
      RunAppendOnly(st, inputs[..|inputs| - 1]);
      ScoreInRange(mid);
      var s := mid.session.value;
      match inputs[|inputs| - 1]
      case Analyze(frame, now, ids) =>
        AnalyzeValid(mid, frame, now, ids);
        AnalyzeAppendsReturned(mid, frame, now, ids);
        ScoreAfterBounds(s.integrityScore, AnalyzeFrame(mid, frame, now, ids).1);
      case FireFace(now, id) =>
        FireFaceEffect(mid, now, id);
      case FireFocus(now, id) =>
        FireFocusEffect(mid, now, id);
    }
  }

  /** A frame without faces whose face detection succeeded. */
  function NoFaceFrame(now: int, ids: nat -> string): Input {
    Analyze(Frame(Some(FaceReading(0, None)), Some([])), now, ids)
  }

  /** Faceless frames at the given times, in order. */
  function NoFaceFrames(times: seq<int>, ids: nat -> string): (inputs: seq<Input>)
    ensures |inputs| == |times|
  {
    if times == [] then [] else NoFaceFrames(times[..|times| - 1], ids) + [NoFaceFrame(times[|times| - 1], ids)]
  }

  /** A run of faceless frames keeps the deadline set by the first of them:
      later frames neither re-arm nor postpone it, and none of them records an
      event. */
  lemma {:induction false} NoFaceRunKeepsDeadline(st: ServiceState, times: seq<int>, ids: nat -> string)
    requires st.initialized && st.session.Some? && st.faceTimer.None? && times != []
    ensures var st' := Run(st, NoFaceFrames(times, ids));
      st'.faceTimer == Some(times[0] + FaceTimeoutMs) && st'.session == st.session
      && st'.focusTimer == st.focusTimer && st'.initialized == st.initialized
  {
    var front := times[..|times| - 1];
    var last := NoFaceFrame(times[|times| - 1], ids);
    RunSnoc(st, NoFaceFrames(front, ids), last);
    if |times| == 1 {
      assert NoFaceFrames(front, ids) == [];
      NoFaceStep(st, times[0], ids);
    } else {
      NoFaceRunKeepsDeadline(st, front, ids);
      var mid := Run(st, NoFaceFrames(front, ids));
      NoFaceStep(mid, times[|times| - 1], ids);
      assert front[0] == times[0];
    }
  }

  /** Once the face timer has fired, the next faceless frame arms it afresh
      from that frame's time: an absence that goes on records one
      `face_missing` event per timeout, not one per absence. */
  lemma FaceTimerRearms(st: ServiceState, t1: int, id: string, t2: int, ids: nat -> string)
    requires st.initialized && st.session.Some? && st.faceTimer.Some? && st.faceTimer.value <= t1
    ensures var st1 := FireFaceTimer(st, t1, id);
      var st2 := Step(st1, NoFaceFrame(t2, ids));
      st1.faceTimer.None? && st2.faceTimer == Some(t2 + FaceTimeoutMs) && st2.session == st1.session
  {
    var st1 := FireFaceTimer(st, t1, id);
    assert st1.initialized && st1.session.Some?;
    NoFaceStep(st1, t2, ids);
  }

  /** An absence of 21 seconds, seen by faceless frames at its start and
      just after the first event, records two `face_missing` events. */
  lemma LongerAbsenceRecordsTwice(name: string, t: int, ids: nat -> string, id1: string, id2: string)
    ensures var st0 := StartSession(Initialize(Initial(), true).0, name, t);
      var inputs := [NoFaceFrame(t, ids), FireFace(t + 10000, id1), NoFaceFrame(t + 11000, ids),
                     FireFace(t + 21000, id2), NoFaceFrame(t + 22000, ids)];
      var st' := Run(st0, inputs);
      st'.session.Some?
      && st'.session.value.events == [FaceMissingEvent(id1, t + 10000), FaceMissingEvent(id2, t + 21000)]
      && st'.session.value.integrityScore == 80 && st'.faceTimer == Some(t + 32000)
  {
    var st0 := StartSession(Initialize(Initial(), true).0, name, t);
    RunFive(st0, NoFaceFrame(t, ids), FireFace(t + 10000, id1), NoFaceFrame(t + 11000, ids),
            FireFace(t + 21000, id2), NoFaceFrame(t + 22000, ids));
    var s0 := st0.session.value;
    var e1, e2 := FaceMissingEvent(id1, t + 10000), FaceMissingEvent(id2, t + 21000);
    FaceCycle(st0, t, id1, ids);
    var st2 := Step(Step(st0, NoFaceFrame(t, ids)), FireFace(t + 10000, id1));
    assert [] + [e1] == [e1] && Deduct(100, High) == 90;
    assert st2 == st0.(session := Some(s0.(events := [e1], integrityScore := 90)));
    FaceCycle(st2, t + 11000, id2, ids);
    var st4 := Step(Step(st2, NoFaceFrame(t + 11000, ids)), FireFace(t + 21000, id2));
    assert [e1] + [e2] == [e1, e2] && Deduct(90, High) == 80;
    assert st4 == st0.(session := Some(s0.(events := [e1, e2], integrityScore := 80)));
    NoFaceStep(st4, t + 22000, ids);
  }

  /** A faceless frame on a running session without a pending face timer,
      then the callback at the deadline: one `face_missing` event, and the
      timer is idle again. */
  lemma FaceCycle(st: ServiceState, t: int, id: string, ids: nat -> string)
    requires st.initialized && st.session.Some? && st.faceTimer.None?
    ensures var s := st.session.value;
      Step(Step(st, NoFaceFrame(t, ids)), FireFace(t + FaceTimeoutMs, id))
      == st.(session := Some(s.(events := s.events + [FaceMissingEvent(id, t + FaceTimeoutMs)],
                                integrityScore := Deduct(s.integrityScore, High))))
  {
    NoFaceStep(st, t, ids);
    FireFaceOnto(Step(st, NoFaceFrame(t, ids)), t + FaceTimeoutMs, id);
  }

  /** The face callback at or after its deadline, on a running session. */
  lemma FireFaceOnto(st: ServiceState, now: int, id: string)
    requires st.session.Some? && st.faceTimer.Some? && st.faceTimer.value <= now
    ensures var s := st.session.value;
      Step(st, FireFace(now, id))
      == st.(faceTimer := None, session := Some(s.(events := s.events + [FaceMissingEvent(id, now)],
                                                   integrityScore := Deduct(s.integrityScore, High))))
  {
  }

  lemma RunSnoc(st: ServiceState, inputs: seq<Input>, x: Input)
    ensures Run(st, inputs + [x]) == Step(Run(st, inputs), x)
  {
    assert (inputs + [x])[..|inputs|] == inputs;
  }

  lemma RunFive(st: ServiceState, a: Input, b: Input, c: Input, d: Input, e: Input)
    ensures Run(st, [a, b, c, d, e]) == Step(Step(Step(Step(Step(st, a), b), c), d), e)
  {
    assert [a] == [] + [a];
    RunSnoc(st, [], a);
    RunSnoc(st, [a], b);
    RunSnoc(st, [a, b], c);
    RunSnoc(st, [a, b, c], d);
    RunSnoc(st, [a, b, c, d], e);
    assert [a] + [b] == [a, b];
    assert [a, b] + [c] == [a, b, c];
    assert [a, b, c] + [d] == [a, b, c, d];
    assert [a, b, c, d] + [e] == [a, b, c, d, e];
  }

  /** A faceless frame only (possibly) arms the face timer. */
  lemma NoFaceStep(st: ServiceState, now: int, ids: nat -> string)
    requires st.initialized && st.session.Some?
    ensures Step(st, NoFaceFrame(now, ids)) == st.(faceTimer := FaceTimerAfter(st.faceTimer, 0, now))
  {
    assert FrameEvents(FaceReading(0, None), Some([]), now, ids) == [];
  }

  /** A frame with one face and no objects only cancels the face timer. */
  lemma OneFaceStep(st: ServiceState, now: int, ids: nat -> string)
    requires st.initialized && st.session.Some?
    ensures Step(st, Analyze(Frame(Some(FaceReading(1, None)), Some([])), now, ids)) == st.(faceTimer := None)
  {
    assert FrameEvents(FaceReading(1, None), Some([]), now, ids) == [];
  }

  /** The debounce in one scenario: faceless frames at t, t+4 s and t+8 s,
      the face timer's callback attempted at t+9 s (before its deadline),
      then a frame with one face at t+9.5 s: the timer is cancelled, no
      `face_missing` event is recorded and the session ends with no events
      and a score of 100. */
  lemma ShortAbsenceRecordsNothing(name: string, t: int, ids: nat -> string, id: string)
    ensures var st0 := StartSession(Initialize(Initial(), true).0, name, t);
      var inputs := [NoFaceFrame(t, ids), NoFaceFrame(t + 4000, ids), NoFaceFrame(t + 8000, ids),
                     FireFace(t + 9000, id),
                     Analyze(Frame(Some(FaceReading(1, None)), Some([])), t + 9500, ids)];
      var st' := Run(st0, inputs);
      st'.faceTimer.None?
      && EndSession(st', t + 10000).1 == Some(Session(name, t, Some(t + 10000), [], 100, false))
  {
    var st0 := StartSession(Initialize(Initial(), true).0, name, t);
    var face := Analyze(Frame(Some(FaceReading(1, None)), Some([])), t + 9500, ids);
    RunFive(st0, NoFaceFrame(t, ids), NoFaceFrame(t + 4000, ids), NoFaceFrame(t + 8000, ids),
            FireFace(t + 9000, id), face);
    NoFaceStep(st0, t, ids);
    var st1 := Step(st0, NoFaceFrame(t, ids));
    assert st1 == st0.(faceTimer := Some(t + 10000));
    NoFaceStep(st1, t + 4000, ids);
    var st2 := Step(st1, NoFaceFrame(t + 4000, ids));
    assert st2 == st1;
    NoFaceStep(st2, t + 8000, ids);
    var st3 := Step(st2, NoFaceFrame(t + 8000, ids));
    assert st3 == st1;
    var st4 := Step(st3, FireFace(t + 9000, id));
    assert st4 == st1;
    OneFaceStep(st4, t + 9500, ids);
  }

  /** The same frames with the callback run at the deadline record exactly one
      `face_missing` event, at a cost of 10 points; the callback run again a
      second later does nothing. */
  lemma LongAbsenceRecordsOnce(name: string, t: int, ids: nat -> string, id: string)
    ensures var st0 := StartSession(Initialize(Initial(), true).0, name, t);
      var inputs := [NoFaceFrame(t, ids), NoFaceFrame(t + 4000, ids), NoFaceFrame(t + 8000, ids),
                     FireFace(t + 10000, id), FireFace(t + 11000, id)];
      var st' := Run(st0, inputs);
      st'.session.Some? && st'.session.value.events == [FaceMissingEvent(id, t + 10000)]
      && st'.session.value.integrityScore == 90 && st'.faceTimer.None?
  {
    var st0 := StartSession(Initialize(Initial(), true).0, name, t);
    RunFive(st0, NoFaceFrame(t, ids), NoFaceFrame(t + 4000, ids), NoFaceFrame(t + 8000, ids),
            FireFace(t + 10000, id), FireFace(t + 11000, id));
    NoFaceStep(st0, t, ids);
    var st1 := Step(st0, NoFaceFrame(t, ids));
    assert st1 == st0.(faceTimer := Some(t + 10000));
    NoFaceStep(st1, t + 4000, ids);
    var st2 := Step(st1, NoFaceFrame(t + 4000, ids));
    assert st2 == st1;
    NoFaceStep(st2, t + 8000, ids);
    var st3 := Step(st2, NoFaceFrame(t + 8000, ids));
    assert st3 == st1;
    var st4 := Step(st3, FireFace(t + 10000, id));
    assert st4 == AddEvent(st3.(faceTimer := None), FaceMissingEvent(id, t + 10000));
    assert [] + [FaceMissingEvent(id, t + 10000)] == [FaceMissingEvent(id, t + 10000)];
    assert Deduct(100, High) == 90;
    assert st4.session == Some(Session(name, t, None, [FaceMissingEvent(id, t + 10000)], 90, false));
    assert Step(st4, FireFace(t + 11000, id)) == st4;
  }
}
