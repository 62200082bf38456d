/** `ProctoringService` (proctoring.service.ts) as a class whose fields the
    operations update in place. Each public operation is proved to carry out
    a `SessionEngine` function, where the engine's guarantees are proved: the
    function of the same name, except `AddEventToSession`, which carries out
    `AddEvent`. All but `AddEventToSession` (which accepts any event)
    keep the engine invariant. The two halves of `analyzeFrame`,
    `AnalyzeFaces` and `RecordObjects`, are proved against `FacesEvents` and
    `ObjectEvents` applied with `AddEvents`. */
module Proctoring {
  import opened Wrappers
  import opened Events
  import opened Labels
  import SessionEngine

  class ProctoringService {
    var isInitialized: bool
    var currentSession: Option<SessionEngine.Session>
    /** Deadline of the pending face-absence `setTimeout`, if any. */
    var faceTimer: Option<int>
    /** Deadline of the pending gaze `setTimeout`, if any. */
    var focusTimer: Option<int>

    /** The fields as one value. */
    function State(): SessionEngine.ServiceState
      reads this
    {
      SessionEngine.ServiceState(isInitialized, currentSession, faceTimer, focusTimer)
    }

    ghost predicate Valid()
      reads this
    {
      SessionEngine.Valid(State())
    }

    constructor ()
      ensures State() == SessionEngine.Initial() && Valid()
    {
      isInitialized := false;
      currentSession := None;
      faceTimer := None;
      focusTimer := None;
    }

    /** `initialize`, with the model loading reduced to whether it succeeded;
        `ok` is false where the TypeScript method throws. */
    method Initialize(loaded: bool) returns (ok: bool)
      modifies this
      ensures (State(), ok) == SessionEngine.Initialize(old(State()), loaded)
      ensures old(Valid()) ==> Valid()
    {
      if isInitialized {
        return true;
      }
      if !loaded {
        return false;
      }
      isInitialized := true;
      ok := true;
    }

    /** `startSession`: overwrites any current session; the timers stay. */
    method StartSession(candidateName: string, now: int)
      modifies this
      ensures State() == SessionEngine.StartSession(old(State()), candidateName, now)
      ensures old(Valid()) ==> Valid()
    {
      currentSession := Some(SessionEngine.Session(candidateName, now, None, [], 100, false));
    }

    /** `endSession`. */
    method EndSession(now: int) returns (session: Option<SessionEngine.Session>)
      modifies this
      ensures (State(), session) == SessionEngine.EndSession(old(State()), now)
      ensures old(Valid()) ==> Valid()
    {
      if currentSession.Some? {
        var s := currentSession.value.(endTime := Some(now), isRecording := false);
        if focusTimer.Some? {
          focusTimer := None;
        }
        if faceTimer.Some? {
          faceTimer := None;
        }
        currentSession := None;
        return Some(s);
      }
      return None;
    }

    /** `getCurrentSession`: the session held, which under the invariant is
        open, not recording and scored within [0, 100]. */
    method GetCurrentSession() returns (session: Option<SessionEngine.Session>)
      ensures session == currentSession
      ensures Valid() && session.Some? ==>
                session.value.endTime.None? && !session.value.isRecording
                && 0 <= session.value.integrityScore <= 100
    {
      if Valid() && currentSession.Some? {
        SessionEngine.ScoreInRange(State());
      }
      session := currentSession;
    }

    /** `addEventToSession`. */
    method AddEventToSession(ev: DetectionEvent)
      modifies this
      ensures State() == SessionEngine.AddEvent(old(State()), ev)
    {
      if currentSession.Some? {
        var s := currentSession.value;
        var deduction := if ev.severity == High then 10 else if ev.severity == Medium then 5 else 2;
        currentSession := Some(s.(events := s.events + [ev],
                                  integrityScore := Max(0, s.integrityScore - deduction)));
      }
    }

    /** `analyzeFrame`, fed the perception results of the frame. */
    method AnalyzeFrame(frame: SessionEngine.Frame, now: int, ids: nat -> string)
      returns (events: seq<DetectionEvent>)
      modifies this
      ensures (State(), events) == SessionEngine.AnalyzeFrame(old(State()), frame, now, ids)
      ensures old(Valid()) ==> Valid()
    {
      if Valid() {
        SessionEngine.AnalyzeValid(State(), frame, now, ids);
      }
      if !isInitialized || currentSession.None? || frame.faces.None? {
        return [];
      }
      ghost var st0 := State();
      var faces := frame.faces.value;
      events := AnalyzeFaces(faces, now, ids);
      ghost var timed := st0.(faceTimer := SessionEngine.FaceTimerAfter(st0.faceTimer, faces.count, now),
                              focusTimer := SessionEngine.FocusTimerAfter(st0.focusTimer, faces, now));
      var suspicious := if frame.objects.Some? then SuspiciousDetections(frame.objects.value) else [];
      var recorded := RecordObjects(suspicious, now, ids, |events|);
      SessionEngine.AddEventsConcat(timed, events, recorded);
      events := events + recorded;
    }

    /** The face half of `analyzeFrame`: the two debounce timers and the
        `multiple_faces` event, in the order the TypeScript method runs them. */
    method AnalyzeFaces(faces: SessionEngine.FaceReading, now: int, ids: nat -> string)
      returns (events: seq<DetectionEvent>)
      modifies this
      ensures events == SessionEngine.FacesEvents(faces, now, ids)
      ensures State() == SessionEngine.AddEvents(
                old(State()).(faceTimer := SessionEngine.FaceTimerAfter(old(faceTimer), faces.count, now),
                              focusTimer := SessionEngine.FocusTimerAfter(old(focusTimer), faces, now)),
                events)
    {
      events := [];
      if faces.count == 0 {
        if faceTimer.None? {
          faceTimer := Some(now + SessionEngine.FaceTimeoutMs);
        }
        return;
      }
      if faceTimer.Some? {
        faceTimer := None;
      }
      if faces.count > 1 {
        var ev := MultipleFacesEvent(faces.count, ids(0), now);
        events := [ev];
        AddEventToSession(ev);
      }
      if faces.firstFaceLookingAway.Some? {
        if faces.firstFaceLookingAway.value {
          if focusTimer.None? {
            focusTimer := Some(now + SessionEngine.FocusTimeoutMs);
          }
        } else if focusTimer.Some? {
          focusTimer := None;
        }
      }
      assert events != [] ==> events[..0] == [];
    }

    /** The object half of `analyzeFrame`: one `unauthorized_object` event per
        suspicious detection, each recorded as it is created; `offset` is the
        number of events the call created before. */
    method RecordObjects(suspicious: seq<Detection>, now: int, ids: nat -> string, offset: nat)
      returns (recorded: seq<DetectionEvent>)
      modifies this
      ensures recorded == SessionEngine.ObjectEvents(suspicious, now, ids, offset)
      ensures State() == SessionEngine.AddEvents(old(State()), recorded)
    {
      ghost var st0 := State();
      ghost var all := SessionEngine.ObjectEvents(suspicious, now, ids, offset);
      recorded := [];
      var i := 0;
      while i < |suspicious|
        invariant 0 <= i <= |suspicious|
        invariant recorded == all[..i]
        invariant State() == SessionEngine.AddEvents(st0, recorded)
      {
        var ev := ObjectEvent(suspicious[i].objectClass, suspicious[i].score, ids(offset + i), now);
        assert all[..i + 1] == all[..i] + [ev];
        ghost var before := recorded;
        recorded := recorded + [ev];
        assert recorded[..|recorded| - 1] == before;
        AddEventToSession(ev);
        i := i + 1;
      }
      assert all[..i] == all;
    }

    /** The face-absence `setTimeout` callback, run at time `now`. (It also
        pushes the event onto the `events` array of the `analyzeFrame` call
        that armed it, which has returned by then.) */
    method FireFaceTimer(now: int, id: string)
      modifies this
      ensures State() == SessionEngine.FireFaceTimer(old(State()), now, id)
      ensures old(Valid()) ==> Valid()
    {
      if Valid() {
        SessionEngine.FireFaceEffect(State(), now, id);
      }
      if faceTimer.Some? && faceTimer.value <= now {
        var ev := FaceMissingEvent(id, now);
        AddEventToSession(ev);
        faceTimer := None;
      }
    }

    /** The gaze `setTimeout` callback, run at time `now`. */
    method FireFocusTimer(now: int, id: string)
      modifies this
      ensures State() == SessionEngine.FireFocusTimer(old(State()), now, id)
      ensures old(Valid()) ==> Valid()
    {
      if Valid() {
        SessionEngine.FireFocusEffect(State(), now, id);
      }
      if focusTimer.Some? && focusTimer.value <= now {
        var ev := FocusLossEvent(id, now);
        AddEventToSession(ev);
        focusTimer := None;
      }
    }

    /** `getIntegrityScore`: 100 without a session and when the score is 0,
        otherwise the session's score; always in (0, 100]. */
    method GetIntegrityScore() returns (score: int)
      ensures score == SessionEngine.IntegrityScore(State())
      ensures Valid() ==> 0 < score <= 100
      ensures currentSession.Some? && currentSession.value.integrityScore != 0 ==>
                score == currentSession.value.integrityScore
    {
      if Valid() && currentSession.Some? {
        SessionEngine.ScoreInRange(State());
      }
      if currentSession.Some? && currentSession.value.integrityScore != 0 {
        score := currentSession.value.integrityScore;
      } else {
        score := 100;
      }
    }

    /** `getEventCount`: `{}` without a session; otherwise a key for each
        event type in the ledger, bound to the number of its events. */
    method GetEventCount() returns (counts: map<EventType, nat>)
      ensures counts == SessionEngine.EventCount(State())
      ensures currentSession.None? ==> counts == map[]
      ensures currentSession.Some? ==>
                forall k :: (k in counts <==> CountKind(currentSession.value.events, k) > 0)
                            && Tally(counts, k) == CountKind(currentSession.value.events, k)
    {
      if currentSession.None? {
        return map[];
      }
      var events := currentSession.value.events;
      counts := map[];
      assert events[..0] == [];
      assert counts == KindCounts(events[..0]);
      var i := 0;
      while i < |events|
        invariant 0 <= i <= |events|
        invariant counts == KindCounts(events[..i])
      {
        var kind := events[i].kind;
        KindCountsSnoc(events[..i], events[i]);
        assert events[..i + 1] == events[..i] + [events[i]];
        counts := counts[kind := (if kind in counts then counts[kind] else 0) + 1];
        i := i + 1;
      }
      assert events[..i] == events;
    }
  }
}
