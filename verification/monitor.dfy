/** `InterviewMonitorComponent`, in its two copies
    (components/interview-monitor.component.ts and
    app/interview-screen/interview-screen.ts, which differ only in their
    notification calls): the display helpers as functions over the
    component's fields, the report record, and the component itself as a
    class whose start, end and analysis-tick operations update its fields
    and drive a `ProctoringService`. */
module Monitor {
  import opened Wrappers
  import opened Text
  import opened Events
  import SessionEngine
  import Proctoring

  // ---------------------------------------------------------------------------
  // Score banding
  // ---------------------------------------------------------------------------

  /** `getScoreClass`. */
  function ScoreClass(score: int): (c: string)
    ensures c == "score-excellent" <==> 80 <= score
    ensures c == "score-good" <==> 60 <= score < 80
    ensures c == "score-poor" <==> score < 60
  {
    if score >= 80 then "score-excellent" else if score >= 60 then "score-good" else "score-poor"
  }

  /** The bands, worst first. */
  function BandRank(c: string): nat {
    if c == "score-excellent" then 2 else if c == "score-good" then 1 else 0
  }

  /** A higher score never shows a worse band. */
  lemma ScoreClassMonotone(a: int, b: int)
    requires a <= b
    ensures BandRank(ScoreClass(a)) <= BandRank(ScoreClass(b))
  {
  }

  /** A session whose score has been driven to 0 is shown in the best band,
      because `getIntegrityScore` reports it as 100. */
  lemma ExhaustedSessionShowsExcellent(st: SessionEngine.ServiceState)
    requires st.session.Some? && st.session.value.integrityScore == 0
    ensures ScoreClass(SessionEngine.IntegrityScore(st)) == "score-excellent"
  {
    SessionEngine.ExhaustedScoreReadsFull(st);
  }

  // ---------------------------------------------------------------------------
  // Status panels
  // ---------------------------------------------------------------------------

  /** The `{ class, text }` record the status helpers return. */
  datatype Status = Status(cls: string, text: string)

  predicate HasKind(evs: seq<DetectionEvent>, k: EventType) {
    exists i :: 0 <= i < |evs| && evs[i].kind == k
  }

  /** `evs.filter(e => e.type === k).slice(-1)`: the last event of kind `k`. */
  function LastOfKind(evs: seq<DetectionEvent>, k: EventType): (r: Option<DetectionEvent>)
    ensures r.None? <==> !HasKind(evs, k)
    ensures r.Some? ==> r.value.kind == k
    ensures r.Some? ==>
      exists i :: 0 <= i < |evs| && evs[i] == r.value && forall j :: i < j < |evs| ==> evs[j].kind != k
  {
    if evs == [] then None
    else if evs[|evs| - 1].kind == k then Some(evs[|evs| - 1])
    else
      var r := LastOfKind(evs[..|evs| - 1], k);
      assert forall i :: 0 <= i < |evs| - 1 ==> evs[..|evs| - 1][i] == evs[i];
      r
  }

  /** `getFaceStatus`: a `face_missing` event anywhere in the list takes
      priority over a `multiple_faces` one. */
  function FaceStatus(evs: seq<DetectionEvent>): (s: Status)
    ensures s.text == "No Face Detected" <==> HasKind(evs, FaceMissing)
    ensures s.text == "Multiple Faces" <==> !HasKind(evs, FaceMissing) && HasKind(evs, MultipleFaces)
    ensures s == Status("status-good", "Face Detected") <==>
      !HasKind(evs, FaceMissing) && !HasKind(evs, MultipleFaces)
  {
    if LastOfKind(evs, FaceMissing).Some? then Status("status-danger", "No Face Detected")
    else if LastOfKind(evs, MultipleFaces).Some? then Status("status-warning", "Multiple Faces")
    else Status("status-good", "Face Detected")
  }

  /** `getFocusStatus`. */
  function FocusStatus(evs: seq<DetectionEvent>): (s: Status)
    ensures s.text == "Looking Away" <==> HasKind(evs, FocusLoss)
    ensures s == Status("status-good", "Focused") <==> !HasKind(evs, FocusLoss)
  {
    if LastOfKind(evs, FocusLoss).Some? then Status("status-warning", "Looking Away")
    else Status("status-good", "Focused")
  }

  /** `${event.details?.object}`: the class of an object event, "undefined"
      for details without one. */
  function ObjectText(d: Details): string {
    if d.ObjectSeen? then d.objectClass else "undefined"
  }

  /** `getObjectStatus`: names the class of the most recent
      `unauthorized_object` event. */
  function ObjectStatus(evs: seq<DetectionEvent>): (s: Status)
    ensures !HasKind(evs, UnauthorizedObject) <==> s == Status("status-good", "No Objects")
    ensures HasKind(evs, UnauthorizedObject) ==> s.cls == "status-danger"
    ensures HasKind(evs, UnauthorizedObject) ==>
      exists i :: 0 <= i < |evs| && evs[i].kind == UnauthorizedObject &&
        s.text == ObjectText(evs[i].details) + " Detected" &&
        forall j :: i < j < |evs| ==> evs[j].kind != UnauthorizedObject
  {
    match LastOfKind(evs, UnauthorizedObject)
    case Some(ev) => Status("status-danger", ObjectText(ev.details) + " Detected")
    case None => Status("status-good", "No Objects")
  }

  /** Every object event `analyzeFrame` creates carries its class, so the
      panel never reads "undefined Detected" on a list of created events. */
  lemma ObjectStatusNamesClass(evs: seq<DetectionEvent>)
    requires AllWellFormed(evs) && HasKind(evs, UnauthorizedObject)
    ensures exists i ::
              0 <= i < |evs| && evs[i].kind == UnauthorizedObject && evs[i].details.ObjectSeen? &&
              ObjectStatus(evs).text == evs[i].details.objectClass + " Detected"
  {
    var ev := LastOfKind(evs, UnauthorizedObject).value;
    var i :| 0 <= i < |evs| && evs[i] == ev;
    assert WellFormed(evs[i]);
  }

  /** A list without timer-fired events, such as `recentEvents`. */
  predicate NoTimerKinds(evs: seq<DetectionEvent>) {
    forall i :: 0 <= i < |evs| ==> evs[i].kind != FaceMissing && evs[i].kind != FocusLoss
  }

  /** On such a list the face panel never says "No Face Detected" and the
      focus panel always says "Focused". */
  lemma TimerStatusesUnreachable(evs: seq<DetectionEvent>)
    requires NoTimerKinds(evs)
    ensures FaceStatus(evs).text != "No Face Detected"
    ensures FocusStatus(evs) == Status("status-good", "Focused")
  {
  }

  // ---------------------------------------------------------------------------
  // Report duration
  // ---------------------------------------------------------------------------

  /** `Math.floor(diff / 60000)`; Dafny's `/` by a positive divisor floors. */
  function ReportMinutes(diff: int): int {
    diff / 60000
  }

  /** `Math.floor((diff % 60000) / 1000)`, with JavaScript's `%`. */
  function ReportSeconds(diff: int): int {
    JsRem(diff, 60000) / 1000
  }

  /** The two fields of a non-negative difference: whole minutes, then whole
      seconds below 60, together falling short of `diff` by less than a
      second. A negative difference has a negative minutes field and a
      seconds field in [-60, 0]. */
  lemma ReportFieldsBounds(diff: int)
    ensures diff >= 0 ==> 0 <= ReportSeconds(diff) < 60 && 0 <= ReportMinutes(diff)
    ensures diff >= 0 ==>
      ReportMinutes(diff) * 60000 + ReportSeconds(diff) * 1000 <= diff < ReportMinutes(diff) * 60000 + ReportSeconds(diff) * 1000 + 1000
    ensures diff < 0 ==> -60 <= ReportSeconds(diff) <= 0 && ReportMinutes(diff) < 0
  {
    var q := diff / 60000;
    var r := JsRem(diff, 60000);
    var s := r / 1000;
    assert r == s * 1000 + r % 1000;
    if diff >= 0 {
      assert diff == q * 60000 + r;
    }
  }

  /** `n.toString().padStart(2, '0')` */
  function FieldText(n: int): string {
    PadStart(IntToString(n), 2, '0')
  }

  /** `${minutes.toString().padStart(2, '0')}:${seconds.toString().padStart(2, '0')}` */
  function MinutesSeconds(diff: int): string {
    FieldText(ReportMinutes(diff)) + ":" + FieldText(ReportSeconds(diff))
  }

  /** `getReportDuration`: "00:00" without a completed session or without its
      end time, otherwise the minutes and seconds from start to end. */
  function ReportDuration(completed: Option<SessionEngine.Session>): string {
    if completed.None? || completed.value.endTime.None? then "00:00"
    else MinutesSeconds(Elapsed(completed.value))
  }

  /** Milliseconds from the start of a session to its end. */
  function Elapsed(s: SessionEngine.Session): int
    requires s.endTime.Some?
  {
    s.endTime.value - s.startTime
  }

  /** For a completed session that ended no earlier than it started, the
      report duration reads back as the whole minutes and the seconds below
      60 of the time from start to end. */
  lemma ReportDurationReadsBack(completed: Option<SessionEngine.Session>)
    requires completed.Some? && completed.value.endTime.Some?
    requires completed.value.endTime.value >= completed.value.startTime
    ensures var diff := Elapsed(completed.value);
      ReadsBackAs(ReportDuration(completed), ReportMinutes(diff), ReportSeconds(diff))
  {
    EndedDuration(completed);
    ReadsBackOf(ReportDuration(completed), Elapsed(completed.value));
  }

  lemma EndedDuration(completed: Option<SessionEngine.Session>)
    requires completed.Some? && completed.value.endTime.Some?
    ensures ReportDuration(completed) == MinutesSeconds(Elapsed(completed.value))
  {
  }

  lemma ReadsBackOf(d: string, diff: int)
    requires diff >= 0 && d == MinutesSeconds(diff)
    ensures ReadsBackAs(d, ReportMinutes(diff), ReportSeconds(diff))
  {
    MinutesSecondsReadsBack(diff);
  }

  /** A padded field of a natural number is at least two digits (exactly two
      below 100) and reads back as the number. */
  lemma PaddedDigits(n: nat)
    ensures var p := FieldText(n);
      |p| >= 2 && (n < 100 ==> |p| == 2) && AllDigits(p) && DigitsValue(p) == n
  {
    var t := NatToString(n);
    assert FieldText(n) == PadStart(t, 2, '0');
    PadZerosValue(t);
    NatToStringRoundTrip(n);
  }

  /** `d` reads back as "minutes:seconds" with the values `m` and `sec`: at
      least two digits, a colon, exactly two digits. */
  predicate ReadsBackAs(d: string, m: int, sec: int) {
    |d| >= 5 && d[|d| - 3] == ':'
    && AllDigits(d[..|d| - 3]) && AllDigits(d[|d| - 2..])
    && DigitsValue(d[..|d| - 3]) == m && DigitsValue(d[|d| - 2..]) == sec
  }

  lemma SplitReadsBack(d: string, mm: string, ss: string, m: nat, sec: nat)
    requires d == mm + ":" + ss && |mm| >= 2 && |ss| == 2
    requires AllDigits(mm) && AllDigits(ss) && DigitsValue(mm) == m && DigitsValue(ss) == sec
    ensures ReadsBackAs(d, m, sec)
  {
    assert d[..|d| - 3] == mm;
    assert d[|d| - 2..] == ss;
  }

  /** For a non-negative difference the text is at least two digits of
      minutes, a colon and exactly two digits of seconds, and reading the
      digits back gives the two fields. */
  lemma MinutesSecondsReadsBack(diff: int)
    requires diff >= 0
    ensures ReadsBackAs(MinutesSeconds(diff), ReportMinutes(diff), ReportSeconds(diff))
  {
    ReportFieldsBounds(diff);
    var m: nat := ReportMinutes(diff);
    var sec: nat := ReportSeconds(diff);
    PaddedDigits(m);
    PaddedDigits(sec);
    SplitReadsBack(MinutesSeconds(diff), FieldText(m), FieldText(sec), m, sec);
  }

  lemma FieldTextOneDigit(n: nat)
    requires n < 10
    ensures FieldText(n) == ['0', DigitChar(n)]
  {
    assert PadStart([DigitChar(n)], 2, '0') == PadStart(['0', DigitChar(n)], 2, '0');
  }

  /** The fields are the only such decomposition: whole minutes and whole
      seconds below 60 that fall short of `diff` by less than a second are
      the ones `getReportDuration` computes. */
  lemma FieldsUnique(diff: int, m: int, sec: int)
    requires 0 <= m && 0 <= sec < 60
    requires m * 60000 + sec * 1000 <= diff < m * 60000 + sec * 1000 + 1000
    ensures ReportMinutes(diff) == m && ReportSeconds(diff) == sec
  {
    assert diff == m * 60000 + (diff - m * 60000);
    assert diff % 60000 == diff - m * 60000;
  }

  lemma MinutesSecondsOf(diff: int, m: int, sec: int)
    requires ReportMinutes(diff) == m && ReportSeconds(diff) == sec
    ensures MinutesSeconds(diff) == FieldText(m) + ":" + FieldText(sec)
  {
  }

  /** 125 to 126 s shows as "02:05": the fraction of a second is dropped. */
  lemma MinuteDurationExample(diff: int)
    requires 125000 <= diff < 126000
    ensures MinutesSeconds(diff) == "02:05"
  {
    FieldsUnique(diff, 2, 5);
    MinutesSecondsOf(diff, 2, 5);
    FieldTextOneDigit(2);
    FieldTextOneDigit(5);
    assert DigitChar(2) == '2' && DigitChar(5) == '5';
  }

  /** An hour and a second shows as "60:01": minutes are not carried into
      hours. */
  lemma HourDurationExample(diff: int)
    requires 3601000 <= diff < 3602000
    ensures MinutesSeconds(diff) == "60:01"
  {
    FieldsUnique(diff, 60, 1);
    MinutesSecondsOf(diff, 60, 1);
    FieldTextOneDigit(1);
    assert DigitChar(1) == '1';
    FieldTextSixty();
  }

  lemma FieldTextSixty()
    ensures FieldText(60) == "60"
  {
    assert NatToString(60) == NatToString(6) + [DigitChar(0)];
    assert DigitChar(6) == '6' && DigitChar(0) == '0';
  }

  // ---------------------------------------------------------------------------
  // Violation counts and the report record
  // ---------------------------------------------------------------------------

  /** `getViolationsBySeverity`: the number of completed-session events of
      that severity, 0 without a completed session. */
  function ViolationsBySeverity(completed: Option<SessionEngine.Session>, sev: Severity): (n: nat)
    ensures completed.None? ==> n == 0
    ensures completed.Some? && completed.value.events == [] ==> n == 0
  {
    if completed.None? then 0 else CountSeverity(completed.value.events, sev)
  }

  /** The three severity counts add up to the number of events; for a ledger
      of created events there are no low-severity events, the high count is
      the face-missing and object events, the medium count the rest. */
  lemma ViolationsPartition(completed: Option<SessionEngine.Session>)
    requires completed.Some?
    ensures ViolationsBySeverity(completed, High) + ViolationsBySeverity(completed, Medium)
          + ViolationsBySeverity(completed, Low) == |completed.value.events|
    ensures AllWellFormed(completed.value.events) ==>
      var evs := completed.value.events;
      ViolationsBySeverity(completed, Low) == 0
      && ViolationsBySeverity(completed, High) == CountKind(evs, FaceMissing) + CountKind(evs, UnauthorizedObject)
      && ViolationsBySeverity(completed, Medium) == CountKind(evs, FocusLoss) + CountKind(evs, MultipleFaces)
  {
    SeverityPartition(completed.value.events);
    if AllWellFormed(completed.value.events) {
      SeverityByKind(completed.value.events);
    }
  }

  datatype SeverityCounts = SeverityCounts(high: nat, medium: nat, low: nat)

  /** The record `downloadReport` serialises. */
  datatype Report = Report(
    candidate: string,
    startTime: int,
    endTime: Option<int>,
    duration: string,
    integrityScore: int,
    totalViolations: nat,
    violationsByType: map<EventType, nat>,
    violationsBySeverity: SeverityCounts,
    events: seq<DetectionEvent>)

  /** The report of `downloadReport`, `None` where it returns early for lack
      of a completed session. `violationsByType` is the component's last
      `eventCounts` snapshot, not a recount of the session's events. */
  function BuildReport(completed: Option<SessionEngine.Session>, eventCounts: map<EventType, nat>): (r: Option<Report>)
    ensures r.None? <==> completed.None?
    ensures r.Some? ==>
      var s := completed.value;
      var rep := r.value;
      rep.candidate == s.candidateName && rep.events == s.events
      && rep.integrityScore == s.integrityScore
      && rep.startTime == s.startTime && rep.endTime == s.endTime
      && rep.totalViolations == |s.events|
      && rep.violationsBySeverity == SeverityCounts(ViolationsBySeverity(completed, High),
                                                    ViolationsBySeverity(completed, Medium),
                                                    ViolationsBySeverity(completed, Low))
      && rep.violationsBySeverity.high + rep.violationsBySeverity.medium + rep.violationsBySeverity.low
         == rep.totalViolations
      && rep.violationsByType == eventCounts
      && rep.duration == ReportDuration(completed)
  {
    if completed.None? then None
    else
      var s := completed.value;
      ViolationsPartition(completed);
      Some(Report(s.candidateName, s.startTime, s.endTime, ReportDuration(completed), s.integrityScore,
                  |s.events|, eventCounts,
                  SeverityCounts(ViolationsBySeverity(completed, High), ViolationsBySeverity(completed, Medium),
                                 ViolationsBySeverity(completed, Low)),
                  s.events))
  }

  /** The snapshot can disagree with the events it reports. Start a session
      at `t`, analyse one faceless frame (which returns no events, so the
      component's snapshot taken after it is `{}`), let the face timer fire
      ten seconds later and end the session: the report then holds one
      `face_missing` event in `events`, `totalViolations` and the high count,
      but none in `violationsByType`. */
  lemma SnapshotMayLag(name: string, t: int, ids: nat -> string, id: string, end: int)
    ensures var st0 := SessionEngine.StartSession(SessionEngine.Initialize(SessionEngine.Initial(), true).0, name, t);
      var noFace := SessionEngine.Frame(Some(SessionEngine.FaceReading(0, None)), Some([]));
      var (st1, returned) := SessionEngine.AnalyzeFrame(st0, noFace, t, ids);
      var snapshot := SessionEngine.EventCount(st1);
      var st2 := SessionEngine.FireFaceTimer(st1, t + SessionEngine.FaceTimeoutMs, id);
      var r := BuildReport(SessionEngine.EndSession(st2, end).1, snapshot);
      returned == [] && r.Some?
      && r.value.events == [FaceMissingEvent(id, t + SessionEngine.FaceTimeoutMs)]
      && r.value.totalViolations == 1 && r.value.violationsBySeverity == SeverityCounts(1, 0, 0)
      && Tally(r.value.violationsByType, FaceMissing) == 0
  {
    var st0 := SessionEngine.StartSession(SessionEngine.Initialize(SessionEngine.Initial(), true).0, name, t);
    var noFace := SessionEngine.Frame(Some(SessionEngine.FaceReading(0, None)), Some([]));
    assert SessionEngine.FrameEvents(SessionEngine.FaceReading(0, None), Some([]), t, ids) == [];
    var st1 := SessionEngine.AnalyzeFrame(st0, noFace, t, ids).0;
    assert st1 == st0.(faceTimer := Some(t + SessionEngine.FaceTimeoutMs));
    var ev := FaceMissingEvent(id, t + SessionEngine.FaceTimeoutMs);
    var st2 := SessionEngine.FireFaceTimer(st1, t + SessionEngine.FaceTimeoutMs, id);
    assert st2.session.value.events == [] + [ev];
    var evs := [ev];
    assert evs[..0] == [];
    assert CountSeverity(evs, High) == 1 && CountSeverity(evs, Medium) == 0 && CountSeverity(evs, Low) == 0;
  }

  // ---------------------------------------------------------------------------
  // The component
  // ---------------------------------------------------------------------------

  /** A session the component has received from `endSession`: closed, its
      events as created and its score the deduction rule applied to them. */
  predicate ClosedSession(s: SessionEngine.Session) {
    s.endTime.Some? && !s.isRecording && AllWellFormed(s.events)
    && s.integrityScore == ScoreAfter(100, s.events)
  }

  class InterviewMonitor {
    /** Bound to the name input. */
    var candidateName: string
    var isSessionActive: bool
    var integrityScore: int
    var recentEvents: seq<DetectionEvent>
    var eventCounts: map<EventType, nat>
    var completedSession: Option<SessionEngine.Session>
    /** Whether the one-second analysis interval is scheduled. */
    var analysisActive: bool
    var sessionStartTime: Option<int>
    const service: Proctoring.ProctoringService

    /** The service keeps its invariant; `recentEvents` holds only events
        `analyzeFrame` returned; the displayed score is one `getIntegrityScore`
        can report; a completed session is closed. */
    ghost predicate Valid()
      reads this, service
    {
      service.Valid() && NoTimerKinds(recentEvents) && AllWellFormed(recentEvents)
      && 0 < integrityScore <= 100
      && (completedSession.Some? ==> ClosedSession(completedSession.value))
    }

    /** The field initialisers, with the injected service. */
    constructor (service: Proctoring.ProctoringService)
      requires service.Valid()
      ensures this.service == service && Valid()
      ensures candidateName == "" && !isSessionActive && integrityScore == 100
      ensures recentEvents == [] && eventCounts == map[] && completedSession.None?
      ensures !analysisActive && sessionStartTime.None?
    {
      this.service := service;
      candidateName := "";
      isSessionActive := false;
      integrityScore := 100;
      recentEvents := [];
      eventCounts := map[];
      completedSession := None;
      analysisActive := false;
      sessionStartTime := None;
    }

    /** `ngOnInit`: initializes the service; a failure is only reported. */
    method OnInit(loaded: bool)
      modifies service
      ensures service.State() == SessionEngine.Initialize(old(service.State()), loaded).0
      ensures old(Valid()) ==> Valid()
    {
      var _ := service.Initialize(loaded);
    }

    /** `startInterview`, with `recordingStarted` telling whether
        `startRecording` resolved. A blank name, or a recording that failed
        to start, leaves the component and the service as they were;
        otherwise a fresh session is started at `now` and the live lists are
        emptied. The displayed score keeps its old value until the first tick. */
    method StartInterview(recordingStarted: bool, now: int)
      modifies this, service
      ensures IsBlank(old(candidateName)) || !recordingStarted ==> unchanged(this) && unchanged(service)
      ensures !IsBlank(old(candidateName)) && recordingStarted ==>
                service.State() == SessionEngine.StartSession(old(service.State()), old(candidateName), now)
                && isSessionActive && analysisActive && sessionStartTime == Some(now)
                && recentEvents == [] && eventCounts == map[]
                && candidateName == old(candidateName) && integrityScore == old(integrityScore)
                && completedSession == old(completedSession)
      ensures old(Valid()) ==> Valid()
    {
      if IsBlank(candidateName) {
        return;
      }
      if !recordingStarted {
        return;
      }
      service.StartSession(candidateName, now);
      isSessionActive := true;
      sessionStartTime := Some(now);
      recentEvents := [];
      eventCounts := map[];
      analysisActive := true;
    }

    /** `endInterview`, with `recordingStopped` telling whether
        `stopRecording` resolved: when it did, the service's session becomes
        the completed one and the analysis interval is cleared. */
    method EndInterview(recordingStopped: bool, now: int)
      modifies this, service
      ensures !recordingStopped ==> unchanged(this) && unchanged(service)
      ensures recordingStopped ==>
                (service.State(), completedSession) == SessionEngine.EndSession(old(service.State()), now)
                && !isSessionActive && !analysisActive
                && recentEvents == old(recentEvents) && eventCounts == old(eventCounts)
                && integrityScore == old(integrityScore) && candidateName == old(candidateName)
                && sessionStartTime == old(sessionStartTime)
      ensures old(Valid()) ==> Valid()
    {
      if !recordingStopped {
        return;
      }
      if Valid() {
        SessionEngine.EndSessionEffect(service.State(), now);
      }
      completedSession := service.EndSession(now);
      isSessionActive := false;
      analysisActive := false;
    }

    /** One run of the analysis interval's callback: while the interval is
        scheduled and the video element is there, the frame is analysed, the
        returned events are appended to `recentEvents` in order, and the
        score and per-type counts are copied from the service. */
    method AnalysisTick(videoReady: bool, frame: SessionEngine.Frame, now: int, ids: nat -> string)
      modifies this, service
      ensures !analysisActive || !videoReady ==> unchanged(this) && unchanged(service)
      ensures analysisActive && videoReady ==>
                service.State() == SessionEngine.AnalyzeFrame(old(service.State()), frame, now, ids).0
                && recentEvents == old(recentEvents) + SessionEngine.AnalyzeFrame(old(service.State()), frame, now, ids).1
                && integrityScore == SessionEngine.IntegrityScore(service.State())
                && eventCounts == SessionEngine.EventCount(service.State())
      ensures isSessionActive == old(isSessionActive) && completedSession == old(completedSession)
      ensures candidateName == old(candidateName) && sessionStartTime == old(sessionStartTime)
      ensures analysisActive == old(analysisActive)
      ensures old(Valid()) ==> Valid()
    {
      if !analysisActive || !videoReady {
        return;
      }
      ghost var wasValid := Valid();
      SessionEngine.AnalyzeReturnedKinds(service.State(), frame, now, ids);
      var events := service.AnalyzeFrame(frame, now, ids);
      var appended := AppendAll(recentEvents, events);
      recentEvents := appended;
      integrityScore := service.GetIntegrityScore();
      eventCounts := service.GetEventCount();
      assert wasValid ==> NoTimerKinds(recentEvents) && AllWellFormed(recentEvents);
    }
  }

  /** The `events.forEach(event => recentEvents.push(event))` loop. */
  method AppendAll(front: seq<DetectionEvent>, events: seq<DetectionEvent>) returns (all: seq<DetectionEvent>)
    ensures all == front + events
  {
    all := front;
    var i := 0;
    while i < |events|
      invariant 0 <= i <= |events|
      invariant all == front + events[..i]
    {
      assert events[..i + 1] == events[..i] + [events[i]];
      all := all + [events[i]];
      i := i + 1;
    }
    assert events[..i] == events;
  }

  /** While the component keeps its invariant, the face panel never reads
      "No Face Detected" and the focus panel never reads "Looking Away": the
      events behind them are only ever recorded by timer callbacks, whose
      events do not reach `recentEvents`. */
  lemma MonitorNeverShowsTimerStatus(m: InterviewMonitor)
    requires m.Valid()
    ensures FaceStatus(m.recentEvents).text != "No Face Detected"
    ensures FocusStatus(m.recentEvents).text == "Focused"
  {
    TimerStatusesUnreachable(m.recentEvents);
  }
}
