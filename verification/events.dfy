/** Violation events, the integrity-score deduction rule and the tallies over an
    event ledger (the `DetectionEvent` record of `proctoring.service.ts`, its
    `createEvent` call sites, the deduction in `addEventToSession` and the
    counting in `getEventCount`). */
module Events {
  import opened Text

  /** The `type` field of an event. */
  datatype EventType = FocusLoss | FaceMissing | MultipleFaces | UnauthorizedObject

  datatype Severity = Low | Medium | High

  /** The `details` payload, one variant per shape the code builds:
      `{ duration }`, `{ faceCount }` and `{ object, confidence }` (the last with the
      detected class under `objectClass`).
      The confidence is the detector's floating-point score, carried along
      and never computed with. */
  datatype Details =
    | Duration(seconds: nat)
    | FaceCount(count: nat)
    | ObjectSeen(objectClass: string, confidence: real)

  /** `id` comes from an injected source and is opaque; `timestamp` is a
      reading of the injected millisecond clock. */
  datatype DetectionEvent = DetectionEvent(
    id: string,
    kind: EventType,
    timestamp: int,
    description: string,
    severity: Severity,
    details: Details)

  const AllKinds: set<EventType> := {FocusLoss, FaceMissing, MultipleFaces, UnauthorizedObject}

  lemma InAllKinds(k: EventType)
    ensures k in AllKinds
  {
    match k
    case FocusLoss =>
    case FaceMissing =>
    case MultipleFaces =>
    case UnauthorizedObject =>
  }

  /** Seconds reported in the details of the two debounced kinds. */
  const FaceMissingSeconds: nat := 10
  const FocusLossSeconds: nat := 5

  // ---------------------------------------------------------------------------
  // The four `createEvent` call sites
  // ---------------------------------------------------------------------------

  function FaceMissingEvent(id: string, now: int): DetectionEvent {
    DetectionEvent(id, FaceMissing, now, "No face detected for more than 10 seconds",
                   High, Duration(FaceMissingSeconds))
  }

  function FocusLossEvent(id: string, now: int): DetectionEvent {
    DetectionEvent(id, FocusLoss, now, "Candidate looking away for more than 5 seconds",
                   Medium, Duration(FocusLossSeconds))
  }

  function MultipleFacesEvent(count: nat, id: string, now: int): DetectionEvent {
    DetectionEvent(id, MultipleFaces, now, NatToString(count) + " faces detected in frame",
                   Medium, FaceCount(count))
  }

  function ObjectEvent(objectClass: string, confidence: real, id: string, now: int): DetectionEvent {
    DetectionEvent(id, UnauthorizedObject, now, "Detected " + objectClass + " in frame",
                   High, ObjectSeen(objectClass, confidence))
  }

  /** The severity every event of a kind is created with. */
  function SeverityOf(kind: EventType): Severity {
    match kind
    case FocusLoss => Medium
    case FaceMissing => High
    case MultipleFaces => Medium
    case UnauthorizedObject => High
  }

  /** An event as some `createEvent` call site builds it: severity fixed by the
      kind, and the details shape that kind carries. */
  predicate WellFormed(ev: DetectionEvent) {
    ev.severity == SeverityOf(ev.kind) &&
    match ev.kind
    case FocusLoss => ev.details.Duration?
    case FaceMissing => ev.details.Duration?
    case MultipleFaces => ev.details.FaceCount?
    case UnauthorizedObject => ev.details.ObjectSeen?
  }

  predicate AllWellFormed(evs: seq<DetectionEvent>) {
    forall i :: 0 <= i < |evs| ==> WellFormed(evs[i])
  }

  /** Every call site builds a well-formed event. */
  lemma CreatedEventsWellFormed(id: string, now: int, count: nat, objectClass: string, confidence: real)
    ensures WellFormed(FaceMissingEvent(id, now)) && WellFormed(FocusLossEvent(id, now))
    ensures WellFormed(MultipleFacesEvent(count, id, now))
    ensures WellFormed(ObjectEvent(objectClass, confidence, id, now))
  {
  }

  // ---------------------------------------------------------------------------
  // The scoring rule
  // ---------------------------------------------------------------------------

  /** Points a severity costs: 10 for high, 5 for medium, 2 otherwise (low). */
  function Deduction(sev: Severity): nat {
    if sev == High then 10 else if sev == Medium then 5 else 2
  }

  function Max(a: int, b: int): int {
    if a >= b then a else b
  }

  /** One application of the rule: the score drops by the deduction, floored at 0. */
  function Deduct(score: int, sev: Severity): (r: int)
    ensures 0 <= r
    ensures 0 <= score ==> r < score || score == 0
    ensures score - Deduction(sev) <= r
  {
    Max(0, score - Deduction(sev))
  }

  /** The score after the rule has been applied to each event of `evs` in turn. */
  function ScoreAfter(score: int, evs: seq<DetectionEvent>): int {
    if evs == [] then score
    else Deduct(ScoreAfter(score, evs[..|evs| - 1]), evs[|evs| - 1].severity)
  }

  /** Sum of the deductions of `evs`, with no floor. */
  function TotalDeduction(evs: seq<DetectionEvent>): nat {
    if evs == [] then 0
    else TotalDeduction(evs[..|evs| - 1]) + Deduction(evs[|evs| - 1].severity)
  }

  /** Applying the rule event by event to `a + b` is applying it to `a` and
      then to `b`: a batch is scored exactly as its events one after another. */
  lemma {:induction false} ScoreAfterConcat(score: int, a: seq<DetectionEvent>, b: seq<DetectionEvent>)
    ensures ScoreAfter(score, a + b) == ScoreAfter(ScoreAfter(score, a), b)
  {
    if b == [] {
      assert a + b == a;
    } else {
      var b' := b[..|b| - 1];
      assert (a + b)[..|a + b| - 1] == a + b';
      ScoreAfterConcat(score, a, b');
    }
  }

  /** Because every deduction is positive, flooring after each event is the
      same as flooring once: the score is the start minus all deductions, or 0. */
  lemma {:induction false} ScoreAfterClosedForm(score: int, evs: seq<DetectionEvent>)
    requires 0 <= score
    ensures ScoreAfter(score, evs) == Max(0, score - TotalDeduction(evs))
  {
    if evs != [] {
      ScoreAfterClosedForm(score, evs[..|evs| - 1]);
    }
  }

  /** From any score in [0, 100] the rule stays in [0, 100] and never raises
      the score; every event strictly lowers a positive score. */
  lemma {:induction false} ScoreAfterBounds(score: int, evs: seq<DetectionEvent>)
    requires 0 <= score <= 100
    ensures 0 <= ScoreAfter(score, evs) <= score
    ensures evs != [] && 0 < score ==> ScoreAfter(score, evs) < score
  {
    if evs != [] {
      ScoreAfterBounds(score, evs[..|evs| - 1]);
    }
  }

  /** N events of one severity cost N times its deduction, floored at 0; for
      example fifteen high-severity events take 100 down to 0. */
  lemma {:induction false} UniformDeduction(score: int, evs: seq<DetectionEvent>, sev: Severity)
    requires 0 <= score
    requires forall i :: 0 <= i < |evs| ==> evs[i].severity == sev
    ensures ScoreAfter(score, evs) == Max(0, score - |evs| * Deduction(sev))
  {
    UniformTotal(evs, sev);
    ScoreAfterClosedForm(score, evs);
  }

  lemma {:induction false} UniformTotal(evs: seq<DetectionEvent>, sev: Severity)
    requires forall i :: 0 <= i < |evs| ==> evs[i].severity == sev
    ensures TotalDeduction(evs) == |evs| * Deduction(sev)
  {
    if evs != [] {
      UniformTotal(evs[..|evs| - 1], sev);
    }
  }

  // ---------------------------------------------------------------------------
  // Tallies
  // ---------------------------------------------------------------------------

  /** Number of events of kind `k`. */
  function CountKind(evs: seq<DetectionEvent>, k: EventType): nat {
    if evs == [] then 0
    else CountKind(evs[..|evs| - 1], k) + (if evs[|evs| - 1].kind == k then 1 else 0)
  }

  /** Number of events of severity `sev`. */
  function CountSeverity(evs: seq<DetectionEvent>, sev: Severity): nat {
    if evs == [] then 0
    else CountSeverity(evs[..|evs| - 1], sev) + (if evs[|evs| - 1].severity == sev then 1 else 0)
  }

  /** A dictionary lookup with the `|| 0` default of `getEventCount`. */
  function Tally(m: map<EventType, nat>, k: EventType): nat {
    if k in m then m[k] else 0
  }

  /** The per-type dictionary: a key for each type that occurs, bound to the
      number of its events. */
  function KindCounts(evs: seq<DetectionEvent>): (m: map<EventType, nat>)
    ensures forall k :: k in m <==> CountKind(evs, k) > 0
    ensures forall k :: Tally(m, k) == CountKind(evs, k)
  {
    var m := map k | k in AllKinds && CountKind(evs, k) > 0 :: CountKind(evs, k);
    assert forall k :: k in m <==> CountKind(evs, k) > 0 by {
      forall k { InAllKinds(k); }
    }
    m
  }

  /** Counting one more event bumps exactly its own type's entry. */
  lemma KindCountsSnoc(evs: seq<DetectionEvent>, ev: DetectionEvent)
    ensures KindCounts(evs + [ev]) == KindCounts(evs)[ev.kind := Tally(KindCounts(evs), ev.kind) + 1]
  {
    var s := evs + [ev];
    assert s[..|s| - 1] == evs;
  }

  /** The per-type counts add up to the length of the ledger. */
  lemma {:induction false} KindCountsSum(evs: seq<DetectionEvent>)
    ensures CountKind(evs, FocusLoss) + CountKind(evs, FaceMissing)
          + CountKind(evs, MultipleFaces) + CountKind(evs, UnauthorizedObject) == |evs|
  {
    if evs != [] {
      KindCountsSum(evs[..|evs| - 1]);
    }
  }

  /** The per-severity counts add up to the length of the ledger. */
  lemma {:induction false} SeverityPartition(evs: seq<DetectionEvent>)
    ensures CountSeverity(evs, High) + CountSeverity(evs, Medium) + CountSeverity(evs, Low) == |evs|
  {
    if evs != [] {
      SeverityPartition(evs[..|evs| - 1]);
    }
  }

  /** In a ledger of created events nothing is low-severity, the high count is
      the face-missing and unauthorized-object events and the medium count the
      focus-loss and multiple-faces events. */
  lemma {:induction false} SeverityByKind(evs: seq<DetectionEvent>)
    requires AllWellFormed(evs)
    ensures CountSeverity(evs, Low) == 0
    ensures CountSeverity(evs, High) == CountKind(evs, FaceMissing) + CountKind(evs, UnauthorizedObject)
    ensures CountSeverity(evs, Medium) == CountKind(evs, FocusLoss) + CountKind(evs, MultipleFaces)
  {
    if evs != [] {
      SeverityByKind(evs[..|evs| - 1]);
      assert WellFormed(evs[|evs| - 1]);
    }
  }

  /** Counting distributes over concatenation. */
  lemma {:induction false} CountKindConcat(a: seq<DetectionEvent>, b: seq<DetectionEvent>, k: EventType)
    ensures CountKind(a + b, k) == CountKind(a, k) + CountKind(b, k)
  {
    if b == [] {
      assert a + b == a;
    } else {
      var b' := b[..|b| - 1];
      assert (a + b)[..|a + b| - 1] == a + b';
      CountKindConcat(a, b', k);
    }
  }
}
