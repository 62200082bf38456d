# Proctoring session engine, monitor component and duration pipe

This project models in Dafny the proctoring front end of a video-interview application.

**The proctoring service.** `ProctoringService` holds:
- the current interview session: the candidate, the start and end times, the ledger of detection events and the integrity score;
- two debounce timers, one for an absent face and one for gaze;
- an "initialized" flag.

Once a second it analyses a frame:
- A face missing for 10 seconds records a high-severity `face_missing` event.
- Looking away for 5 seconds records a medium-severity `focus_loss` event.
- More than one face records a medium-severity `multiple_faces` event.
- Each detected object whose class contains one of "cell phone", "book", "laptop" or "person" records a high-severity `unauthorized_object` event.

Every event costs 10, 5 or 2 points by severity, and the score is floored at 0.

**The monitor component.** `InterviewMonitorComponent` comes in two copies that differ only in their notification calls. It starts and ends the interview and appends each tick's events to its live list. It derives the status panels and the score band, and assembles the downloadable report.

**The duration pipe.** It formats a number of seconds as `hh:mm:ss`.

The service is modelled on two levels:
- `SessionEngine` (engine.dfy) is the specification. Its `ServiceState` value holds the service's fields. Each operation is a function from the state before to the state after, plus the value the operation returns. The lemmas there are the guarantees.
- `Proctoring.ProctoringService` (proctoring_service.dfy) is a class whose methods update its fields in place. Each public operation (`Initialize`, `StartSession`, `EndSession`, `AnalyzeFrame`, `FireFaceTimer`, `FireFocusTimer`) is proved to perform the engine function of the same name, and `AddEventToSession` the engine function `AddEvent`; all of them except `AddEventToSession` also keep the engine invariant `Valid` (an arbitrary event handed to `AddEventToSession` need not be one the code creates). The two halves of `analyzeFrame`, `AnalyzeFaces` and `RecordObjects`, are proved against the engine's `FacesEvents` and `ObjectEvents`, applied with `AddEvents`.

Only the component's state-changing parts are a class (`Monitor.InterviewMonitor`). Its display helpers are functions of its fields.

Inputs the code gets from outside become parameters:
- **Time** is an injected integer clock in milliseconds.
- **A `setTimeout` timer** is modelled as its deadline, or `None` when no callback is pending. The callback running is a separate operation (`FireFaceTimer`/`FireFocusTimer`), which does nothing before the deadline.
- **A frame** is the perception output: a face count, the first face's looking-away verdict, and the object detections. `None` in place of a detector result stands for a detector call that threw.
- **Event ids** come from an injected function.

The other modules:
- `Events` (events.dfy): the event record, the severity-to-deduction rule and the per-type and per-severity counts.
- `Labels` (labels.dfy): the suspicious-object filter.
- `Text` (text.dfy): what the code needs of JavaScript strings and numbers: `toString`, `padStart`, `trim`, `toLowerCase`, `includes` and the `%` operator.
- `DurationPipe` (duration_pipe.dfy): the pipe.

The model follows the code where the code is looser than its design:
- `startSession` replaces a live session and leaves pending timers running.
- The gaze is judged on the first face even when there are several.
- A score of 0 is reported as 100.
- The face timer is cleared when it fires, and the next faceless frame arms it again. So an absence that goes on records one `face_missing` event for every 10 seconds or so, not one per absence (`SessionEngine.FaceTimerRearms`, `SessionEngine.LongerAbsenceRecordsTwice`).
- Timer-fired events reach the ledger. In a run where timer callbacks and frame analyses do not overlap, they never reach the list `analyzeFrame` returns. In such a run the component's live list never holds them, and its face and focus panels can never show "No Face Detected" or "Looking Away" (`Monitor.MonitorNeverShowsTimerStatus`).

## Model

| member | source | states |
|---|---|---|
| Text.JsRem | frontend/src/components/interview-monitor.component.ts:710 | JavaScript's `%` by a positive divisor: the remainder of division truncated toward zero (`a == trunc(a / b) * b + r`), with the sign of the dividend and strictly between -b and b; it agrees with the mathematical remainder on non-negative operands |
| Text.JsRemOdd | frontend/src/components/interview-monitor.component.ts:710 | the remainder of a negated dividend is the negated remainder |
| Text.TrimEmptyIffBlank | frontend/src/components/interview-monitor.component.ts:565 | `trim()` of a name yields "" exactly when every character is JavaScript whitespace (same guard at interview-screen.ts:52) |
| Text.IncludesIff | frontend/src/services/proctoring.service.ts:179 | `includes` holds exactly when the word occurs at some position of the text |
| Text.PadStart | frontend/src/components/interview-monitor.component.ts:712 | `padStart` gives the longer of the text and the width, ends with the text and is filled with the fill character in front |
| Text.PadZerosValue | frontend/src/components/interview-monitor.component.ts:712 | padding a digit string to two with '0' keeps it a digit string of the same value |
| Text.NatToStringRoundTrip | frontend/src/components/interview-monitor.component.ts:712 | the decimal text of a natural number reads back as that number |
| Events.CreatedEventsWellFormed | frontend/src/services/proctoring.service.ts:116-189 | each of the four call sites builds an event with the severity of its kind (`face_missing` and `unauthorized_object` high, `focus_loss` and `multiple_faces` medium) and the details shape of that kind (a duration, a face count, an object class) |
| Events.Deduct | frontend/src/services/proctoring.service.ts:247-248 | one deduction never goes below 0, lowers a positive score and takes off at most 10, 5 or 2 by severity |
| Events.ScoreAfterConcat | frontend/src/services/proctoring.service.ts:242-250 | scoring a ledger in two parts is scoring the second part from the score after the first |
| Events.ScoreAfterClosedForm | frontend/src/services/proctoring.service.ts:248 | deducting event by event with a floor at 0 equals subtracting the total of all deductions once, floored at 0 |
| Events.ScoreAfterBounds | frontend/src/services/proctoring.service.ts:248 | from a score in [0, 100] the score stays in [0, its start] and strictly drops on any event while positive |
| Events.UniformDeduction | frontend/src/services/proctoring.service.ts:247 | n events of one severity cost n times that severity's deduction, floored at 0 |
| Events.KindCounts | frontend/src/services/proctoring.service.ts:263-266 | the tally has a key exactly for the event types present and maps each to the number of its events |
| Events.KindCountsSnoc | frontend/src/services/proctoring.service.ts:265 | one more event raises its own type's count by one and changes no other key |
| Events.KindCountsSum | frontend/src/services/proctoring.service.ts:260-269 | the four per-type counts add up to the ledger length |
| Events.SeverityPartition | frontend/src/components/interview-monitor.component.ts:715-717 | the high, medium and low counts add up to the ledger length |
| Events.SeverityByKind | frontend/src/services/proctoring.service.ts:116-189 | on created events there are no low-severity events; high counts `face_missing` plus `unauthorized_object`, medium counts `focus_loss` plus `multiple_faces` |
| Events.CountKindConcat | frontend/src/services/proctoring.service.ts:260-269 | counting a type over two parts adds the parts' counts |
| Labels.SuspiciousDetections | frontend/src/services/proctoring.service.ts:177-181 | the filter keeps exactly the detections whose class is suspicious, never more than it is given |
| Labels.SuspiciousDetectionsConcat | frontend/src/services/proctoring.service.ts:177-181 | the filter works detection by detection and keeps order and repeats |
| Labels.SuspiciousIgnoresCase | frontend/src/services/proctoring.service.ts:179 | matching ignores the letter case of the detector's class |
| Labels.SuspiciousIff | frontend/src/services/proctoring.service.ts:37 | a class is suspicious exactly when one of the four words occurs somewhere in its lower-cased form, so "notebook" matches "book" |
| Labels.WordsLowercase | frontend/src/services/proctoring.service.ts:37 | the four words are already lower case, so lower-casing them changes nothing |
| Labels.ListedWordsSuspicious | frontend/src/services/proctoring.service.ts:37 | each listed word, including the detector's own "person" class, is flagged |
| Labels.UnlistedClassPasses | frontend/src/services/proctoring.service.ts:177-181 | a class containing none of the words ("cup") passes the filter |
| SessionEngine.ObjectEvents | frontend/src/services/proctoring.service.ts:183-192 | one event per detection handed to it, each well formed, of type `unauthorized_object` and high severity, carrying that detection's class and confidence, the frame's time and the id for its position |
| SessionEngine.ObjectEventsConcat | frontend/src/services/proctoring.service.ts:183-192 | the events of two runs of detections are those of the first followed by those of the second, whose ids continue after the first's |
| SessionEngine.AddEventsAppends | frontend/src/services/proctoring.service.ts:242-250 | adding events one at a time appends them to the ledger in order and applies the rule to each; timers and the rest of the session stay |
| SessionEngine.AddEventsConcat | frontend/src/services/proctoring.service.ts:242-250 | adding two batches one after the other is adding their concatenation |
| SessionEngine.AddEventsNoSession | frontend/src/services/proctoring.service.ts:243 | without a session adding events changes nothing |
| SessionEngine.AddEventsLive | frontend/src/services/proctoring.service.ts:242-250 | adding created events keeps the invariant: the score is the rule applied to the whole ledger from 100 |
| SessionEngine.ScoreInRange | frontend/src/services/proctoring.service.ts:256-258 | under the invariant the session score is in [0, 100], equals 100 minus all deductions floored at 0, and `getIntegrityScore` reports a value in (0, 100] |
| SessionEngine.ExhaustedScoreReadsFull | frontend/src/services/proctoring.service.ts:257 | a session whose score reached 0 reads as 100, the same as a fresh session |
| SessionEngine.EventCountSum | frontend/src/services/proctoring.service.ts:260-269 | the counts `getEventCount` returns add up to the ledger length |
| SessionEngine.InitialValid | frontend/src/services/proctoring.service.ts:29-34 | the fields as initialised satisfy the invariant |
| SessionEngine.InitializeEffect | frontend/src/services/proctoring.service.ts:39-63 | `initialize` succeeds exactly when already initialised or the models load, only ever sets the flag, and keeps the invariant |
| SessionEngine.StartSessionEffect | frontend/src/services/proctoring.service.ts:65-73 | `startSession` always installs a fresh session (no events, score 100, not recording, the given name), replacing any live one, and leaves both timers and the flag untouched |
| SessionEngine.StaleTimerHitsNewSession | frontend/src/services/proctoring.service.ts:65-73 | a face timer armed in an earlier session fires into the session that replaced it: one `face_missing` event and a score of 90 |
| SessionEngine.EndSessionEffect | frontend/src/services/proctoring.service.ts:75-95 | without a session `endSession` returns none and changes nothing; with one it returns that session with its ledger, score, name and start unchanged, end time stamped and not recording, and leaves no session and no timer |
| SessionEngine.StartThenEnd | frontend/src/services/proctoring.service.ts:65-95 | starting and at once ending yields a closed session with no events and score 100 |
| SessionEngine.AnalyzeIdle | frontend/src/services/proctoring.service.ts:102-104 | before initialisation or without a session `analyzeFrame` returns [] and changes nothing |
| SessionEngine.FrameEventsShape | frontend/src/services/proctoring.service.ts:134-192 | a frame emits a `multiple_faces` event at the front exactly when it has two or more faces, then one `unauthorized_object` event per suspicious detection in detector order |
| SessionEngine.FrameObjectsSuspicious | frontend/src/services/proctoring.service.ts:177-192 | every object event a frame emits names a suspicious class |
| SessionEngine.FrameEventsKinds | frontend/src/services/proctoring.service.ts:134-192 | every event a frame emits is well formed, stamped with the frame's time and its position's id, and never `face_missing` or `focus_loss` |
| SessionEngine.AnalyzeAppendsReturned | frontend/src/services/proctoring.service.ts:106-198 | the list `analyzeFrame` returns is exactly what it appended to the ledger, in order, with the score the rule applied to it; nothing else of the session changes |
| SessionEngine.AnalyzeCountsGrow | frontend/src/services/proctoring.service.ts:101-198 | after `analyzeFrame` each type's `getEventCount` entry (lines 260-269) has grown by the number of events of that type in the returned list |
| SessionEngine.AnalyzeReturnedKinds | frontend/src/services/proctoring.service.ts:112-198 | what `analyzeFrame` returns is well formed and never holds a timer-fired kind, whatever the state |
| SessionEngine.AnalyzeTimers | frontend/src/services/proctoring.service.ts:112-172 | a faceless frame arms an idle face timer and keeps a pending deadline; a frame with a face cancels it; the gaze timer follows the first face's verdict (armed if idle, kept if pending, cancelled on "not away") and is untouched by a faceless frame or one without keypoints |
| SessionEngine.AnalyzeValid | frontend/src/services/proctoring.service.ts:101-199 | `analyzeFrame` keeps the invariant |
| SessionEngine.FireFaceEffect | frontend/src/services/proctoring.service.ts:115-125 | once due the face callback appends exactly one high `face_missing` event, costs 10 points floored at 0, clears its timer and keeps the invariant; before the deadline nothing happens |
| SessionEngine.FireFocusEffect | frontend/src/services/proctoring.service.ts:153-163 | once due the gaze callback appends exactly one medium `focus_loss` event, costs 5 points floored at 0 and clears its timer; before the deadline nothing happens |
| SessionEngine.FaceFiresOnce | frontend/src/services/proctoring.service.ts:124 | a fired face timer does not fire again until a faceless frame re-arms it |
| SessionEngine.FaceTimerRearms | frontend/src/services/proctoring.service.ts:112-126 | after the face timer fires, the next faceless frame arms it afresh from that frame's time and records nothing itself |
| SessionEngine.LongerAbsenceRecordsTwice | frontend/src/services/proctoring.service.ts:112-126 | an absence of 21 seconds seen by faceless frames records two `face_missing` events (score 80) and leaves the timer armed again |
| SessionEngine.RunAppendOnly | frontend/src/services/proctoring.service.ts:101-250 | over any run of frames and timer callbacks the session stays, its ledger only grows at the end, its score never rises and the invariant holds |
| SessionEngine.NoFaceRunKeepsDeadline | frontend/src/services/proctoring.service.ts:112-126 | a run of faceless frames, with no timer callback among them, keeps the deadline set by the first of them and records nothing |
| SessionEngine.ShortAbsenceRecordsNothing | frontend/src/services/proctoring.service.ts:112-132 | faceless frames for 9.5 s followed by a face record nothing, and the session ends with score 100 |
| SessionEngine.LongAbsenceRecordsOnce | frontend/src/services/proctoring.service.ts:112-126 | the same absence reaching the deadline records exactly one `face_missing` event (score 90), and a second callback run adds nothing |
| Proctoring.ProctoringService.constructor | frontend/src/services/proctoring.service.ts:29-34 | the fields start uninitialised, with no session and no timers, satisfying the invariant |
| Proctoring.ProctoringService.Initialize | frontend/src/services/proctoring.service.ts:39-63 | performs `SessionEngine.Initialize` on the fields and keeps the invariant |
| Proctoring.ProctoringService.StartSession | frontend/src/services/proctoring.service.ts:65-73 | performs `SessionEngine.StartSession` on the fields and keeps the invariant |
| Proctoring.ProctoringService.EndSession | frontend/src/services/proctoring.service.ts:75-95 | performs `SessionEngine.EndSession` and returns its session; keeps the invariant |
| Proctoring.ProctoringService.GetCurrentSession | frontend/src/services/proctoring.service.ts:97-99 | returns the held session, which under the invariant is open, not recording and scored in [0, 100] |
| Proctoring.ProctoringService.AddEventToSession | frontend/src/services/proctoring.service.ts:242-250 | performs `SessionEngine.AddEvent`: appends the event and applies the deduction, or does nothing without a session |
| Proctoring.ProctoringService.AnalyzeFrame | frontend/src/services/proctoring.service.ts:101-199 | performs `SessionEngine.AnalyzeFrame` on the fields and returns its events; keeps the invariant |
| Proctoring.ProctoringService.AnalyzeFaces | frontend/src/services/proctoring.service.ts:112-173 | updates both timers for the frame's faces and records the `multiple_faces` event if any, returning it |
| Proctoring.ProctoringService.RecordObjects | frontend/src/services/proctoring.service.ts:183-192 | the loop creates and records one object event per suspicious detection, in order, returning them |
| Proctoring.ProctoringService.FireFaceTimer | frontend/src/services/proctoring.service.ts:115-125 | performs `SessionEngine.FireFaceTimer` and keeps the invariant |
| Proctoring.ProctoringService.FireFocusTimer | frontend/src/services/proctoring.service.ts:153-163 | performs `SessionEngine.FireFocusTimer` and keeps the invariant |
| Proctoring.ProctoringService.GetIntegrityScore | frontend/src/services/proctoring.service.ts:256-258 | the session's score unless there is none or it is 0, then 100; in (0, 100] under the invariant |
| Proctoring.ProctoringService.GetEventCount | frontend/src/services/proctoring.service.ts:260-269 | {} without a session; otherwise a key for exactly the types present, each bound to its number of events |
| Monitor.ScoreClass | frontend/src/components/interview-monitor.component.ts:643-647 | `score-excellent` exactly from 80, `score-good` exactly in [60, 80), `score-poor` exactly below 60 (interview-screen.ts:135-139) |
| Monitor.ScoreClassMonotone | frontend/src/components/interview-monitor.component.ts:643-647 | a higher score never shows a worse band |
| Monitor.ExhaustedSessionShowsExcellent | frontend/src/components/interview-monitor.component.ts:643-647 | a session driven to 0 is shown in the best band, because the score reads as 100 |
| Monitor.LastOfKind | frontend/src/components/interview-monitor.component.ts:650-652 | `filter(...).slice(-1)` finds an event exactly when one of that type exists, and it is the last one of that type |
| Monitor.FaceStatus | frontend/src/components/interview-monitor.component.ts:649-667 | "No Face Detected" exactly when a `face_missing` event exists; "Multiple Faces" exactly when none does but a `multiple_faces` event does; otherwise "Face Detected" (interview-screen.ts:141-159) |
| Monitor.FocusStatus | frontend/src/components/interview-monitor.component.ts:669-679 | "Looking Away" exactly when a `focus_loss` event exists, otherwise "Focused" (interview-screen.ts:161-171) |
| Monitor.ObjectStatus | frontend/src/components/interview-monitor.component.ts:681-692 | "No Objects" exactly when there is no object event; otherwise a danger status naming the `object` detail of the last object event (interview-screen.ts:173-184) |
| Monitor.ObjectStatusNamesClass | frontend/src/components/interview-monitor.component.ts:686-689 | on created events the object panel names a real class, never "undefined" |
| Monitor.TimerStatusesUnreachable | frontend/src/components/interview-monitor.component.ts:649-679 | on a list without timer-fired events the face panel never reads "No Face Detected" and the focus panel reads "Focused" |
| Monitor.ReportFieldsBounds | frontend/src/components/interview-monitor.component.ts:708-710 | for a non-negative difference the minutes are whole and the seconds below 60, falling short of the difference by under a second; a negative difference gives negative minutes and seconds in [-60, 0] (interview-screen.ts:200-202) |
| Monitor.FieldsUnique | frontend/src/components/interview-monitor.component.ts:709-710 | those are the only whole minutes and seconds below 60 that fall short of the difference by under a second |
| Monitor.ReportDurationReadsBack | frontend/src/components/interview-monitor.component.ts:705-713 | for a completed session that ended no earlier than it started, the report duration is at least two digits, a colon and two digits that read back as the whole minutes and the seconds below 60 of the time from start to end (interview-screen.ts:197-205) |
| Monitor.PaddedDigits | frontend/src/components/interview-monitor.component.ts:712 | a padded field of a natural number is at least two digits, exactly two below 100, and reads back as the number |
| Monitor.MinutesSecondsReadsBack | frontend/src/components/interview-monitor.component.ts:708-712 | for a non-negative difference the text is two or more digits, a colon and two digits that read back as the minutes and the seconds |
| Monitor.MinuteDurationExample | frontend/src/components/interview-monitor.component.ts:708-712 | 125 to 126 seconds show "02:05" |
| Monitor.HourDurationExample | frontend/src/components/interview-monitor.component.ts:708-712 | an hour and a second shows "60:01": minutes are not carried into hours |
| Monitor.ViolationsBySeverity | frontend/src/components/interview-monitor.component.ts:715-717 | the number of completed-session events of that severity, 0 without a completed session (interview-screen.ts:207-209) |
| Monitor.ViolationsPartition | frontend/src/components/interview-monitor.component.ts:715-717 | the high, medium and low counts add up to the number of events; on created events low is 0, high counts missing-face and object events, medium the rest |
| Monitor.BuildReport | frontend/src/components/interview-monitor.component.ts:723-740 | no report without a completed session; otherwise the candidate, start and end times, score and events are the session's, `totalViolations` is the event count, each severity count is `getViolationsBySeverity` of that severity and the three add up to the total, `violationsByType` is the live snapshot and the duration is `getReportDuration` (interview-screen.ts:215-232) |
| Monitor.SnapshotMayLag | frontend/src/components/interview-monitor.component.ts:723-740 | the snapshot can disagree with the events, on a reachable run: start a session, analyse one faceless frame (nothing returned, snapshot `{}`), let the face timer fire and end the session; the report then has one `face_missing` event, `totalViolations` 1 and high count 1, but no entry in `violationsByType` |
| Monitor.InterviewMonitor.constructor | frontend/src/components/interview-monitor.component.ts:529-539 | the field initialisers: empty name, inactive, score 100, no events, no counts, no completed session (interview-screen.ts:19-29) |
| Monitor.InterviewMonitor.OnInit | frontend/src/components/interview-monitor.component.ts:546-554 | `ngOnInit` initialises the service and keeps the invariant (interview-screen.ts:37-45) |
| Monitor.InterviewMonitor.StartInterview | frontend/src/components/interview-monitor.component.ts:564-590 | a blank name or a failed recording start changes nothing; otherwise a fresh service session, active, analysis scheduled, start time set, live events and counts emptied, the displayed score kept (interview-screen.ts:51-81) |
| Monitor.InterviewMonitor.EndInterview | frontend/src/components/interview-monitor.component.ts:592-607 | once recording stops, the service's session becomes the completed one, the service is left without session or timers and the analysis is cleared; the live lists stay (interview-screen.ts:83-99) |
| Monitor.InterviewMonitor.AnalysisTick | frontend/src/components/interview-monitor.component.ts:609-623 | while scheduled and the video is there, the frame's events are appended to the live list in order and the score and counts are copied from the service; otherwise nothing changes (interview-screen.ts:101-115) |
| Monitor.AppendAll | frontend/src/components/interview-monitor.component.ts:614-616 | the `forEach` push loop appends all events in order (interview-screen.ts:106-108) |
| Monitor.MonitorNeverShowsTimerStatus | frontend/src/components/interview-monitor.component.ts:649-679 | while the component keeps its invariant the panels never read "No Face Detected" or "Looking Away" |
| DurationPipe.Field | frontend/src/app/pipes/date-pipe-pipe.ts:11 | a digit 0-9 prints as '0' and that digit; a value from 10 on prints as its digits with no leading zero, reading back as the value |
| Text.NoLeadingZero | frontend/src/app/pipes/date-pipe-pipe.ts:11 | a positive number's decimal text does not start with '0' |
| DurationPipe.FieldsDecompose | frontend/src/app/pipes/date-pipe-pipe.ts:7-9 | for non-negative input: whole hours, minutes below 60 and seconds below 60 that add back up to the input |
| DurationPipe.NegativeFields | frontend/src/app/pipes/date-pipe-pipe.ts:7-11 | for negative input every field is at most 0, the seconds field is the negated seconds of the magnitude, and a negative field prints as "0-" and its digits |
| DurationPipe.FieldDigits | frontend/src/app/pipes/date-pipe-pipe.ts:11 | a field of a non-negative value is a digit string of length at least 2, exactly 2 below 100, that reads back as the value |
| DurationPipe.GuardRedundant | frontend/src/app/pipes/date-pipe-pipe.ts:6-12 | the formula applied to 0 gives "00:00:00", so the guard never changes the output |
| DurationPipe.TransformRoundTrip | frontend/src/app/pipes/date-pipe-pipe.ts:5-13 | for non-negative input the output is digits, ':', two digits, ':', two digits, and reading it back gives the input |
| DurationPipe.TransformLength | frontend/src/app/pipes/date-pipe-pipe.ts:10-12 | the output is exactly 8 characters below 100 hours and longer from there on |
| DurationPipe.HourExample | frontend/src/app/pipes/date-pipe-pipe.ts:5-13 | 3725 seconds show as "01:02:05" |

## Left out

- Model loading and inference (`tf.ready`, `createDetector`, `cocoSsd.load`, `estimateFaces`, `detect`) are foreign TensorFlow.js calls. `initialize` is reduced to whether loading succeeded. The detector null checks in `analyzeFrame` are folded into the initialised flag, because `initialize` sets both detectors before the flag.
- `analyzeFocusDirection` is floating-point keypoint geometry. The model takes its verdict as an input: `FaceReading.firstFaceLookingAway`, `None` when the first face has no keypoints.
- `generateId` uses `Math.random`. Ids are an injected function, and nothing claims they are unique.
- `new Date()`, `setTimeout`, `clearTimeout`, `setInterval` and `clearInterval` are replaced by an integer clock and explicit timer deadlines. All clock reads in one `analyzeFrame` call are taken as one instant.
- Concurrency is not modelled:
  - the awaits inside `analyzeFrame`;
  - overlapping interval callbacks;
  - a timer callback that runs while a frame is being analysed.
- The component's analysis interval is a flag. The interval a second `startInterview` would leak is not modelled.
- Detection confidence is a real number carried only as payload.
- The duration pipe's input is an integer. Fractional, `NaN` and non-number inputs are not modelled.
- Lower-casing covers ASCII letters only.
- The model works on values, so aliasing is not modelled. The session `endSession` returns is the very object the service held. The `events` array the timer callbacks push into is the one an earlier `analyzeFrame` call returned.
- `Text.IntToString` prints integers only, not JavaScript's general number formatting.
- Left out because they are I/O, display or unrelated to the logic:
  - `getSessionDuration`, which reads the live clock;
  - `formatTime`, `startTimer`/`timerInterval`, `recordedVideo`, `downloadRecording`;
  - the JSON and Blob download in `downloadReport`;
  - `ngAfterViewInit`, `ngOnDestroy`;
  - alerts, notifications, console output, templates and styles.
- frontend/src/app/services/video-recording.ts is not part of this model. Whether recording started or stopped is a boolean input of `StartInterview` and `EndInterview`.
- frontend/src/main.ts and frontend/src/app/interview-screen/interview-screen.spec.ts are not part of this model.
