# Camera gateway core in Dafny

A model of the logic at the centre of a camera gateway. The gateway streams
camera video to browsers over WebRTC. It negotiates sessions through a STOMP
signalling server and reports stable changes in what an object detector sees.
The model has four parts:

- **Class enumeration** (`class_enum.dfy`, module `ClassEnum`): the seven
  object classes and the `name_to_enum` table. Detector labels are mapped to
  classes after lower-casing.
- **Detection stability tracker**:
  - `stability.dfy` (module `Stability`) is `check_condition`. It is a state
    machine over detection counters (multisets of classes) with a baseline,
    a candidate and a streak. It reports a change after five equal frames.
  - `detections.dfy` (module `Detections`) is `update_status`. It turns the
    detector's boxes into a counter and a parallel confidence list.
  - `video.dfy` (module `Video`) is the track's constructor and the
    bookkeeping in `recv`: the frame counter used as the presentation
    timestamp, the ten-second colour index, and the de-duplicated colour log
    line. It also shows that the tracker and the published events follow
    from those pieces.
- **Peer-session registry** (`registry.dfy`, module `Registry`): the
  two-level dictionary `client_id -> camera_id -> session`.
  - Operations: `close_peer_connection`, `process_offer` and `cleanup`, plus
    the "failed" connection-state handler.
  - Sessions are ids into a session table with an open/closed flag.
  - The media engine is an `Engine` value. It says which sessions' first
    `close` raises, which sessions' second `close` (the retry in the
    `except` path of `process_offer`) raises, and whether negotiation
    produces a local description or raises.
  - A log of `Created`, `Closed` and `CloseRaised` events records the order
    in which things happen.
- **Offer routing** (`signaling.dfy`, module `Signaling`):
  - the CONNECT literal;
  - `parse_message` applied to an unpacked STOMP frame;
  - `parse_offer` against the camera enumeration;
  - `process_message`, with the answer destination
    `/app/answer/{client_id}/{direction}`;
  - the receive loop of `execute`.

Two small modules support the rest. `optional.dfy` (`Optional`) stands for
Python's `None`. `json.dfy` (`JsonValue`) is a decoded JSON value with
Python's truthiness, hashability and `len`.

Parameters stand in for what the core does not compute itself:

- the camera enumeration `CameraDirection` is a map `directions` from member
  names to ids;
- JSON decoding (`json.loads`) is a partial function `decode`;
- the wall-clock second is `nowTs`;
- the colour palette's size is `colorCount`;
- the detector's output is a list of (label, confidence) boxes.

Confidences are values of an arbitrary type `C`.

Two details of `check_condition` shape the tracker:

- When a streak reaches five, `check_condition` moves the baseline even if
  the confidence list is empty. It keeps the candidate rather than clearing
  it.
- `Stability.TrackerAgreesWithReference` proves that keeping the candidate
  is never observable. On every input, the tracker reports exactly when a
  reference machine does that clears its candidate.
- The empty-confidences case is modelled as written. A stable change to "no
  detections" moves the baseline silently (`Stability.ExampleSilentClear`).

Other behaviours of the code that the model reproduces:

- In `process_offer`, the new session is registered before the offer is
  validated. An offer without `sdp` or `type` therefore leaves the new
  session registered and open.
- A `close` that raises inside `process_offer` sends control to the
  `except` path, which tries `close_peer_connection` again.
- The "failed" handler closes a session without removing it from `pcs`.

## Model

| member | source | states |
|---|---|---|
| ClassEnum.Classify | core/video.py:129-132 | A label is recognised exactly when its lower-cased form is a key of `name_to_enum`, and the class found has that lower-cased label as its value |
| ClassEnum.UnrecognisedHasNoClass | core/video.py:129-132 | A label that is not recognised lower-cases to a string that is no class's value |
| ClassEnum.NameToEnumIsTheValueTable | enums/class_enum.py:3-20 | The table has exactly seven entries, one per class; each class is found under its own value, and every key maps to the class whose value it is |
| ClassEnum.NameToEnumInjective | enums/class_enum.py:12-20 | Distinct keys map to distinct classes, and distinct classes have distinct values |
| ClassEnum.EveryClassReachable | enums/class_enum.py:12-20 | Every class's value is already lower case, so looking up a lower-cased label reaches every class |
| Stability.CheckCondition | core/video.py:139-154 | After every call the streak is below 5. A frame equal to the baseline clears the streak and changes nothing else. A frame that differs from both baseline and candidate becomes the candidate with streak 1. A repeat of the candidate extends the streak, and at 5 moves the baseline and resets the streak whether or not there are confidences. A report implies a changed counter that is now the baseline, with non-empty confidences |
| Stability.StreakHistory | core/video.py:140-150 | From the fresh state, a streak of k means the last k frames all carried the candidate and the candidate differs from the baseline |
| Stability.ReportNeedsFiveEqualFrames | core/video.py:139-154 | A report from the fresh state is made only after at least five frames, the last five of them with equal counters, and only with non-empty confidences |
| Stability.FlickerNeverReports | core/video.py:140-145 | A frame sequence in which no counter equals its predecessor's never reports |
| Stability.RepeatedFrame | core/video.py:140-150 | A frame (with confidences) whose counter is not the baseline either reports and makes it the baseline, or leaves it the candidate with a longer streak |
| Stability.BaselineFrame | core/video.py:151-152 | A frame equal to the baseline neither reports nor moves the baseline |
| Stability.RepeatedFramesInvariant | core/video.py:139-154 | For a repeated frame that has confidences: over n repeats of one non-baseline frame, either nothing was reported and the streak is at least n, or exactly one report was made and the frame is the baseline |
| Stability.RepeatedFramesReportOnce | core/video.py:139-154 | From any state, five or more repeats of a non-baseline frame with confidences report exactly once and leave that counter as baseline |
| Stability.NewCandidateStreak | core/video.py:140-145 | Fewer than five repeats of a frame not already in a running streak build a streak of that length without a report |
| Stability.FifthFrameReports | core/video.py:139-154 | Five repeats of such a frame report on the fifth exactly (when it has confidences) and end in state (counter, counter, 0) |
| Stability.ExampleOneChange | core/video.py:139-154 | From the fresh state, an empty frame followed by five `{paper box: 1}` frames reports exactly once, on the last frame |
| Stability.ExampleAlternating | core/video.py:140-145 | Alternating `{paper box: 1}` and `{tree: 1}` never reports |
| Stability.ExampleOrderIndependent | core/video.py:140-141 | Counters built in different orders compare equal, so the check does not depend on the order of detections |
| Stability.ExampleSilentClear | core/video.py:147-150 | A stable change to no detections moves the baseline without a report, so the earlier detection returning is reported again |
| Stability.StepSimulates | core/video.py:141-149 | One step of the tracker and of the reference machine that clears its candidate keeps the simulation relation and gives the same report |
| Stability.TrackerAgreesWithReference | core/video.py:141-149 | On every input sequence from the fresh state, the tracker reports exactly when the reference machine does |
| Detections.Tally | core/video.py:125-134 | One confidence is collected per counted box, so the number of confidences equals the counter's total count, and an empty counter means no confidences |
| Detections.UpdateStatus | core/video.py:120-136 | No box list gives an empty counter and no confidences; otherwise the result is the tally of the boxes, with as many confidences as counted boxes |
| Detections.TallyAppend | core/video.py:126-134 | The tally of two box lists one after the other is the sum of the counters and the concatenation of the confidences |
| Detections.TallyOne | core/video.py:129-134 | A single box adds its class and its confidence when its label is recognised, and nothing otherwise |
| Detections.TallyCountsRecognised | core/video.py:129-133 | A class is in the counter exactly when some box's label is recognised as that class |
| Detections.TallyRemove | core/video.py:126-134 | Removing one box from anywhere in the list removes exactly its contribution from the counter and from the confidences |
| Detections.TallyPermutation | core/video.py:126-134 | The same boxes in any order give the same counter and the same confidences up to order |
| Video.NewTrack | core/video.py:26-58 | A new track has the camera id of its direction, the fresh tracker, frame count 0 and last-logged second -1; its size is the first frame's, or 640x480 when that read failed |
| Video.Recv | core/video.py:62-110 | The frame count rises by one and is the presentation timestamp. A captured frame's colour index is `(now // 10) % len(colors)`, always in range. The colour change is logged exactly on a ten-second boundary that was not the last one logged. The tracker steps only on frames the detector handled, and an event is submitted exactly when the check reports. The marker's corner is `min(10, size)` in each dimension |
| Video.PtsConsecutive | core/video.py:63-110 | Over any run of `recv` calls the presentation timestamps are the consecutive numbers after the starting frame count |
| Video.PtsIncreasing | core/video.py:63-110 | Presentation timestamps strictly increase from frame to frame |
| Video.LogHistoryHolds | core/video.py:79-82 | With a wall clock that does not run backwards: every logged second is a ten-second boundary no later than the last-logged second, which is either the initial value (nothing logged) or the latest logged second |
| Video.LogOncePerTimestamp | core/video.py:79-82 | With a clock that does not run backwards, the colour log fires at most once per second value, and only when that second is a multiple of 10 |
| Video.RecvAllFollowsTracker | core/video.py:84-91 | Over any run of `recv` calls, the track's tracker is the stability tracker fed exactly the detected frames, and the submitted events are exactly its reported changes, in order |
| JsonValue.TruthyMeansNonEmpty | core/webrtc.py:83 | A value is truthy exactly when it is not `None`, `False`, `0`, `""`, `[]` or `{}` |
| Registry.SameCameraSameTrack | core/webrtc.py:12-30 | With an injective camera enumeration, all sessions for one camera have the same direction, so they share that direction's single video track |
| Registry.ClosePeerConnection | core/webrtc.py:55-59 | An absent key changes nothing. A present key's session is closed first and then its entry is deleted, unless `close` raised, which leaves the entry in place. An unhashable client raises. Every other key keeps its session, and the registry invariant is kept |
| Registry.Register | core/webrtc.py:71 | Assignment through the default dictionary registers the id at the key and leaves every other key unchanged |
| Registry.RegisterSession | core/webrtc.py:70-71 | A new open session for the direction is created under the next id and registered at the key; the creation is logged |
| Registry.OfferBody | core/webrtc.py:74-77 | The offer body is `offer_data["body"]` when `offer_data` is a dict with a `body` key, and `offer_data` itself otherwise |
| Registry.Loggable | core/webrtc.py:80 | The logging line succeeds only on a dict body, and fails when `sdp` is a number, a boolean or null, since `len` raises on those |
| Registry.Complete | core/webrtc.py:83 | An offer passes validation only when both `sdp` and `type` are present; then `sdp` is not the empty string and `type` is not null |
| Registry.Abandon | core/webrtc.py:116-120 | The `except` path never answers. It raises exactly when the client cannot be hashed or the close at the key raises; otherwise the key ends up empty and the session that was there is closed. The one close attempt is the only event logged, and no id is used up |
| Registry.AnswerOffer | core/webrtc.py:73-120 | A body the logging line cannot print (not a dict, or an `sdp` without a length) raises into the `except` path; so does a failed negotiation of a complete offer. When the `except` path closes the new session without a raise, the session is unregistered and nothing is returned. When that close raises, the exception propagates: the only change is the logged `CloseRaised`, and the new session stays registered and open. A loggable offer missing `sdp` or `type` returns no answer and changes nothing. An answer is the JSON of the camera id and the local description, for a complete offer. Other keys are untouched, and every event logged concerns the new session |
| Registry.CreateAndAnswer | core/webrtc.py:69-120 | After the key is cleared: at most one creation, logged first and under the next id; every later event concerns the new session; an offer that is loggable but lacks `sdp` or `type` leaves the new session registered and open; a failed negotiation closes and unregisters it when that close does not raise (the raising close is `Registry.CreateAndAnswerAbandoned`) |
| Registry.ProcessOffer | core/webrtc.py:62-120 | Any session at the key is closed before the new one is created. Other keys are untouched. The payload is `offer_data["body"]` when present and `offer_data` otherwise. An offer that is loggable but lacks `sdp` or `type` returns nothing and keeps the new session registered and open. A failed negotiation closes and removes the new session when that close does not raise (the raising close is `Registry.ProcessOfferAbandoned`). An answer holds the camera id and local description of the new, open, registered session. An unhashable client raises and leaves the registry unchanged, and the call raises only for an unhashable client or a close that raised last |
| Registry.AnswerOfferOthersUntouched | core/webrtc.py:73-120 | Answering an offer changes no session other than the new one |
| Registry.CreateAndAnswerAbandoned | core/webrtc.py:73-120 | After the key is cleared and for a known direction, an offer whose logging line or negotiation raises ends in the `except` path. When the new session's close succeeds: no answer, the key empty, the session closed. When that close raises: the call raises, the new session stays registered and open, and the log gains exactly its creation and the raising close |
| Registry.ProcessOfferAbandoned | core/webrtc.py:62-120 | For a hashable client, a known direction and a key cleared without a raising close, an offer whose logging line or negotiation raises ends in the `except` path. When the new session's close succeeds: no answer, the key empty, the session closed. When that close raises: the call raises, the new session stays registered and open, and the last two events are its creation and the raising close |
| Registry.CreateAndAnswerLogsCreation | core/webrtc.py:69-71 | An unknown direction raises before anything is created and the `except` path finds nothing to close; otherwise the creation is the first event logged. No session that existed before is touched |
| Registry.ProcessOfferClosesOnlyTheReplaced | core/webrtc.py:55-71 | Every session other than the one at the key keeps its state; the replaced session ends closed unless both attempts to close it raise |
| Registry.ProcessOfferRetriesClose | core/webrtc.py:55-68 | A first close that raises sends the call to the `except` path, which closes the key again: when that close succeeds the entry is deleted and nothing is returned, when it raises the exception propagates; no session is created either way |
| Registry.ProcessOfferCreates | core/webrtc.py:62-71 | A new session is created exactly when the client can be hashed, the key was cleared without a raising close, and the direction names a camera |
| Registry.CreateAndAnswerKeepsInvariants | core/webrtc.py:17-33 | Creating and registering the new session keeps the registry invariant, and keeps every session on a camera of the enumeration with that camera's id when the key's camera id is the direction's |
| Registry.ProcessOfferKeepsInvariants | core/webrtc.py:62-71 | A whole `process_offer`, on every path, keeps the registry invariant, and keeps every session on a camera of the enumeration when the camera id passed in is the direction's |
| Registry.CloseAllLog | core/webrtc.py:125-129 | Closing the sessions in order logs one event per session, `CloseRaised` exactly for those whose `close` raises, and a failure does not stop the loop |
| Registry.CloseAllSessions | core/webrtc.py:125-129 | Closing the sessions in order closes exactly those whose `close` does not raise and changes nothing else in the session table |
| Registry.CloseAll | core/webrtc.py:125-129 | Closing the sessions of a list of keys keeps the dictionary, the next id and the set of session ids; what it does to each session and to the log is stated by `Registry.CloseAllSessions` and `Registry.CloseAllLog` |
| Registry.OrderKeys | core/webrtc.py:125 | The iteration lists every registered key exactly once |
| Registry.Cleanup | core/webrtc.py:123-132 | `close` is attempted once on every registered session, in some order. Each attempt is logged and failures do not propagate. Exactly the registered sessions whose close succeeded are closed. No session is closed twice, and the registry is empty afterwards |
| Registry.OnConnectionStateChange | core/webrtc.py:35-40 | On "failed" the session is closed but stays registered, and the one close attempt is logged; any other state changes nothing; other sessions are untouched |
| Signaling.ConnectIsStompFrame | core/signaling.py:24-26 | The CONNECT literal has the shape of a STOMP 1.2 frame: the command `CONNECT`, the single header `accept-version:1.0,1.1,2.0`, a blank line, an empty body and the NUL octet, followed by one end-of-line |
| Signaling.ParseMessage | core/signaling.py:45-65 | A result exists exactly for a `MESSAGE` frame whose body decodes. The endpoint is the destination header, or `""` when it is missing. The body is the decoded value |
| Signaling.ParseOffer | core/signaling.py:29-42 | Nothing is extracted unless the body is a dict with both `direction` and `client_id`. An unhashable direction raises. A camera id is produced exactly when the direction is a member name, and it is that member's value |
| Signaling.OfferForKnownCamera | core/signaling.py:33-39 | A dict offer whose direction names a camera yields that direction, its client and that camera's id |
| Signaling.AnswerDestinationInjective | core/signaling.py:83 | For string client ids without `/`, the answer destination determines both the client and the direction |
| Signaling.ProcessMessage | core/signaling.py:68-86 | Only decodable `MESSAGE` frames to `/topic/offer` for a known camera act; other frames, and offers without a known camera, change nothing. An unhashable direction raises inside `parse_offer`, is caught, and changes nothing. Exactly one answer is published when `process_offer` answers, to `/app/answer/{client}/{direction}`, carrying the answer unchanged. Exceptions from the offer are caught |
| Signaling.Str | core/signaling.py:83 | The f-string text of a client id: a string is itself, `None`, `True` and `False` print as their names, and a number prints as an optional minus sign and decimal digits, so only a string id can contain `/` |
| Signaling.AnswerDestination | core/signaling.py:83 | An answer destination is `/app/answer/` followed by the client id's text, `/` and the direction |
| Signaling.ProcessMessageKeepsInvariants | core/signaling.py:68-86 | Handling any frame keeps the registry invariant and keeps every session on a camera of the enumeration with that camera's id |
| Signaling.PublishedAnswerNamesCamera | core/signaling.py:74-83 | A published answer carries, under `key`, the camera id of the direction it is addressed to |
| Signaling.Serve | core/signaling.py:98-100 | The receive loop handles frames in order and stops exactly at the first connection failure; a caught exception does not stop it. The frames sent are exactly one send per published answer, in order (`Signaling.SendsOf`), and every published answer goes to an `/app/answer/` destination |
| Signaling.ServeHandlesInOrder | core/signaling.py:98-100 | The outcome of the k-th frame is `process_message` on that frame (`Signaling.Receive` is `process_message` on an inbound frame) applied to the registry that the frames before it left behind |
| Signaling.ServeKeepsInvariants | core/signaling.py:98-100 | The receive loop keeps the registry invariant and keeps every session on a camera of the enumeration, over any sequence of inbound frames |
| Signaling.ServeStopsAtConnectionLoss | core/signaling.py:98-103 | Nothing after a connection failure is handled: the run equals the run over the frames before it |
| Signaling.Execute | core/signaling.py:89-100 | The CONNECT literal is sent first and the subscription to `/topic/offer` second; everything after is exactly what the receive loop sends, and the registry is the one it leaves |

## Left out

- STOMP frame encoding and decoding (`stomper.subscribe`, `stomper.send`, `stomper.unpack_frame`) belong to a library. Frames are records, and the subscription and sends are values, not text.
- The websocket transport is left out. A failed `recv` is a `ConnectionLost` input, and `execute`'s outer exception handler only ends the loop.
- A websocket send that raises inside `process_message` is not modelled. Such an exception would be caught like the others.
- The media engine's internals (SDP offer/answer, ICE, DTLS, the TURN configuration) are an `Engine` value: which closes raise, and whether negotiation succeeds with some local description or raises.
- The returned answer is the JSON value before `json.dumps`. Its text form is not modelled.
- YOLO inference, `results[0].plot()`, OpenCV capture and drawing, and the av `VideoFrame` are foreign image code. A captured frame is reduced to the detector's outcome: the boxes, or an exception.
- The event publisher (the HTTP calls, the file name and the float mean of the confidences) is left out. The model records the submitted (counter, confidences) event, which always has confidences.
- The thread pool and asyncio scheduling are concurrency, not behaviour. Each call is one atomic step.
- The prototype scripts, the application wiring, model loading and logger configuration are not part of this model. Log lines are not modelled, except the colour log's firing condition and the registry's event log.
- `color_mapper` is not part of this model. Only the size of its palette enters.
- Video.Recv: requires a non-empty colour palette. The palette `colors` is imported from `enums/color_mapper.py`, which is not part of this model; only its length enters. On an empty palette the source would raise `ZeroDivisionError` at `% len(colors)`.
- Video.Recv: exceptions raised after `check_condition` are not modelled. They would come from `executor.submit`, `cv2.rectangle` or `cv2.cvtColor` (core/video.py:90-102). The source would then log the error and return the frame unannotated; the tracker has already moved, and after a failed `submit` no event reaches the executor. `DetectorRaised` covers only inference, `update_status` and `plot` raising before the check.
- ClassEnum.Classify: lower-cases ASCII letters only. Python's `str.lower` also maps non-ASCII letters, but only two of them lower to text with ASCII letters in it. U+212A KELVIN SIGN lowers to `k`, which no class value contains. U+0130 lowers to `i` followed by a combining dot above, which is not ASCII. Every other non-ASCII letter stays non-ASCII. So the lookup finds the same class as the source for every label.
- JSON numbers are integers. Floating-point values, and Python's equality of `True` with `1` as a dictionary key, are not modelled.
- `CameraDirection` is a map parameter. Injectivity is assumed only where a property needs it (`Registry.SameCameraSameTrack`).
- Video.LogHistoryHolds: requires a wall clock that does not run backwards, for the same reason as `Video.LogOncePerTimestamp`. With a clock that steps back, the last-logged second need not be the largest.
- Video.LogOncePerTimestamp: requires a wall clock that does not run backwards. The source reads `time.time()`, which may step back.
- Stability.RepeatedFramesInvariant: requires the repeated frame to have confidences. Without them the baseline moves to the frame with no report, and the invariant as stated does not hold.
- Stability.RepeatedFramesReportOnce: requires the repeated frame to have confidences. With none, the baseline still moves but nothing is reported, as `Stability.CheckCondition` states.
- Registry.OnConnectionStateChange: a `close` that raises inside the handler is logged as `CloseRaised` and otherwise ignored. What the event emitter does with that exception is outside the model.
- Signaling.ConnectIsStompFrame: proves only the frame grammar's shape. STOMP 1.2 also requires a `host` header on CONNECT, which the literal lacks; the broker's acceptance of it is outside the model.
- Registry.Cleanup: whether each `close` raises is a parameter, also for a session already closed (for example by the "failed" handler). The media engine's own rule for closing a closed session is not modelled.
- Registry.ProcessOffer: each session's first and second `close` within one call have their own outcomes (`closeRaises`, `retryRaises`). Outcomes do not carry over between calls.
