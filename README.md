# Driver monitoring: the event-detection engine

This project models the per-frame event logic of a driver-monitoring service. The logic is the body of `detection_loop` in `app.py`. Each camera frame yields an eye-aspect-ratio (EAR) and a mouth-aspect-ratio (MAR), or no face at all. The engine turns that stream into three kinds of events and three counters:

- **Prolonged eye closure.** A debounce counter fires once after `EYE_AR_CONSEC_FRAMES` (12) consecutive frames with `ear < EYE_AR_THRESH` (0.23). The detector then stays tripped until a frame with `ear > EYE_AR_THRESH + EYE_AR_HYST` (0.25).
- **Confirmed yawn.** The mouth opens at `MAR_OPEN` (0.70) and closes at `MAR_CLOSE` (0.55). The yawn counts only if the mouth stayed open for at least `YAWN_MIN_OPEN_TIME` (0.5 s).
- **Yawn series.** Confirmed-yawn timestamps are kept in a window. Entries older than `YAWN_SERIES_WINDOW` (8 s) are popped from the front. When the window holds `YAWN_SERIES_COUNT` (3) timestamps, an alert is raised and the window is cleared.
- **Shared state.** The counters `yawns_total`, `eye_closures_total` and `alerts_total`, and an event log capped at 50 entries. The dashboard is sent the counters and the last 20 log entries.
- **No face.** A frame without a face resets only the eye detector.

## Layout

- `config.dfy` (`Config`): the constants of `app.py:39-48`, the log capacity (50) and the broadcast size (20).
- `event_log.dfy` (`EventLog`): the `deque(maxlen=50)` append as `Push`, its repetition `PushAll`, and `LastN` for the `[-20:]` slice.
- `eye_detector.dfy` (`EyeDetector`): the eye state machine `Step`, the no-face reset, and runs of frames with the debounce and hysteresis lemmas.
- `yawn_detector.dfy` (`YawnDetector`): the mouth state machine `Step` and runs of samples with the minimum-duration lemma.
- `yawn_series.dfy` (`YawnSeries`): the front eviction `Evict`, a confirmed yawn fed to the window (`Confirm`), runs of confirmations, and concrete series scenarios.
- `engine.dfy` (`Engine`):
  - the whole state as `EngineState` and its invariant `Inv`;
  - one face frame `FaceStep` (the eye phase, then the yawn phase, in the code's order) and one no-face frame `NoFaceStep`;
  - the lemmas on frames and on runs of frames;
  - the class `Monitor`. Its fields are the loop's locals (`eye_counter`, `eye_episode_active`, `yawn_open`, `yawn_open_start`) and the globals (`stats`, `events`, `yawn_times`). Its methods update them in place as the loop does, including the `popleft` eviction `while` loop. Each method is proved to produce exactly the state that `FaceStep`/`NoFaceStep` specify.

Events are a datatype `Event`. `Event.Label()` gives the exact string the code appends. The counters are exact naturals, and time and ratios are exact reals.

Details of the code the model keeps:

- The log stores labels only, not `(label, timestamp)` pairs.
- `yawn_open_start` starts at `0.0` and is not cleared when the mouth closes: `YawnState.openStart` keeps its old value.
- The comment at app.py:176 names a second way to close a yawn (the mouth has been open a long time and the MAR drops a little), but the code only closes the mouth when `mar <= MAR_CLOSE`. The model follows the code: `OpenStaysOpen` shows an open mouth stays open however long while `mar > 0.55`.
- The window is evicted only when a yawn is confirmed. Between confirmations it can hold entries older than 8 s. They are dropped before the next count check, so no alert is affected. Accordingly, `FaceStepKeepsInv` and `Monitor.FaceFrame` promise "every timestamp is within 8 s of now" only after a frame that confirms a yawn.

`FaceFrame` requires that no stored yawn timestamp is later than `now`. The loop reads `time.time()` once per frame, and this precondition stands in for that clock not going backwards. It keeps the window in time order, and the eviction loop's window property depends on that order.

## Model

| member | source | states |
|---|---|---|
| `EventLog.Push` | app.py:30 | appending to the capped log gives the smaller of 50 and the old length plus one entries: the newest 50 entries of the old log and the new entry taken together (at most 49 old entries, then the new one) |
| `EventLog.LastN` | app.py:121 | the `[-20:]` slice has min(20, length) entries; with `LastNOfSuffix` and `PushAllKeepsNewest` it is the newest entries in order |
| `EventLog.PushAll` | app.py:30 | a log appended to any number of times never exceeds its capacity |
| `EventLog.PushAllKeepsNewest` | app.py:30 | after any number of appends the log holds exactly the newest 50 entries of everything appended, in insertion order (so after 60 insertions, the last 50) |
| `EventLog.PushAllConcat` | app.py:153-194 | appending two batches of entries is the same as appending their concatenation |
| `EyeDetector.Inv` | app.py:147-166 | the eye invariant: the counter stays below 12 while armed and is 0 while tripped, so a tripped detector is exactly `Tripped` |
| `EyeDetector.Step` | app.py:143-166 | keeps the counter below 12 and at 0 while tripped; fires only from armed on a closed frame and then trips with counter 0; an open frame while armed resets to armed with counter 0 and no event; while tripped it never fires and it stays tripped exactly when `ear <= 0.25` |
| `EyeDetector.RunFrames` | app.py:143-166 | a run of face frames raises at most one closure per frame and keeps the eye invariant (counter below 12, 0 while tripped) |
| `EyeDetector.NoFace` | app.py:111-114 | a no-face frame leaves the eye detector armed with counter 0 |
| `EyeDetector.BlinksAreFiltered` | app.py:147-161 | from the reset state, a stream whose every closed run is shorter than 12 frames raises no event; the counter ends equal to the length of the closed run the stream ends in |
| `EyeDetector.ShortClosureIsSilent` | app.py:147-161 | from an armed state with counter c, fewer than 12 - c frames raise no event and leave the detector armed |
| `EyeDetector.SustainedClosureFires` | app.py:149-159 | from an armed state with counter c, 12 - c closed frames raise exactly one event and leave the detector tripped with counter 0 |
| `EyeDetector.NoFlutter` | app.py:162-166 | while no frame exceeds 0.25, at most one event fires; after an event the detector is tripped; a tripped detector raises nothing and stays tripped |
| `EyeDetector.OneEventPerEpisode` | app.py:143-166 | from any armed state with counter c (c < 12), at least 12 - c closed frames followed by one frame above 0.25 raise exactly one event and leave the detector armed with counter 0 (from the reset state: at least 12 closed frames) |
| `EyeDetector.RunAppend` | app.py:98-166 | processing two streams one after the other adds their event counts |
| `EyeDetector.ClosureScenario` | app.py:143-166 | twelve frames at EAR 0.15 followed by one at 0.30 raise exactly one closure and re-arm |
| `YawnDetector.Step` | app.py:169-185 | a yawn is confirmed if and only if the mouth was open, `mar <= 0.55` and it was open at least 0.5 s; a closed mouth opens (start = now) exactly when `mar >= 0.70`; an open mouth with `mar > 0.55` is unchanged; an open mouth with `mar <= 0.55` always closes |
| `YawnDetector.RunSamples` | app.py:169-185 | a run of samples confirms at most one yawn per two samples, plus one if the mouth starts open, since each confirmation needs an opening sample before its closing one |
| `YawnDetector.RunAppend` | app.py:169-185 | processing two sample streams one after the other adds their confirmation counts |
| `YawnDetector.ClosedStaysClosed` | app.py:170-173 | a closed mouth stays closed and confirms nothing while `mar < 0.70` |
| `YawnDetector.OpenStaysOpen` | app.py:174-177 | an open mouth keeps its start time and confirms nothing while `mar > 0.55`, however long |
| `YawnDetector.OpenPeriodConfirmsIffLongEnough` | app.py:169-185 | one open period confirms exactly one yawn if it lasted at least 0.5 s and none otherwise; the mouth ends closed |
| `YawnDetector.YawnScenario` | app.py:169-185 | MAR 0.75 for 0.6 s, then 0.40, confirms one yawn |
| `YawnSeries.Evict` | app.py:189-190 | the `popleft` loop: it never grows the window, and a non-empty result starts at an entry at most 8 s old; its full meaning is given by `EvictDropsStalePrefix` and `EvictKeepsWindow` |
| `YawnSeries.EvictDropsStalePrefix` | app.py:189-190 | eviction removes a prefix whose every entry is strictly more than 8 s old and stops at an entry at most 8 s old; an entry exactly 8 s old is kept |
| `YawnSeries.EvictKeepsWindow` | app.py:189-190 | for ordered timestamps, eviction keeps order and a timestamp survives if and only if it is at most 8 s before now |
| `YawnSeries.SortedSnoc` | app.py:187 | appending a timestamp no earlier than the stored ones keeps the window ordered |
| `YawnSeries.Confirm` | app.py:186-196 | raises an alert if and only if the evicted window reaches 3 entries; an alert empties the window; the window afterwards always holds fewer than 3 entries; without an alert the window is exactly the old window plus now, evicted (with `EvictKeepsWindow`: the stored yawns within 8 s of now, then now) |
| `YawnSeries.ConfirmKeepsWindow` | app.py:187-196 | starting from an ordered window with no timestamp after now, the window stays ordered and every entry is within 8 s before now |
| `YawnSeries.AlertsAreEarned` | app.py:191-196 | over any sequence of confirmations, alerts × 3 + window size never exceeds the window's initial size plus the number of confirmations |
| `YawnSeries.Series` | app.py:186-196 | a sequence of confirmations raises at most one alert each, and after at least one confirmation the window holds fewer than 3 entries |
| `YawnSeries.SeriesAppend` | app.py:186-196 | feeding two batches of confirmations one after the other adds their alerts |
| `YawnSeries.ConfirmFirst` | app.py:186-196 | a yawn confirmed into an empty window is the only entry and raises no alert |
| `YawnSeries.ThreeWithinWindowAlert` | app.py:186-196 | any three yawns at t1 ≤ t2 ≤ t3 with t3 - t1 ≤ 8 s, fed to an empty window, raise exactly one alert and leave the window empty |
| `YawnSeries.SeriesScenario` | app.py:186-196 | yawns at 0, 3 and 6 s raise one alert and leave the window empty |
| `YawnSeries.SeriesRestartsAfterAlert` | app.py:186-196 | a fourth yawn at 6.5 s after that alert is alone in the window and raises no alert |
| `YawnSeries.EvictionScenario` | app.py:189-190 | yawns at 0 and 9 s never share the window |
| `Engine.Event.Label` | app.py:153-194 | every event kind has a non-empty label, the exact string the code appends |
| `Engine.LabelsDistinct` | app.py:153-194 | two log entries have the same label if and only if they are the same kind of event |
| `Engine.Inv` | app.py:23-33 | the frame invariant; whenever it holds, alerts never exceed closures plus a third of the confirmed yawns |
| `Engine.Log` | app.py:153-194 | `events.append` leaves exactly the newest 50 entries of the old log and the new entry taken together (at most 49 old entries, then the new one), and changes nothing but the log |
| `Engine.EyePhase` | app.py:143-166 | the eye part of a frame keeps the log within 50 entries |
| `Engine.ConfirmYawn` | app.py:182-196 | recording a confirmed yawn keeps the log within 50 entries |
| `Engine.YawnPhase` | app.py:169-196 | the yawn part of a frame keeps the log within 50 entries |
| `Engine.FaceStep` | app.py:143-196 | a face frame keeps the log within 50 entries |
| `Engine.NoFaceStep` | app.py:111-114 | a no-face frame arms the eye detector with counter 0 and leaves the mouth state, the window, the counters and the log unchanged; it keeps the invariant |
| `Engine.FaceStepKeepsInv` | app.py:143-196 | a face frame keeps the eye invariant, log ≤ 50, window < 3, window ordered, and (alerts − closures) × 3 + window size ≤ yawns; after a confirming frame every window entry is within 8 s before now |
| `Engine.EyePhaseAccounting` | app.py:151-159 | the eye phase appends exactly its events, adds their number to both the closure and the alert counter, and leaves the yawn counter, mouth state and window alone |
| `Engine.YawnPhaseAccounting` | app.py:180-196 | the yawn phase appends exactly its events; the yawn counter grows by the confirmed-yawn entries and the alert counter by the series-alert entries; the closure counter is unchanged |
| `Engine.FrameAccounting` | app.py:143-196 | over a whole face frame, the log receives exactly the frame's events in code order; each counter grows by the number of its events among them, and alerts grow by closures plus series alerts |
| `Engine.ClosureFrameTouchesOnlyItsOwn` | app.py:151-159 | the eye part of the frame that reports a closure (`EyePhase`) sets the detector to tripped with counter 0, adds 1 to the closure and the alert counter, appends one closure entry, and touches nothing else; the yawn part of the same frame may still confirm a yawn |
| `Engine.QuietEyeFrame` | app.py:147-166 | the eye part of a frame without a closure event (`EyePhase`) changes only the eye state; the final eye state of the whole frame (`FaceStep`) is the eye detector's |
| `Engine.YawnFrame` | app.py:169-196 | the yawn phase never changes the eye state; the yawn counter grows exactly when a yawn is confirmed; without a confirmation only the mouth state changes; the window afterwards is the series step `Confirm` of the old window on a confirming frame and the old window otherwise |
| `Engine.NoFaceLeavesYawnPath` | app.py:111-114 | a no-face frame before a face frame changes neither that frame's mouth state, window nor yawn count |
| `Engine.Apply` | app.py:98-196 | any single frame keeps the log within 50 entries |
| `Engine.Run` | app.py:98-196 | any run of frames keeps the log within 50 entries |
| `Engine.CountersNeverDecrease` | app.py:23-27 | over any run of frames none of the three counters decreases |
| `Engine.RunKeepsInv` | app.py:98-196 | every run of frames whose clock does not go backwards keeps the invariant |
| `Engine.YawnsFollowMouth` | app.py:98-185 | over any run, the mouth state and the yawn count equal what the yawn detector alone yields on the face frames; no-face frames neither reset nor advance it |
| `Engine.FaceStepEye` | app.py:143-166 | a face frame's eye state and closure count are given by the eye detector's step alone |
| `Engine.ClosuresFollowEyes` | app.py:143-166 | over a run of face frames, the eye state and the closure count equal what the eye detector alone yields on their EARs |
| `Engine.EngineOneClosurePerEpisode` | app.py:143-166 | from any engine state whose eye detector is armed with counter c (c < 12), at least 12 - c closed face frames and one frame above 0.25 add exactly one closure and leave the detector armed with counter 0 |
| `Engine.Monitor.constructor` | app.py:23-94 | the detection state starts armed, mouth closed at 0.0, counters 0, log and window empty |
| `Engine.Monitor.FaceFrame` | app.py:143-196 | updates the fields in place to exactly `FaceStep` of the old state; keeps the invariant; after a confirming frame every window entry is within 8 s before now |
| `Engine.Monitor.EyeUpdate` | app.py:143-166 | the in-place eye branch yields exactly `EyePhase` of the old state |
| `Engine.Monitor.YawnUpdate` | app.py:169-185 | the in-place mouth branch yields exactly `YawnPhase` of the old state |
| `Engine.Monitor.RecordYawn` | app.py:182-196 | counting, logging and windowing a confirmed yawn yields exactly `ConfirmYawn` of the old state |
| `Engine.Monitor.EvictStale` | app.py:189-190 | the `popleft` loop leaves exactly `Evict` of the old window and changes nothing else |
| `Engine.Monitor.NoFaceFrame` | app.py:111-114 | the in-place reset yields exactly `NoFaceStep` of the old state and keeps the invariant |
| `Engine.Monitor.Broadcast` | app.py:120-121 | reports the three counters and the labels of the last 20 log entries (all of them when there are fewer), oldest first |

## Left out

- EAR and MAR computation (`eye_aspect_ratio`, `mouth_aspect_ratio`, the left/right average): floating-point Euclidean geometry. The ratios are inputs to `FaceStep` instead.
- Camera capture and its retry sleep, dlib face detection, landmark prediction and largest-face selection (`MAX_FACES`): I/O and foreign libraries. Their result is either a `Face` frame with its ratios or a `NoFace` frame.
- OpenCV overlay text, `imshow`, `waitKey` and the quit key: UI.
- Socket.IO emits, their `EMIT_STATS_EVERY` throttle and `last_emit`, and `print` logging: network I/O and console output. Only the content of one broadcast is modelled (`Monitor.Broadcast`), not when it is sent.
- `threading.Lock`, the daemon thread and the Flask route and server: the model is sequential. Within one frame the loop takes the lock separately for each event (app.py:153-156, 182-184, 192-194), so the lock makes each event's counter and log update atomic, not the whole frame. The broadcast snapshot still only sees whole frames because the same thread reads it after the frame's updates (app.py:116-121, 213-218); the model treats each frame as one step for that reason.
- Floating point: ratios and times are exact reals. At the `>=` and `<=` thresholds the source compares against the nearest double of each literal (the double for 0.70 is slightly below 0.70, the one for 0.55 slightly above 0.55), so a ratio equal to that double opens or closes the mouth in the source but not in the model. Rounding in `now - yawn_open_start` and `now - yawn_times[0]` is not modelled either.
- `time.time()`: the frame's time is the parameter `now`. The only assumption is that it does not precede any stored yawn timestamp.
- The dashboard script `static/js/app.js`: browser rendering of the broadcast, not part of this model.
