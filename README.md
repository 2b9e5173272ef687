# Accident decision of the camera fragment

The Android app pairs an audio classifier ("accident sound" or not) with a
person detector running on camera frames. `CameraFragment` holds the
decision between the two in five private fields: `state` (camera on),
`accident_time`, `is_audio_accident`, `is_phone_call` and
`camera_on_interval`. Two handlers change them.

- The audio-verdict listener receives "Accident" or "No Accident". It refills
  the camera hold counter and clears the accident time. It powers the camera
  on, or off once the hold has run out. It also arms the episode flags.
- The per-frame detection handler counts the hold down by one frame. It adds
  1/30 s of accident time when the first detected person's box is wider than
  tall and an audio accident is armed. On a frame in which a person is
  detected and the accident time has passed 10 s, it asks the activity for
  the emergency call, guarded by `is_phone_call`.

This project models that state machine and proves what it guarantees.

- `detections.dfy` (module `Detections`): detections with their label and
  integer box edges, and the lookup of the first detection labelled "person".
- `accident_logic.dfy` (module `AccidentLogic`): the five fields as a value
  (`Snapshot`). The two handlers become functions `AudioStep` and `FrameStep`.
  Each returns the new fields and the commands it issued: camera start, camera
  stop, emergency call. A state invariant `Consistent` is kept by both.
- `episodes.dfy` (module `Episodes`): serialized runs over a stream of events
  and the command log they produce. It proves at most one emergency call per
  episode, meaning between two calls the camera was stopped. It also proves
  that `is_audio_accident` never goes back to false, that the accident time
  only drops on an "Accident" verdict, and how runs of identical frames behave.
- `scenarios.dfy` (module `Scenarios`): whole event streams. These cover a
  sustained fall from start-up, a repeated alert after the call, an episode
  with nobody in view, and one with a standing person.
- `camera.dfy` (module `Camera`): the fragment as a class. It has the five
  fields and a command log. `OnAudio` and `OnFrame` update the fields in place
  as the source does. Each is proved equal to the step function and to keep
  the one-call-per-episode invariant.

Units: the accident time is counted in frames. The source's `accident_time > 10.0`
with steps of `1.0/30.0` becomes "more than 300 frames" (`ThresholdFrames`).
The hold of `30 * 20` frames is `HoldFrames` = 600.

Behaviour as written. The model follows the code, including where the intent
looks different:
- Every "Accident" verdict sets the accident time back to 0, even with the camera
  already on (`CameraFragment.kt:215`). A repeated alert mid-episode therefore
  restarts the accumulation, but it does not re-arm the call.
- `is_audio_accident` is never set back to false. After the first episode,
  every frame whose first detected person lies accumulates time, even without a
  fresh alert.
- A shutdown clears only `state` and `is_phone_call`. It does not clear the
  accident time or `is_audio_accident`. It does not look at `is_audio_accident`
  either: the hold counter and camera state decide it alone.
- At start-up the camera is on with a hold of 0 frames. The first "No Accident"
  verdict stops it.

## Model

| member | source | states |
|---|---|---|
| Detections.FindPerson | app/src/main/java/com/example/pj4test/fragment/CameraFragment.kt:285-287 | a detection it returns is labelled "person" |
| Detections.FindPersonIsFirst | app/src/main/java/com/example/pj4test/fragment/CameraFragment.kt:285-287 | the lookup is None exactly when no detection is labelled "person"; otherwise it is the detection at the first such index |
| Detections.FindPersonIgnoresLater | app/src/main/java/com/example/pj4test/fragment/CameraFragment.kt:287 | the first person is found whatever detections follow it |
| AccidentLogic.AudioStep | app/src/main/java/com/example/pj4test/fragment/CameraFragment.kt:209-241 | "Accident": hold set to 600, accident time 0. With the camera off: one start, camera on, audio accident armed, call flag cleared exactly if no audio accident was armed. With the camera on: no command and flags unchanged. "No Accident": a stop exactly when the camera is on and the hold is at most 0, which turns the camera off and clears the call flag; otherwise nothing changes |
| AccidentLogic.FrameStep | app/src/main/java/com/example/pj4test/fragment/CameraFragment.kt:284-330 | hold drops by exactly 1. Accident time rises by one frame if and only if the first person is wider than tall and an audio accident is armed; otherwise it is unchanged. The call is issued if and only if a person is seen, the time is over 300 frames and no call was made; the call flag is then set. Camera and audio flag unchanged |
| AccidentLogic.InitialConsistent | app/src/main/java/com/example/pj4test/fragment/CameraFragment.kt:62-66 | the initial fields (camera on, hold 0, flags false, time 0) satisfy the invariant |
| AccidentLogic.AudioStepConsistent | app/src/main/java/com/example/pj4test/fragment/CameraFragment.kt:209-241 | the listener keeps the invariant: time >= 0, time > 0 or call flag set only with an audio accident armed, camera off only with the hold used up |
| AccidentLogic.FrameStepConsistent | app/src/main/java/com/example/pj4test/fragment/CameraFragment.kt:270-335 | the frame handler keeps the same invariant |
| Episodes.ApplyKeepsInvariant | app/src/main/java/com/example/pj4test/fragment/CameraFragment.kt:310-316 | one more event keeps the state consistent, keeps the log free of a second call in one episode, and keeps the call flag set while a call is pending |
| Episodes.RunKeepsInvariant | app/src/main/java/com/example/pj4test/fragment/CameraFragment.kt:209-335 | the run invariant holds after every stream of events from a consistent state |
| Episodes.AtMostOneCallPerEpisode | app/src/main/java/com/example/pj4test/fragment/CameraFragment.kt:310-316 | in the log of any run from a consistent state, any two emergency calls have a camera stop between them |
| Episodes.OneCallPerEpisodeMeansSeparated | app/src/main/java/com/example/pj4test/fragment/CameraFragment.kt:310-316 | the step-by-step "no call while one is pending" reading of the log is equivalent to "a stop between every two calls" |
| Episodes.AudioAccidentStaysArmed | app/src/main/java/com/example/pj4test/fragment/CameraFragment.kt:218-222 | once `is_audio_accident` is true it stays true after any stream of events |
| Episodes.AccidentTimeNeverDecreases | app/src/main/java/com/example/pj4test/fragment/CameraFragment.kt:304-308 | a stream without an "Accident" verdict never lowers the accident time |
| Episodes.FramesCountDownHold | app/src/main/java/com/example/pj4test/fragment/CameraFragment.kt:288 | n frames lower the hold by exactly n and leave the camera state alone |
| Episodes.FrameDependsOnFirstPerson | app/src/main/java/com/example/pj4test/fragment/CameraFragment.kt:287-316 | a frame acts exactly like the frame holding only its first person: later detections change neither the fields nor the commands |
| Episodes.RunFramesFirstPerson | app/src/main/java/com/example/pj4test/fragment/CameraFragment.kt:287-316 | the same holds for any number of repeated frames |
| Episodes.LyingPersonFrames | app/src/main/java/com/example/pj4test/fragment/CameraFragment.kt:304-316 | n frames whose first person lies (box wider than tall), whatever else they hold, with an armed audio accident add n frames of time. Exactly one call is issued if the time passes 300 frames and no call was made before; none otherwise |
| Episodes.NoPersonFrames | app/src/main/java/com/example/pj4test/fragment/CameraFragment.kt:321-330 | frames without a person change nothing but the hold and issue nothing |
| Episodes.StandingPersonFrames | app/src/main/java/com/example/pj4test/fragment/CameraFragment.kt:304 | frames whose first person stands (box not wider than tall), whatever else they hold, change nothing but the hold and issue nothing while the time is at or below the threshold |
| Scenarios.ScenarioSustainedFall | app/src/main/java/com/example/pj4test/fragment/CameraFragment.kt:62-66 | from start-up: "No Accident", "Accident", then n lying frames issue stop and start. They add the call exactly when n > 300, and the accident time ends at n |
| Scenarios.ScenarioRepeatedAlert | app/src/main/java/com/example/pj4test/fragment/CameraFragment.kt:212-225 | after the call, a second "Accident" refills the hold and clears the time, and no further call follows however many lying frames come |
| Scenarios.ScenarioNoEvidence | app/src/main/java/com/example/pj4test/fragment/CameraFragment.kt:226-236 | an alerted episode with nobody in view: after 600 frames the next "No Accident" issues exactly one stop and nothing else |
| Scenarios.ScenarioStandingPerson | app/src/main/java/com/example/pj4test/fragment/CameraFragment.kt:304 | an alerted episode with a standing person for 600 frames: no call, accident time unchanged, then one stop |
| Camera.CameraFragment.constructor | app/src/main/java/com/example/pj4test/fragment/CameraFragment.kt:62-66 | camera on, time 0, both flags false, hold 0, empty log, invariant established |
| Camera.CameraFragment.OnAudio | app/src/main/java/com/example/pj4test/fragment/CameraFragment.kt:209-241 | the fields become `AudioStep` of the old fields and its commands are appended to the log. The invariant is kept and calls stay separated by stops. "Accident" leaves the hold at 600, the time at 0 and the camera on. The audio flag only ever turns on |
| Camera.CameraFragment.OnFrame | app/src/main/java/com/example/pj4test/fragment/CameraFragment.kt:270-335 | the fields become `FrameStep` of the old fields and its commands are appended to the log. The invariant is kept. The hold drops by 1, the time does not drop, and the camera and audio flag are unchanged |

## Left out

- Camera setup and lifecycle (`setUpCamera`, `bindCameraUseCases`, the bodies of `startCamera` and `shutdownCamera`, executors): platform I/O. A start or stop is a logged command.
- The 500 ms delays: `startCamera` binds the camera 500 ms later, and the shutdown path clears `is_phone_call` 500 ms later. The model applies both at once, so an event arriving inside those 500 ms is not modelled as seeing the old value.
- Frames are not tied to the camera being on: the model accepts a frame in any state. After `shutdownCamera` clears the analyzer, the source receives at most an analysis already in flight, because `cameraExecutor.shutdown()` does not cancel it and its result still arrives through `runOnUiThread`. The model clears `is_phone_call` at the shutdown, so such a late frame with a person can issue a second emergency call with the camera off; the source suppresses it while the flag stays set for 500 ms.
- `camera_on_interval` is a 32-bit Kotlin `Int` that every frame decrements. With no audio verdict for about 2^31 frames it wraps to `Int.MAX_VALUE`, after which the `camera_on_interval <= 0` test no longer stops the camera. The model's hold counter is an unbounded integer and never wraps.
- Bitmap copying in `detectObjects` and TF Lite inference: foreign calls. Detections and the audio verdict are plain inputs.
- The audio classifier's `score > THRESHOLD` comparison (`AudioFragment.kt`): its outcome is the boolean input of `OnAudio`.
- Placing the phone call (`MainActivity.kt`, permission checks and `ACTION_DIAL`): the model logs that the callback was requested. If the activity is not a call listener, the source's `?.` drops the call silently; that is not modelled.
- Floating-point accident time: the model counts frames and compares with 300 frames. Rounding in the repeated `1.0/30.0` addition and the `roundToInt` display are not modelled.
- `RectF` float geometry: box edges are integers.
- The crash paths `results!!` on a null result list and `categories[0]` on a detection without categories: a frame is a (possibly empty) list and each detection has a label.
- UI updates (colours, texts, overlay redraw) and `runOnUiThread`: UI and thread hopping. Events are taken to be serialized.
