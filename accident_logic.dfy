/** The accident-decision state of the camera fragment as a value, and the two
    event handlers as functions from the old state to the new state together
    with the commands the handler issues. */
module AccidentLogic {
  import opened Detections

  /** How long one "Accident" verdict keeps the camera on: 20 seconds at the
      30 frames per second the frame handler assumes. */
  const HoldFrames: int := 30 * 20
  /** The emergency call needs an accident time above 10 s; each corroborating
      frame adds 1/30 s, so that is more than 300 frames. */
  const ThresholdFrames: int := 30 * 10

  /** Side effects the handlers issue: power the camera on or off, or ask the
      activity to place the emergency call. */
  datatype Command = StartCamera | StopCamera | EmergencyCall

  /** The five fields of the fragment: camera on (`state`), accident time counted
      in frames, `is_audio_accident`, `is_phone_call`, `camera_on_interval`. */
  datatype Snapshot = Snapshot(
    cameraOn: bool,
    accidentFrames: int,
    audioAccident: bool,
    phoneCall: bool,
    holdFrames: int)

  /** Camera on, no accident time, no flag armed, hold counter 0. */
  const Initial: Snapshot := Snapshot(true, 0, false, false, 0)

  /** What one event does: the new state and the commands issued, in order. */
  datatype Step = Step(next: Snapshot, issued: seq<Command>)

  /** The listener for the audio verdict; `isAccident` is true for "Accident"
      and false for "No Accident". Shutdown clears the call flag at once; the
      source does that 500 ms later. */
  function AudioStep(s: Snapshot, isAccident: bool): (r: Step)
    // "Accident": hold counter refilled and accident time cleared, camera on or off
    ensures isAccident ==> r.next.holdFrames == HoldFrames && r.next.accidentFrames == 0
    // "Accident" with the camera off: one start, camera on, episode armed; the
    // call flag is cleared exactly when no episode was armed before
    ensures isAccident && !s.cameraOn ==>
      r.issued == [StartCamera] && r.next.cameraOn && r.next.audioAccident &&
      r.next.phoneCall == (s.audioAccident && s.phoneCall)
    // "Accident" with the camera on: no command, flags untouched
    ensures isAccident && s.cameraOn ==>
      r.issued == [] && r.next.cameraOn &&
      r.next.audioAccident == s.audioAccident && r.next.phoneCall == s.phoneCall
    // "No Accident": a stop exactly when the camera is on and the hold has run out
    ensures !isAccident ==> (r.issued == [StopCamera] <==> s.cameraOn && s.holdFrames <= 0)
    ensures !isAccident && r.issued == [StopCamera] ==>
      r.next == s.(cameraOn := false, phoneCall := false)
    ensures !isAccident && r.issued != [StopCamera] ==> r.next == s && r.issued == []
  {
    if isAccident then
      var s1 := s.(holdFrames := HoldFrames, accidentFrames := 0);
      if !s1.cameraOn then
        var s2 := if !s1.audioAccident
          then s1.(phoneCall := false, audioAccident := true, accidentFrames := 0)
          else s1;
        Step(s2.(cameraOn := true), [StartCamera])
      else
        Step(s1, [])
    else if s.cameraOn && s.holdFrames <= 0 then
      Step(s.(cameraOn := false, phoneCall := false), [StopCamera])
    else
      Step(s, [])
  }

  /** The handler for one frame of detections. */
  function FrameStep(s: Snapshot, dets: seq<Detection>): (r: Step)
    // every frame uses up one frame of the hold, whatever it shows
    ensures r.next.holdFrames == s.holdFrames - 1
    ensures r.next.cameraOn == s.cameraOn && r.next.audioAccident == s.audioAccident
    // the accident time grows by one frame exactly when the first person lies
    // down while an audio accident is armed, and is left alone otherwise
    ensures r.next.accidentFrames == s.accidentFrames + 1 <==>
      FindPerson(dets).Some? && WiderThanTall(FindPerson(dets).value) && s.audioAccident
    ensures r.next.accidentFrames == s.accidentFrames || r.next.accidentFrames == s.accidentFrames + 1
    // the call goes out only with a person in view, the accident time over the
    // threshold, and no call made earlier; it then sets the call flag
    ensures r.issued == [EmergencyCall] <==>
      FindPerson(dets).Some? && r.next.accidentFrames > ThresholdFrames && !s.phoneCall
    ensures r.issued == [] || r.issued == [EmergencyCall]
    ensures r.next.phoneCall == (s.phoneCall || r.issued == [EmergencyCall])
  {
    var person := FindPerson(dets);
    var s1 := s.(holdFrames := s.holdFrames - 1);
    if person.Some? then
      var s2 := if WiderThanTall(person.value) && s1.audioAccident
        then s1.(accidentFrames := s1.accidentFrames + 1)
        else s1;
      if s2.accidentFrames > ThresholdFrames && !s2.phoneCall then
        Step(s2.(phoneCall := true), [EmergencyCall])
      else
        Step(s2, [])
    else
      Step(s1, [])
  }

  /** The invariant every reachable state keeps: accident time is never
      negative and only grows once an audio accident is armed; the call flag
      needs an armed audio accident; a camera that is off has no hold left. */
  predicate Consistent(s: Snapshot)
  {
    && s.accidentFrames >= 0
    && (s.accidentFrames > 0 ==> s.audioAccident)
    && (s.phoneCall ==> s.audioAccident)
    && (!s.cameraOn ==> s.holdFrames <= 0)
  }

  lemma InitialConsistent()
    ensures Consistent(Initial)
  {
  }

  lemma AudioStepConsistent(s: Snapshot, isAccident: bool)
    requires Consistent(s)
    ensures Consistent(AudioStep(s, isAccident).next)
  {
  }

  lemma FrameStepConsistent(s: Snapshot, dets: seq<Detection>)
    requires Consistent(s)
    ensures Consistent(FrameStep(s, dets).next)
  {
  }
}
