/** The camera fragment as an object: its five decision fields, updated in
    place by the audio-verdict listener and the per-frame detection handler,
    and the log of commands it has issued to the camera and the activity. */
module Camera {
  import opened Detections
  import opened AccidentLogic
  import opened Episodes

  class CameraFragment {
    /** Camera on. */
    var state: bool
    /** Accident time, counted in frames of 1/30 s. */
    var accidentTime: int
    var isAudioAccident: bool
    var isPhoneCall: bool
    /** Frames the camera is still held on after the last "Accident" verdict. */
    var cameraOnInterval: int
    /** Every camera start, camera stop and emergency call issued so far, in order. */
    var commands: seq<Command>

    /** The five fields as one value. */
    function Fields(): Snapshot
      reads this
    {
      Snapshot(state, accidentTime, isAudioAccident, isPhoneCall, cameraOnInterval)
    }

    /** The fields are consistent and the log never holds two calls in one
        episode; while the episode's call is pending, the call flag is set. */
    ghost predicate Valid()
      reads this
    {
      RunInvariant(Step(Fields(), commands))
    }

    /** The fragment as it is created: camera on, nothing accumulated, no flag
        armed, hold counter 0, nothing issued yet. */
    constructor ()
      ensures Valid()
      ensures state && accidentTime == 0 && !isAudioAccident && !isPhoneCall
      ensures cameraOnInterval == 0 && commands == []
    {
      state := true;
      accidentTime := 0;
      isAudioAccident := false;
      isPhoneCall := false;
      cameraOnInterval := 0;
      commands := [];
    }

    /** The "Accident" fragment-result listener; `isAccident` is true for the
        verdict "Accident" and false for "No Accident". The call flag that the
        source clears 500 ms after a shutdown is cleared at the shutdown. */
    method OnAudio(isAccident: bool)
      requires Valid()
      modifies this
      ensures Valid() && CallsSeparated(commands)
      ensures Fields() == AudioStep(old(Fields()), isAccident).next
      ensures commands == old(commands) + AudioStep(old(Fields()), isAccident).issued
      ensures isAccident ==> cameraOnInterval == HoldFrames && accidentTime == 0 && state
      ensures isAudioAccident == (old(isAudioAccident) || (isAccident && !old(state)))
    {
      ghost var before, log := Fields(), commands;
      ghost var step := AudioStep(before, isAccident);
      if isAccident {
        cameraOnInterval := HoldFrames;
        accidentTime := 0;
        if !state {
          commands := commands + [StartCamera];
          if !isAudioAccident {
            isPhoneCall := false;
            isAudioAccident := true;
            accidentTime := 0;
          }
          state := true;
        }
      } else {
        if state && cameraOnInterval <= 0 {
          commands := commands + [StopCamera];
          isPhoneCall := false;
          state := false;
        }
      }
      assert Fields() == step.next && commands == log + step.issued;
      ApplyKeepsInvariant(Step(before, log), Audio(isAccident));
      OneCallPerEpisodeMeansSeparated(commands);
    }

    /** The per-frame detection handler: one frame of the hold is used up,
        a lying first person adds a frame of accident time while an audio
        accident is armed, and the emergency call goes out once the time
        passes the threshold, guarded by the call flag. */
    method OnFrame(dets: seq<Detection>)
      requires Valid()
      modifies this
      ensures Valid() && CallsSeparated(commands)
      ensures Fields() == FrameStep(old(Fields()), dets).next
      ensures commands == old(commands) + FrameStep(old(Fields()), dets).issued
      ensures cameraOnInterval == old(cameraOnInterval) - 1
      ensures accidentTime >= old(accidentTime)
      ensures state == old(state) && isAudioAccident == old(isAudioAccident)
    {
      ghost var before, log := Fields(), commands;
      ghost var step := FrameStep(before, dets);
      var person := FindPerson(dets);
      cameraOnInterval := cameraOnInterval - 1;
      if person.Some? {
        var box := person.value;
        if Width(box) > Height(box) && isAudioAccident {
          accidentTime := accidentTime + 1;
        }
        if accidentTime > ThresholdFrames {
          if !isPhoneCall {
            isPhoneCall := true;
            commands := commands + [EmergencyCall];
          }
        }
      }
      assert Fields() == step.next && commands == log + step.issued;
      ApplyKeepsInvariant(Step(before, log), Frame(dets));
      OneCallPerEpisodeMeansSeparated(commands);
    }
  }
}
