/** Concrete event streams: what the fragment does from start-up through a
    sustained fall, after a repeated alert, and when nothing corroborates. */
module Scenarios {
  import opened Detections
  import opened AccidentLogic
  import opened Episodes

  /** From start-up, "No Accident" then "Accident": the camera is stopped
      (its hold is 0), then restarted with the episode armed. */
  lemma StartUpThenAlert()
    ensures Run(Initial, [Audio(false), Audio(true)]) ==
      Step(Snapshot(true, 0, true, false, HoldFrames), [StopCamera, StartCamera])
  {
    var stopped := AudioStep(Initial, false);
    assert stopped == Step(Snapshot(false, 0, false, false, 0), [StopCamera]);
    var armed := AudioStep(stopped.next, true);
    assert armed == Step(Snapshot(true, 0, true, false, HoldFrames), [StartCamera]);
    RunOne(Initial, Audio(false));
    RunOne(stopped.next, Audio(true));
    RunAppend(Initial, [Audio(false)], [Audio(true)]);
    assert [Audio(false)] + [Audio(true)] == [Audio(false), Audio(true)];
  }

  /** From start-up, the alert followed by frames: the stop and the start,
      then whatever the frames do to the armed episode. */
  lemma StartUpThenFrames(dets: seq<Detection>, n: nat)
    ensures Run(Initial, [Audio(false), Audio(true)] + Repeat(dets, n)) ==
      var frames := RunFrames(Snapshot(true, 0, true, false, HoldFrames), dets, n);
      Step(frames.next, [StopCamera, StartCamera] + frames.issued)
  {
    StartUpThenAlert();
    RunAppend(Initial, [Audio(false), Audio(true)], Repeat(dets, n));
    RunRepeat(Snapshot(true, 0, true, false, HoldFrames), dets, n);
  }

  /** From start-up: the first "No Accident" stops the camera, an "Accident"
      restarts it and arms the episode, and frames whose first person lies then need more
      than 300 frames (10 s) for the one emergency call. */
  lemma ScenarioSustainedFall(dets: seq<Detection>, d: Detection, n: nat)
    requires FindPerson(dets) == Some(d) && WiderThanTall(d)
    ensures Run(Initial, [Audio(false), Audio(true)] + Repeat(dets, n)).issued ==
      if n > ThresholdFrames then [StopCamera, StartCamera, EmergencyCall]
      else [StopCamera, StartCamera]
    ensures Run(Initial, [Audio(false), Audio(true)] + Repeat(dets, n)).next.accidentFrames == n
  {
    StartUpThenFrames(dets, n);
    LyingPersonFrames(Snapshot(true, 0, true, false, HoldFrames), dets, d, n);
  }

  /** After the call, a further "Accident" refills the hold and clears the
      accident time but does not re-arm the call: however many frames with a
      lying first person follow, no second call is placed. */
  lemma ScenarioRepeatedAlert(s: Snapshot, dets: seq<Detection>, d: Detection, n: nat)
    requires s.cameraOn && s.audioAccident && s.phoneCall
    requires FindPerson(dets) == Some(d) && WiderThanTall(d)
    ensures Run(s, [Audio(true)]).next == s.(holdFrames := HoldFrames, accidentFrames := 0)
    ensures Run(s, [Audio(true)] + Repeat(dets, n)).issued == []
    ensures Run(s, [Audio(true)] + Repeat(dets, n)).next.accidentFrames == n
  {
    var alerted := AudioStep(s, true);
    assert alerted == Step(s.(holdFrames := HoldFrames, accidentFrames := 0), []);
    RunOne(s, Audio(true));
    RunAppend(s, [Audio(true)], Repeat(dets, n));
    RunRepeat(alerted.next, dets, n);
    LyingPersonFrames(alerted.next, dets, d, n);
  }

  /** An armed episode with nobody in view: after the full hold of frames
      the next "No Accident" stops the camera and no call was ever placed. */
  lemma ScenarioNoEvidence(s: Snapshot, dets: seq<Detection>)
    requires s.cameraOn && s.holdFrames == HoldFrames
    requires forall i :: 0 <= i < |dets| ==> !IsPerson(dets[i])
    ensures Run(s, Repeat(dets, HoldFrames) + [Audio(false)]).issued == [StopCamera]
    ensures Run(s, Repeat(dets, HoldFrames) + [Audio(false)]).next ==
      s.(cameraOn := false, phoneCall := false, holdFrames := 0)
  {
    RunAppend(s, Repeat(dets, HoldFrames), [Audio(false)]);
    RunRepeat(s, dets, HoldFrames);
    FindPersonIsFirst(dets);
    NoPersonFrames(s, dets, HoldFrames);
    RunOne(s.(holdFrames := 0), Audio(false));
  }

  /** An armed episode whose frames show a standing first person (box not
      wider than tall) for the whole hold: the accident time stays where the alert left it, no
      call is placed, and the next "No Accident" stops the camera. */
  lemma ScenarioStandingPerson(s: Snapshot, dets: seq<Detection>, d: Detection)
    requires s.cameraOn && s.holdFrames == HoldFrames && s.accidentFrames == 0
    requires FindPerson(dets) == Some(d) && !WiderThanTall(d)
    ensures Run(s, Repeat(dets, HoldFrames) + [Audio(false)]).issued == [StopCamera]
    ensures Run(s, Repeat(dets, HoldFrames) + [Audio(false)]).next ==
      s.(cameraOn := false, phoneCall := false, holdFrames := 0)
  {
    RunAppend(s, Repeat(dets, HoldFrames), [Audio(false)]);
    RunRepeat(s, dets, HoldFrames);
    StandingPersonFrames(s, dets, d, HoldFrames);
    RunOne(s.(holdFrames := 0), Audio(false));
  }
}
