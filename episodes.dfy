/** Runs of the fragment over a serialized stream of audio verdicts and frames,
    the command log such a run produces, and what holds of every run. */
module Episodes {
  import opened Detections
  import opened AccidentLogic

  /** One event delivered to the fragment; the handlers never run concurrently. */
  datatype Event = Audio(isAccident: bool) | Frame(dets: seq<Detection>)

  function Apply(s: Snapshot, e: Event): Step
  {
    match e
    case Audio(isAccident) => AudioStep(s, isAccident)
    case Frame(dets) => FrameStep(s, dets)
  }

  /** The state after all events, and every command issued on the way, in order. */
  function Run(s: Snapshot, evs: seq<Event>): Step
    decreases |evs|
  {
    if evs == [] then Step(s, [])
    else
      var before := Run(s, evs[..|evs| - 1]);
      var last := Apply(before.next, evs[|evs| - 1]);
      Step(last.next, before.issued + last.issued)
  }

  function Last<T>(log: seq<T>): T
    requires log != []
  {
    log[|log| - 1]
  }

  function Init<T>(log: seq<T>): seq<T>
    requires log != []
  {
    log[..|log| - 1]
  }

  /** The current episode has already placed its call: some EmergencyCall is
      not followed by a StopCamera. */
  predicate CallPending(log: seq<Command>)
  {
    if log == [] then false
    else if Last(log) == StopCamera then false
    else if Last(log) == EmergencyCall then true
    else CallPending(Init(log))
  }

  /** No EmergencyCall is issued while the episode's call is still pending. */
  predicate OneCallPerEpisode(log: seq<Command>)
  {
    log == [] ||
    (OneCallPerEpisode(Init(log)) && (Last(log) == EmergencyCall ==> !CallPending(Init(log))))
  }

  /** Independent statement of the same property: between any two calls the
      camera was stopped. */
  predicate CallsSeparated(log: seq<Command>)
  {
    forall i, j :: 0 <= i < j < |log| && log[i] == EmergencyCall && log[j] == EmergencyCall ==>
      StopCamera in log[i + 1..j]
  }

  /** A pending call is an EmergencyCall with no StopCamera after it. */
  lemma {:induction false} PendingCallIsOpen(log: seq<Command>)
    requires CallPending(log)
    ensures exists i :: 0 <= i < |log| && log[i] == EmergencyCall && StopCamera !in log[i + 1..]
  {
    var n := |log| - 1;
    if Last(log) == EmergencyCall {
      assert log[n + 1..] == [];
    } else {
      PendingCallIsOpen(Init(log));
      var i :| 0 <= i < n && log[..n][i] == EmergencyCall && StopCamera !in log[..n][i + 1..];
      assert log[i + 1..] == log[..n][i + 1..] + [log[n]];
    }
  }

  /** With no call pending, every EmergencyCall is followed by a StopCamera. */
  lemma {:induction false} NoPendingCallIsClosed(log: seq<Command>)
    requires !CallPending(log)
    ensures forall i :: 0 <= i < |log| && log[i] == EmergencyCall ==> StopCamera in log[i + 1..]
  {
    if log != [] {
      var n := |log| - 1;
      if Last(log) != StopCamera {
        NoPendingCallIsClosed(Init(log));
      }
      forall i | 0 <= i < |log| && log[i] == EmergencyCall
        ensures StopCamera in log[i + 1..]
      {
        if Last(log) == StopCamera {
          assert log[i + 1..][n - i - 1] == StopCamera;
        } else {
          assert log[..n][i] == EmergencyCall;
          assert log[i + 1..] == log[..n][i + 1..] + [log[n]];
        }
      }
    }
  }

  lemma CallPendingExactly(log: seq<Command>)
    ensures CallPending(log) <==>
      exists i :: 0 <= i < |log| && log[i] == EmergencyCall && StopCamera !in log[i + 1..]
  {
    if CallPending(log) {
      PendingCallIsOpen(log);
    } else {
      NoPendingCallIsClosed(log);
    }
  }

  /** Calls separated in a log are separated in each of its prefixes. */
  lemma SeparatedInit(log: seq<Command>)
    requires log != [] && CallsSeparated(log)
    ensures CallsSeparated(Init(log))
  {
    var init := log[..|log| - 1];
    forall i, j | 0 <= i < j < |init| && init[i] == EmergencyCall && init[j] == EmergencyCall
      ensures StopCamera in init[i + 1..j]
    {
      assert log[i] == EmergencyCall && log[j] == EmergencyCall;
      assert StopCamera in log[i + 1..j];
      assert init[i + 1..j] == log[i + 1..j];
    }
    assert CallsSeparated(init);
  }

  lemma {:induction false} OneCallPerEpisodeSeparates(log: seq<Command>)
    requires OneCallPerEpisode(log)
    ensures CallsSeparated(log)
  {
    if log != [] {
      var n := |log| - 1;
      var init := Init(log);
      OneCallPerEpisodeSeparates(init);
      CallPendingExactly(init);
      forall i, j | 0 <= i < j < |log| && log[i] == EmergencyCall && log[j] == EmergencyCall
        ensures StopCamera in log[i + 1..j]
      {
        if j < n {
          assert init[i] == log[i] && init[j] == log[j];
          assert log[i + 1..j] == init[i + 1..j];
        } else {
          assert init[i] == EmergencyCall;
          assert log[i + 1..j] == init[i + 1..];
        }
      }
    }
  }

  lemma {:induction false} SeparatedIsOneCallPerEpisode(log: seq<Command>)
    requires CallsSeparated(log)
    ensures OneCallPerEpisode(log)
  {
    if log != [] {
      var n := |log| - 1;
      var init := Init(log);
      SeparatedInit(log);
      SeparatedIsOneCallPerEpisode(init);
      CallPendingExactly(init);
      if Last(log) == EmergencyCall {
        forall i | 0 <= i < |init| && init[i] == EmergencyCall
          ensures StopCamera in init[i + 1..]
        {
          assert log[i] == EmergencyCall;
          assert log[i + 1..n] == init[i + 1..];
        }
      }
    }
  }

  lemma OneCallPerEpisodeMeansSeparated(log: seq<Command>)
    ensures OneCallPerEpisode(log) <==> CallsSeparated(log)
  {
    if OneCallPerEpisode(log) {
      OneCallPerEpisodeSeparates(log);
    }
    if CallsSeparated(log) {
      SeparatedIsOneCallPerEpisode(log);
    }
  }

  /** What a run from a consistent state keeps: the state stays consistent,
      no episode calls twice, and while a call is pending the call flag is set. */
  predicate RunInvariant(r: Step)
  {
    Consistent(r.next) && OneCallPerEpisode(r.issued) &&
    (CallPending(r.issued) ==> r.next.phoneCall)
  }

  lemma {:induction false} ApplyKeepsInvariant(r: Step, e: Event)
    requires RunInvariant(r)
    ensures RunInvariant(Step(Apply(r.next, e).next, r.issued + Apply(r.next, e).issued))
  {
    var t := Apply(r.next, e);
    var log := r.issued + t.issued;
    if t.issued != [] {
      assert Last(log) == t.issued[0] && Init(log) == r.issued;
    } else {
      assert log == r.issued;
    }
  }

  lemma {:induction false} RunKeepsInvariant(s: Snapshot, evs: seq<Event>)
    requires Consistent(s)
    ensures RunInvariant(Run(s, evs))
    decreases |evs|
  {
    if evs != [] {
      RunKeepsInvariant(s, evs[..|evs| - 1]);
      ApplyKeepsInvariant(Run(s, evs[..|evs| - 1]), evs[|evs| - 1]);
    }
  }

  /** At most one emergency call per episode: in the log of any run from a
      consistent state, two calls always have a camera stop between them. */
  lemma AtMostOneCallPerEpisode(s: Snapshot, evs: seq<Event>)
    requires Consistent(s)
    ensures Consistent(Run(s, evs).next)
    ensures CallsSeparated(Run(s, evs).issued)
  {
    RunKeepsInvariant(s, evs);
    OneCallPerEpisodeMeansSeparated(Run(s, evs).issued);
  }

  /** Once armed, the audio accident stays armed: no event clears it. */
  lemma {:induction false} AudioAccidentStaysArmed(s: Snapshot, evs: seq<Event>)
    requires s.audioAccident
    ensures Run(s, evs).next.audioAccident
    decreases |evs|
  {
    if evs != [] {
      AudioAccidentStaysArmed(s, evs[..|evs| - 1]);
    }
  }

  /** Only an "Accident" verdict can lower the accident time. */
  lemma {:induction false} AccidentTimeNeverDecreases(s: Snapshot, evs: seq<Event>)
    requires Audio(true) !in evs
    ensures Run(s, evs).next.accidentFrames >= s.accidentFrames
    decreases |evs|
  {
    if evs != [] {
      assert Audio(true) !in evs[..|evs| - 1];
      assert evs[|evs| - 1] != Audio(true);
      AccidentTimeNeverDecreases(s, evs[..|evs| - 1]);
    }
  }

  /** A run of frames only: the hold counter drops by one per frame. */
  lemma {:induction false} FramesCountDownHold(s: Snapshot, evs: seq<Event>)
    requires forall k :: 0 <= k < |evs| ==> evs[k].Frame?
    ensures Run(s, evs).next.holdFrames == s.holdFrames - |evs|
    ensures Run(s, evs).next.cameraOn == s.cameraOn
    decreases |evs|
  {
    if evs != [] {
      assert evs[|evs| - 1].Frame?;
      FramesCountDownHold(s, evs[..|evs| - 1]);
    }
  }

  /** `n` copies of the same frame. */
  function Repeat(dets: seq<Detection>, n: nat): (evs: seq<Event>)
    ensures |evs| == n
  {
    if n == 0 then [] else Repeat(dets, n - 1) + [Frame(dets)]
  }

  /** The frame handler applied `n` times to the same detections. */
  function RunFrames(s: Snapshot, dets: seq<Detection>, n: nat): Step
  {
    if n == 0 then Step(s, [])
    else
      var before := RunFrames(s, dets, n - 1);
      var last := FrameStep(before.next, dets);
      Step(last.next, before.issued + last.issued)
  }

  /** Running `n` copies of a frame as events is applying the frame handler `n` times. */
  lemma {:induction false} RunRepeat(s: Snapshot, dets: seq<Detection>, n: nat)
    ensures Run(s, Repeat(dets, n)) == RunFrames(s, dets, n)
  {
    if n > 0 {
      var evs := Repeat(dets, n);
      assert evs[..n - 1] == Repeat(dets, n - 1);
      assert evs[n - 1] == Frame(dets);
      RunRepeat(s, dets, n - 1);
      var before := RunFrames(s, dets, n - 1);
      assert Run(s, evs[..n - 1]) == before;
      var last := Apply(before.next, Frame(dets));
      assert last == FrameStep(before.next, dets);
      assert Run(s, evs) == Step(last.next, before.issued + last.issued);
    }
  }

  /** The frame handler looks only at the first person of a frame: any frame
      whose first person is `d` acts like the frame holding `d` alone. */
  lemma FrameDependsOnFirstPerson(t: Snapshot, dets: seq<Detection>, d: Detection)
    requires FindPerson(dets) == Some(d)
    ensures FrameStep(t, dets) == FrameStep(t, [d])
  {
    assert FindPerson([d]) == Some(d);
  }

  /** One frame whose first person lies, while an audio accident is armed. */
  lemma LyingPersonFrame(t: Snapshot, dets: seq<Detection>, d: Detection)
    requires FindPerson(dets) == Some(d) && WiderThanTall(d) && t.audioAccident
    ensures FrameStep(t, dets).next == t.(
      holdFrames := t.holdFrames - 1,
      accidentFrames := t.accidentFrames + 1,
      phoneCall := t.phoneCall || t.accidentFrames + 1 > ThresholdFrames)
    ensures FrameStep(t, dets).issued ==
      if !t.phoneCall && t.accidentFrames + 1 > ThresholdFrames then [EmergencyCall] else []
  {
    FrameDependsOnFirstPerson(t, dets, d);
  }

  /** `n` frames whose first person lies, while an audio accident is armed:
      the accident time grows by `n` and exactly one call is placed if the
      time crosses the threshold and no call was made before, none otherwise. */
  lemma {:induction false} LyingPersonFrames(s: Snapshot, dets: seq<Detection>, d: Detection, n: nat)
    requires FindPerson(dets) == Some(d) && WiderThanTall(d) && s.audioAccident
    ensures RunFrames(s, dets, n).next == s.(
      holdFrames := s.holdFrames - n,
      accidentFrames := s.accidentFrames + n,
      phoneCall := s.phoneCall || (n > 0 && s.accidentFrames + n > ThresholdFrames))
    ensures RunFrames(s, dets, n).issued ==
      if n > 0 && !s.phoneCall && s.accidentFrames + n > ThresholdFrames then [EmergencyCall] else []
  {
    if n > 0 {
      LyingPersonFrames(s, dets, d, n - 1);
      var before := RunFrames(s, dets, n - 1);
      LyingPersonFrame(before.next, dets, d);
      if before.next.phoneCall {
        assert FrameStep(before.next, dets).issued == [];
      } else {
        assert before.issued == [];
      }
    }
  }

  /** Frames in which no person appears leave the accident time and every flag
      alone and issue nothing; only the hold counter runs down. */
  lemma {:induction false} NoPersonFrames(s: Snapshot, dets: seq<Detection>, n: nat)
    requires forall i :: 0 <= i < |dets| ==> !IsPerson(dets[i])
    ensures RunFrames(s, dets, n).next == s.(holdFrames := s.holdFrames - n)
    ensures RunFrames(s, dets, n).issued == []
  {
    if n > 0 {
      NoPersonFrames(s, dets, n - 1);
      FindPersonIsFirst(dets);
    }
  }

  /** Frames whose first person is `d` run exactly like frames holding `d` alone. */
  lemma {:induction false} RunFramesFirstPerson(s: Snapshot, dets: seq<Detection>, d: Detection, n: nat)
    requires FindPerson(dets) == Some(d)
    ensures RunFrames(s, dets, n) == RunFrames(s, [d], n)
  {
    if n > 0 {
      RunFramesFirstPerson(s, dets, d, n - 1);
      FrameDependsOnFirstPerson(RunFrames(s, dets, n - 1).next, dets, d);
    }
  }

  /** One frame holding only a standing person (box not wider than tall). */
  lemma StandingPersonFrame(t: Snapshot, d: Detection)
    requires IsPerson(d) && !WiderThanTall(d)
    ensures FrameStep(t, [d]).next == t.(
      holdFrames := t.holdFrames - 1,
      phoneCall := t.phoneCall || t.accidentFrames > ThresholdFrames)
    ensures FrameStep(t, [d]).issued ==
      if !t.phoneCall && t.accidentFrames > ThresholdFrames then [EmergencyCall] else []
  {
    assert FindPerson([d]) == Some(d);
  }

  /** Frames holding only a standing person, below the threshold. */
  lemma {:induction false} StandingPersonAlone(s: Snapshot, d: Detection, n: nat)
    requires IsPerson(d) && !WiderThanTall(d) && s.accidentFrames <= ThresholdFrames
    ensures RunFrames(s, [d], n) == Step(s.(holdFrames := s.holdFrames - n), [])
  {
    if n > 0 {
      StandingPersonAlone(s, d, n - 1);
      StandingPersonFrame(s.(holdFrames := s.holdFrames - (n - 1)), d);
    }
  }

  /** Frames whose first person stands: same as no person for the accident
      time, and no call can follow while the time is below the threshold. */
  lemma StandingPersonFrames(s: Snapshot, dets: seq<Detection>, d: Detection, n: nat)
    requires FindPerson(dets) == Some(d) && !WiderThanTall(d) && s.accidentFrames <= ThresholdFrames
    ensures RunFrames(s, dets, n).next == s.(holdFrames := s.holdFrames - n)
    ensures RunFrames(s, dets, n).issued == []
  {
    RunFramesFirstPerson(s, dets, d, n);
    StandingPersonAlone(s, d, n);
  }

  /** A run of one event is that event's handler. */
  lemma RunOne(s: Snapshot, e: Event)
    ensures Run(s, [e]) == Apply(s, e)
  {
    assert [e][..0] == [];
  }

  /** Running two event streams one after the other is running their concatenation. */
  lemma {:induction false} RunAppend(s: Snapshot, a: seq<Event>, b: seq<Event>)
    ensures Run(s, a + b).next == Run(Run(s, a).next, b).next
    ensures Run(s, a + b).issued == Run(s, a).issued + Run(Run(s, a).next, b).issued
    decreases |b|
  {
    if b == [] {
      assert a + b == a;
    } else {
      assert (a + b)[..|a + b| - 1] == a + b[..|b| - 1];
      assert (a + b)[|a + b| - 1] == b[|b| - 1];
      RunAppend(s, a, b[..|b| - 1]);
    }
  }
}
