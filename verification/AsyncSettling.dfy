/**
 Progress of the completion protocol: once calls stop arriving, letting the started ones run to
 their end is always possible and always ends, so the guarantees about quiet states apply.
 */
module AsyncSettling {
  import opened Wrappers
  import opened Async
  import opened AsyncRuns

  function StageWork(stage: Stage): nat {
    match stage
    case Body => 40
    case RejectCheck(_) => 30
    case BeforeSubmitted => 20
    case Deferred => 10
    case Closing => 0
  }

  ghost function TotalWork(frames: map<nat, Frame>): nat {
    if frames == map[] then 0 else
    var i :| i in frames;
    Work(frames[i]) + TotalWork(frames - {i})
  }

  lemma {:induction false} TotalWorkWithout(frames: map<nat, Frame>, k: nat)
    requires k in frames
    ensures TotalWork(frames) == Work(frames[k]) + TotalWork(frames - {k})
    decreases |frames|
  {
    var i :| i in frames && TotalWork(frames) == Work(frames[i]) + TotalWork(frames - {i});
    if i != k {
      assert |frames - {i}| < |frames| && |frames - {k}| < |frames| by {
        assert (frames - {i}).Keys == frames.Keys - {i};
        assert (frames - {k}).Keys == frames.Keys - {k};
      }
      TotalWorkWithout(frames - {i}, k);
      TotalWorkWithout(frames - {k}, i);
      assert frames - {i} - {k} == frames - {k} - {i};
    }
  }

  lemma TotalWorkUpdate(frames: map<nat, Frame>, k: nat, frame: Frame)
    requires k in frames
    ensures TotalWork(frames[k := frame]) == TotalWork(frames) - Work(frames[k]) + Work(frame)
  {
    TotalWorkWithout(frames, k);
    TotalWorkWithout(frames[k := frame], k);
    assert frames[k := frame] - {k} == frames - {k};
  }

  ghost function Remaining(s: System): nat {
    TotalWork(s.frames) + StageWork(s.stage)
  }

  // Every step that is not a new call uses up work.
  lemma StepUsesWork(s: System, step: Step)
    requires SUBMITTER in s.frames && !step.Begin? && Next(s, step).Some?
    ensures var next := Next(s, step).value;
            SUBMITTER in next.frames && (next.aborted || Remaining(next) < Remaining(s))
  {
    var next := Next(s, step).value;
    if step.Advance? && !s.frames[step.who].Done? {
      DeliverStepWorks(s.shared, step.who, s.frames[step.who]);
      TotalWorkUpdate(s.frames, step.who, next.frames[step.who]);
    } else if step.Advance? && !next.aborted {
      TotalWorkUpdate(s.frames, SUBMITTER, next.frames[SUBMITTER]);
    }
  }

  // As long as the state is neither quiet nor aborted, some started work can go on.
  lemma SomethingCanMove(s: System) returns (step: Step)
    requires SUBMITTER in s.frames && !s.aborted && !Quiescent(s)
    ensures !step.Begin? && Next(s, step).Some?
  {
    if i :| i in s.frames && !s.frames[i].Done? {
      step := Advance(i);
    } else if s.stage.Body? {
      step := BodyReturns(None);
    } else {
      step := Advance(SUBMITTER);
    }
  }

  // From every reachable state the started calls can be run to a quiet (or aborted) end.
  lemma {:induction false} Settles(s: System) returns (steps: seq<Step>)
    requires SUBMITTER in s.frames
    ensures forall step <- steps :: !step.Begin?
    ensures Replay(s, steps).Some?
    ensures var last := Replay(s, steps).value; last.aborted || Quiescent(last)
    decreases Remaining(s)
  {
    if s.aborted || Quiescent(s) {
      steps := [];
    } else {
      var step := SomethingCanMove(s);
      StepUsesWork(s, step);
      var next := Next(s, step).value;
      if next.aborted {
        steps := [step];
        assert Replay(next, steps[1..]) == Some(next);
      } else {
        var rest := Settles(next);
        steps := [step] + rest;
        assert steps[1..] == rest;
      }
    }
  }

  // Running a frame alone, as the methods of `AsyncState` do, is one of the interleavings.
  lemma {:induction false} AloneIsARun(s: System, who: nat) returns (steps: seq<Step>)
    requires !s.aborted && who in s.frames
    ensures Replay(s, steps) ==
            Some(s.(shared := RunAlone(s.shared, who, s.frames[who]), frames := s.frames[who := Done]))
    decreases Work(s.frames[who])
  {
    if s.frames[who].Done? {
      steps := [];
      assert s.frames[who := Done] == s.frames;
    } else {
      DeliverStepWorks(s.shared, who, s.frames[who]);
      var next := Next(s, Advance(who)).value;
      var rest := AloneIsARun(next, who);
      steps := [Advance(who)] + rest;
      assert steps[1..] == rest;
      assert next.frames[who := Done] == s.frames[who := Done];
    }
  }
}
