/**
 The acquire fences at the end of the program (examples/vulkan-probe/vulkan-chrome-frames.c): waiting for the
 device to be idle says nothing about an image acquisition that is still outstanding. After successful calls
 none is; which failing calls can leave one, whose fence is destroyed nevertheless, is said exactly.
 */
module FramesTeardown {
  import opened Frames

  /** Only the current slot's acquisition can be outstanding, and none when the loop ended by itself. */
  ghost predicate AcquiringInv(c: Config, s: State, failed: bool)
    requires c.Valid()
  {
    && s.gpu.acquiring <= {s.Slot(c)}
    && (!failed && !InLoop(s.pc) ==> s.gpu.acquiring == {})
  }

  lemma SucceedAcquiring(c: Config, s: State, failed: bool)
    requires Inv(c, s) && Enabled(c, s) && AcquiringInv(c, s, failed)
    ensures AcquiringInv(c, Succeed(c, s), failed)
  {
    hide PendingInv;
    hide FenceInv;
    assert 0 <= s.Slot(c) < c.slots;
  }

  lemma OtherAcquiring(c: Config, s: State, s': State, failed: bool)
    requires Inv(c, s) && AcquiringInv(c, s, failed)
    requires Fail(c, s, s') || (GpuStep(c, s.gpu, s'.gpu) && s' == s.(gpu := s'.gpu))
    ensures AcquiringInv(c, s', failed || Fail(c, s, s'))
  {
    hide Inv;
  }

  /** No call has failed on the way. */
  ghost predicate Successful(c: Config, run: seq<State>)
    requires IsRun(c, run)
  {
    forall i :: 0 <= i < |run| - 1 ==> !Fail(c, run[i], run[i + 1])
  }

  lemma {:induction false} RunAcquiring(c: Config, run: seq<State>)
    requires IsRun(c, run)
    ensures AcquiringInv(c, run[|run| - 1], !Successful(c, run))
  {
    hide Step;
    hide Fail;
    hide Inv;
    hide Init;
    var n := |run| - 1;
    if n == 0 {
      StartAcquiring(c, run[0]);
    } else {
      var prefix := run[..n];
      assert forall i :: 0 <= i < n - 1 ==> Step(c, prefix[i], prefix[i + 1]);
      RunAcquiring(c, prefix);
      RunInv(c, prefix);
      assert Step(c, run[n - 1], run[n - 1 + 1]);
      StepAcquiring(c, run[n - 1], run[n], !Successful(c, prefix));
      if Successful(c, run) {
        assert forall i :: 0 <= i < n - 1 ==> !Fail(c, prefix[i], prefix[i + 1]);
        assert !Fail(c, run[n - 1], run[n - 1 + 1]);
      }
    }
  }

  lemma StartAcquiring(c: Config, s: State)
    requires c.Valid() && Init(c, s)
    ensures AcquiringInv(c, s, false)
  {
  }

  lemma StepAcquiring(c: Config, s: State, s': State, failed: bool)
    requires Inv(c, s) && Step(c, s, s') && AcquiringInv(c, s, failed)
    ensures AcquiringInv(c, s', failed || Fail(c, s, s'))
  {
    hide PendingInv;
    hide FenceInv;
    hide AcquireInv;
    hide Succeed;
    hide GpuStep;
    hide Fail;
    hide AcquiringInv;
    if Enabled(c, s) && s' == Succeed(c, s) {
      SucceedAcquiring(c, s, failed);
      Weaken(c, s', failed, failed || Fail(c, s, s'));
    } else {
      OtherAcquiring(c, s, s', failed);
    }
  }

  lemma Weaken(c: Config, s: State, failed: bool, failed': bool)
    requires c.Valid() && AcquiringInv(c, s, failed) && (failed ==> failed')
    ensures AcquiringInv(c, s, failed')
  {
  }

  /** When the slot objects are destroyed, at most one acquisition is outstanding; after successful calls none. */
  lemma AcquireFencesAtDestroy(c: Config, run: seq<State>)
    requires IsRun(c, run) && run[|run| - 1].pc == Destroy
    ensures var s := run[|run| - 1];
            && s.gpu.acquiring <= {s.Slot(c)}
            && (Successful(c, run) ==> s.gpu.acquiring == {})
  {
    RunAcquiring(c, run);
  }

  // Which failing calls can leave an acquisition outstanding.

  /**
   The failing call is the wait, at a moment when the image is not available yet, or an acquire that took
   effect all the same: an image index out of range, say.
   */
  ghost predicate LeavesAcquiring(c: Config, s: State, s': State)
    requires c.Valid() && Sized(c, s.gpu)
  {
    || (s.pc == WaitAcquire && !s.gpu.acquireSignaled[s.Slot(c)])
    || (s.pc == Acquire && s'.gpu != s.gpu)
  }

  lemma FailLeaves(c: Config, s: State, s': State)
    requires Inv(c, s) && AcquiringInv(c, s, false) && Fail(c, s, s')
    ensures s'.gpu.acquiring == if LeavesAcquiring(c, s, s') then {s.Slot(c)} else {}
  {
    hide PendingInv;
    hide FenceInv;
    assert 0 <= s.Slot(c) < c.slots;
    assert s.gpu.acquiring == {} || s.gpu.acquiring == {s.Slot(c)};
  }

  ghost predicate Ended(s: State) {
    s.pc in {WaitIdle, Destroy, Done}
  }

  lemma EndedStep(c: Config, s: State, s': State)
    requires c.Valid() && Sized(c, s.gpu) && Ended(s) && Step(c, s, s')
    ensures Ended(s') && s'.gpu.acquiring <= s.gpu.acquiring
  {
  }

  /** After the loop acquisitions only become fewer. */
  lemma {:induction false} EndedShrinks(c: Config, run: seq<State>, at: nat)
    requires IsRun(c, run) && at < |run| && Ended(run[at])
    ensures Ended(run[|run| - 1]) && run[|run| - 1].gpu.acquiring <= run[at].gpu.acquiring
    decreases |run|
  {
    hide Step;
    hide Init;
    hide Ended;
    var n := |run| - 1;
    if at < n {
      var prefix := run[..n];
      assert forall i :: 0 <= i < n - 1 ==> Step(c, prefix[i], prefix[i + 1]);
      EndedShrinks(c, prefix, at);
      assert Step(c, run[n - 1], run[n - 1 + 1]);
      EndedStep(c, run[n - 1], run[n]);
    }
  }

  lemma Extend(c: Config, run: seq<State>, s: State)
    requires IsRun(c, run) && Sized(c, s.gpu) && Step(c, run[|run| - 1], s)
    ensures IsRun(c, run + [s])
  {
    hide Step;
    hide Init;
    var longer := run + [s];
    forall i | 0 <= i < |longer| - 1 ensures Step(c, longer[i], longer[i + 1]) {
      if i < |run| - 1 {
        assert Step(c, run[i], run[i + 1]);
      }
    }
  }

  /** From the wait for the device, submissions can all complete before any image becomes available. */
  lemma {:induction false} CanDestroy(c: Config, run: seq<State>) returns (tail: seq<State>)
    requires IsRun(c, run) && run[|run| - 1].pc == WaitIdle
    ensures IsRun(c, run + tail) && tail != []
    ensures tail[|tail| - 1].pc == Destroy && tail[|tail| - 1].gpu.acquiring == run[|run| - 1].gpu.acquiring
    decreases |run[|run| - 1].gpu.pending|
  {
    hide IsRun;
    hide Step;
    LastIsSized(c, run);
    var s := run[|run| - 1];
    if s.gpu.pending == {} {
      var s' := s.(pc := Destroy);
      DestroyStep(c, s);
      Extend(c, run, s');
      tail := [s'];
    } else {
      var f :| f in s.gpu.pending;
      var s' := Completed(c, s, f);
      CompleteStep(c, s, f);
      Extend(c, run, s');
      var rest := CanDestroy(c, run + [s']);
      tail := [s'] + rest;
      assert run + tail == run + [s'] + rest;
    }
  }

  lemma LastIsSized(c: Config, run: seq<State>)
    requires IsRun(c, run)
    ensures c.Valid() && run != [] && Sized(c, run[|run| - 1].gpu)
  {
  }

  function Completed(c: Config, s: State, f: nat): State
    requires c.Valid() && Sized(c, s.gpu)
  {
    s.(gpu := BufferTo(s.gpu, f % c.slots, Invalid).(
         pending := s.gpu.pending - {f}, submitSignaled := s.gpu.submitSignaled[f % c.slots := true]))
  }

  lemma CompleteStep(c: Config, s: State, f: nat)
    requires c.Valid() && Sized(c, s.gpu) && f in s.gpu.pending
    ensures var s' := Completed(c, s, f);
            Sized(c, s'.gpu) && Step(c, s, s') && s'.pc == s.pc && s'.gpu.acquiring == s.gpu.acquiring
            && |s'.gpu.pending| < |s.gpu.pending|
  {
    assert Complete(c, s.gpu, f, Completed(c, s, f).gpu);
    assert |s.gpu.pending - {f}| == |s.gpu.pending| - 1;
  }

  lemma DestroyStep(c: Config, s: State)
    requires c.Valid() && Sized(c, s.gpu) && s.pc == WaitIdle && s.gpu.pending == {}
    ensures Step(c, s, s.(pc := Destroy))
  {
    assert Enabled(c, s) && Succeed(c, s) == s.(pc := Destroy);
  }

  /** The run goes on with s', and then with `tail` to the destruction. */
  ghost predicate Destroys(c: Config, run: seq<State>, s': State, tail: seq<State>) {
    tail != [] && tail[|tail| - 1].pc == Destroy && IsRun(c, run + [s'] + tail)
  }

  /**
   A call fails. No acquire fence can be destroyed before its signal, however the GPU goes on, exactly if the
   failing call is neither a wait whose image is still to come, nor an acquire that took effect.
   */
  lemma AcquireFencesAfterFailure(c: Config, run: seq<State>, s': State)
    requires IsRun(c, run) && Sized(c, s'.gpu) && Fail(c, run[|run| - 1], s')
    ensures (forall tail: seq<State> :: Destroys(c, run, s', tail) ==> tail[|tail| - 1].gpu.acquiring == {})
            <==> !LeavesAcquiring(c, run[|run| - 1], s')
  {
    hide IsRun;
    hide Step;
    LastIsSized(c, run);
    var s := run[|run| - 1];
    RunInv(c, run);
    RunAcquiring(c, run);
    InLoopAcquiring(c, s, run);
    FailLeaves(c, s, s');
    FailStep(c, s, s');
    Extend(c, run, s');
    if !LeavesAcquiring(c, s, s') {
      forall tail: seq<State> | Destroys(c, run, s', tail) ensures tail[|tail| - 1].gpu.acquiring == {} {
        EndedShrinks(c, run + [s'] + tail, |run|);
      }
    } else {
      var tail := CanDestroy(c, run + [s']);
      assert Destroys(c, run, s', tail);
    }
  }

  lemma InLoopAcquiring(c: Config, s: State, run: seq<State>)
    requires IsRun(c, run) && AcquiringInv(c, s, !Successful(c, run)) && InLoop(s.pc)
    ensures AcquiringInv(c, s, false)
  {
  }

  lemma FailStep(c: Config, s: State, s': State)
    requires c.Valid() && Sized(c, s.gpu) && Fail(c, s, s')
    ensures Step(c, s, s') && Ended(s') && s'.pc == WaitIdle
  {
  }

  /** A failed wait for the acquire fence leads to its destruction while the acquisition is outstanding. */
  lemma FailedWaitDestroysPendingFence() returns (c: Config, run: seq<State>)
    ensures IsRun(c, run) && run[|run| - 1].pc == Destroy && run[|run| - 1].gpu.acquiring == {0}
  {
    c := Config(1, 1);
    var s0 := NextFrame(c, 0, 0, InitialGpu(c));
    var s1 := Succeed(c, s0);
    var s2 := s1.(pc := WaitIdle);
    var s3 := Succeed(c, s2);
    assert Fail(c, s1, s2);
    run := [s0, s1, s2, s3];
    forall i | 0 <= i < 3 ensures Step(c, run[i], run[i + 1]) {
      assert Step(c, s0, s1) && Step(c, s1, s2) && Step(c, s2, s3);
    }
  }

  /** An acquire whose image index is out of range does the same without any wait. */
  lemma OutOfRangeDestroysPendingFence() returns (c: Config, run: seq<State>)
    ensures IsRun(c, run) && |run| == 3 && run[0].pc == Acquire && Fail(c, run[0], run[1])
    ensures run[2].pc == Destroy && run[2].gpu.acquiring == {0}
  {
    c := Config(1, 1);
    var s0 := NextFrame(c, 0, 0, InitialGpu(c));
    var s1 := s0.(pc := WaitIdle, gpu := Acquired(s0.gpu, 0));
    var s2 := Succeed(c, s1);
    run := [s0, s1, s2];
    forall i | 0 <= i < 2 ensures Step(c, run[i], run[i + 1]) {
      assert Step(c, s0, s1) && Step(c, s1, s2);
    }
  }
}
