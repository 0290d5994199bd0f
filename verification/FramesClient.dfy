/**
 The frame loop as the program runs it: one API call after the other, leaving the loop at the first call
 that does not succeed. Between and during calls the GPU makes arbitrary progress. Every execution is a
 run of the state machine, so each call it makes is valid usage.
 */
module FramesClient {
  import opened Frames

  lemma RunExtends(c: Config, run: seq<State>, s: State)
    requires IsRun(c, run) && Step(c, run[|run| - 1], s) && Sized(c, s.gpu)
    ensures IsRun(c, run + [s])
  {
    var longer := run + [s];
    forall i | 0 <= i < |longer| - 1 ensures Step(c, longer[i], longer[i + 1]) {
      if i < |run| - 1 {
        assert Step(c, run[i], run[i + 1]);
      }
    }
  }

  class Presenter {
    const c: Config
    var pc: Pc
    var frame: nat
    var completed: nat
    var gpu: Gpu
    ghost var run: seq<State>      // every state so far

    ghost function Current(): State
      reads this
    {
      Frames.State(pc, frame, completed, gpu)
    }

    ghost predicate Valid()
      reads this
    {
      IsRun(c, run) && run[|run| - 1] == Current() && Inv(c, Current())
    }

    constructor (c: Config, syncOk: bool)
      requires c.Valid()
      ensures Valid() && this.c == c && frame == 0 && completed == 0
      ensures pc == if syncOk && 0 < c.frames then Acquire else WaitIdle
    {
      this.c := c;
      pc, frame, completed := if syncOk && 0 < c.frames then Acquire else WaitIdle, 0, 0;
      gpu := InitialGpu(c);
      new;
      run := [Current()];
      InitInv(c, Current());
    }

    ghost method Log()
      requires IsRun(c, run) && Inv(c, run[|run| - 1]) && Step(c, run[|run| - 1], Current())
      modifies this`run
      ensures Valid()
    {
      StepInv(c, run[|run| - 1], Current());
      RunExtends(c, run, Current());
      run := run + [Current()];
    }

    method FinishOne()
      requires Valid() && gpu.pending != {}
      modifies this`gpu, this`run
      ensures Valid()
      ensures gpu.pending < old(gpu.pending)
    {
      var f :| f in gpu.pending;
      ghost var before := gpu;
      gpu := BufferTo(gpu, f % c.slots, Invalid).(
        pending := gpu.pending - {f}, submitSignaled := gpu.submitSignaled[f % c.slots := true]);
      assert Complete(c, before, f, gpu);
      assert GpuStep(c, before, gpu);
      Log();
    }

    method DeliverOne()
      requires Valid() && gpu.acquiring != {}
      modifies this`gpu, this`run
      ensures Valid() && gpu.pending == old(gpu.pending)
    {
      var k :| k in gpu.acquiring;
      if k < c.slots {
        ghost var before := gpu;
        gpu := gpu.(acquiring := gpu.acquiring - {k}, acquireSignaled := gpu.acquireSignaled[k := true]);
        assert Available(before, k, gpu);
        assert GpuStep(c, before, gpu);
        Log();
      }
    }

    /** Any amount of progress of the GPU and of the presentation engine. */
    method DeviceRuns()
      requires Valid()
      modifies this`gpu, this`run
      ensures Valid() && gpu.pending <= old(gpu.pending)
    {
      var steps: nat :| steps >= 0;
      for i := 0 to steps
        invariant Valid() && gpu.pending <= old(gpu.pending)
      {
        var finish: bool := *;
        if finish && gpu.pending != {} {
          FinishOne();
        } else if gpu.acquiring != {} {
          DeliverOne();
        }
      }
    }

    /** One call of the frame loop: the device goes on, then the call succeeds if it can, or fails. */
    method Call(call: Pc) returns (ok: bool)
      requires Valid() && pc == call && InLoop(call)
      modifies this`pc, this`frame, this`completed, this`gpu, this`run
      ensures Valid()
      ensures !ok ==> pc == WaitIdle && frame == old(frame) && completed == old(completed)
      ensures ok && call != Present ==> pc == After(call) && frame == old(frame) && completed == old(completed)
      ensures ok && call == Present ==> frame == completed == old(frame) + 1
                                        && pc == if frame < c.frames then Acquire else WaitIdle
    {
      DeviceRuns();
      var returnsSuccess: bool := *;
      var s := State(pc, frame, completed, gpu);
      if returnsSuccess && Enabled(c, s) {
        var s' := Succeed(c, s);
        pc, frame, completed, gpu := s'.pc, s'.frame, s'.completed, s'.gpu;
        ok := true;
      } else {
        var outOfRange: bool := *;
        if call == Acquire && outOfRange {
          gpu := Acquired(gpu, frame % c.slots);
        }
        pc := WaitIdle;
        ok := false;
        assert Fail(c, s, Current());
      }
      Log();
    }

    /** present_color: ten calls, each checked. */
    method PresentColor() returns (success: bool)
      requires Valid() && pc == Acquire
      modifies this`pc, this`frame, this`completed, this`gpu, this`run
      ensures Valid()
      ensures !success ==> pc == WaitIdle && frame == old(frame) && completed == old(completed)
      ensures success ==> frame == completed == old(frame) + 1 && pc == if frame < c.frames then Acquire else WaitIdle
    {
      hide Presenter.Valid;
      success := ClaimSlot();
      if !success { return; }
      success := Call(ResetBuffer);
      if !success { return; }
      success := Call(Begin);
      if !success { return; }
      success := Call(End);
      if !success { return; }
      success := Call(Submit);
      if !success { return; }
      success := Call(Present);
    }

    /** Its first five calls: an image and the slot's fences, both waited for and reset. */
    method ClaimSlot() returns (success: bool)
      requires Valid() && pc == Acquire
      modifies this`pc, this`frame, this`completed, this`gpu, this`run
      ensures Valid() && frame == old(frame) && completed == old(completed)
      ensures pc == if success then ResetBuffer else WaitIdle
    {
      hide Presenter.Valid;
      success := Call(Acquire);
      if !success { return; }
      success := Call(WaitAcquire);
      if !success { return; }
      success := Call(ResetAcquire);
      if !success { return; }
      success := Call(WaitSubmit);
      if !success { return; }
      success := Call(ResetSubmit);
    }

    /** The wait for the device, and the destruction of the slot objects. */
    method TearDown()
      requires Valid() && pc == WaitIdle
      modifies this`pc, this`gpu, this`run
      ensures Valid() && pc == Done
    {
      hide IsRun;
      DeviceRuns();
      while gpu.pending != {}
        invariant Valid() && pc == WaitIdle
        decreases gpu.pending
      {
        FinishOne();
      }
      pc := Destroy;
      Log();
      pc := Done;
      Log();
    }

    /** The frame loop and what follows it. */
    method RunFrames()
      requires Valid() && frame == 0 && completed == 0 && pc in {Acquire, WaitIdle}
      modifies this`pc, this`frame, this`completed, this`gpu, this`run
      ensures Valid()
      ensures pc == Done && completed <= c.frames
      ensures forall i :: 0 <= i < |run| ==> Sized(c, run[i].gpu) && ValidUsage(c, run[i]) && InFlightBound(c, run[i])
    {
      hide ValidUsage;
      hide InFlightBound;
      hide IsRun;
      var status := pc == Acquire;
      while status && frame < c.frames
        invariant Valid() && completed == frame
        invariant pc == if status && frame < c.frames then Acquire else WaitIdle
        decreases c.frames - frame, status
      {
        status := PresentColor();
      }
      TearDown();
      RunAllSafe(c, run);
    }
  }

  /** Safety holds in every state along a run. */
  lemma RunAllSafe(c: Config, run: seq<State>)
    requires IsRun(c, run)
    ensures forall i :: 0 <= i < |run| ==> Sized(c, run[i].gpu) && ValidUsage(c, run[i]) && InFlightBound(c, run[i])
  {
    hide ValidUsage;
    hide InFlightBound;
    forall i | 0 <= i < |run|
      ensures Sized(c, run[i].gpu) && ValidUsage(c, run[i]) && InFlightBound(c, run[i])
    {
      var prefix := run[..i + 1];
      forall j | 0 <= j < |prefix| - 1 ensures Step(c, prefix[j], prefix[j + 1]) {
        assert Step(c, run[j], run[j + 1]);
      }
      RunIsSafe(c, prefix);
    }
  }

  function After(call: Pc): Pc {
    match call
    case Acquire => WaitAcquire
    case WaitAcquire => ResetAcquire
    case ResetAcquire => WaitSubmit
    case WaitSubmit => ResetSubmit
    case ResetSubmit => ResetBuffer
    case ResetBuffer => Begin
    case Begin => End
    case End => Submit
    case Submit => Present
    case Present => Acquire
    case WaitIdle => Destroy
    case Destroy => Done
    case Done => Done
  }
}
