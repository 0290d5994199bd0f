/**
 Frames in flight (examples/vulkan-probe/vulkan-chrome-frames.c): a client that cycles through a fixed
 number of slots, each with a command buffer, an acquire fence and a submit fence, while the GPU and
 the presentation engine finish their work at any moment.

 The system is a state machine. A step is one API call of the client, one submission that completes,
 or one acquired image that becomes available. The fence and command buffer rules are those of
 section 7.3 ("Fences") and section 6.1 ("Command Buffer Lifecycle") of the Vulkan specification.
 The number of slots and of frames are parameters.
 */
module Frames {
  import Arith

  datatype Config = Config(slots: nat, frames: nat) {
    ghost predicate Valid() {
      slots >= 1
    }
  }

  datatype Buffer = Initial | Recording | Executable | Submitted | Invalid

  // What the GPU shares with the client. A frame number identifies its submission.
  datatype Gpu = Gpu(acquireSignaled: seq<bool>, submitSignaled: seq<bool>, buffers: seq<Buffer>,
                     acquiring: set<nat>,    // slots whose acquire fence will still be signaled
                     pending: set<nat>)      // frames submitted and not completed

  // The API call that the client is about to make.
  datatype Pc =
    | Acquire | WaitAcquire | ResetAcquire | WaitSubmit | ResetSubmit
    | ResetBuffer | Begin | End | Submit | Present
    | WaitIdle | Destroy | Done

  datatype State = State(pc: Pc, frame: nat, completed: nat, gpu: Gpu) {
    function Slot(c: Config): nat
      requires c.Valid()
    {
      frame % c.slots
    }
  }

  function InitialGpu(c: Config): Gpu {
    Gpu(seq(c.slots, _ => false), seq(c.slots, _ => true), seq(c.slots, _ => Initial), {}, {})
  }

  function NextFrame(c: Config, frame: nat, completed: nat, gpu: Gpu): State {
    State(if frame < c.frames then Acquire else WaitIdle, frame, completed, gpu)
  }

  /** The loop is skipped when a slot object could not be created. */
  ghost predicate Init(c: Config, s: State) {
    s == NextFrame(c, 0, 0, InitialGpu(c)) || s == State(WaitIdle, 0, 0, InitialGpu(c))
  }

  // The effect of each successful API call on the shared state.

  function Acquired(g: Gpu, slot: nat): Gpu {
    g.(acquiring := g.acquiring + {slot})
  }

  function AcquireReset(g: Gpu, slot: nat): Gpu
    requires slot < |g.acquireSignaled|
  {
    g.(acquireSignaled := g.acquireSignaled[slot := false])
  }

  function SubmitReset(g: Gpu, slot: nat): Gpu
    requires slot < |g.submitSignaled|
  {
    g.(submitSignaled := g.submitSignaled[slot := false])
  }

  function BufferTo(g: Gpu, slot: nat, b: Buffer): Gpu
    requires slot < |g.buffers|
  {
    g.(buffers := g.buffers[slot := b])
  }

  function Queued(g: Gpu, slot: nat, frame: nat): Gpu
    requires slot < |g.buffers|
  {
    BufferTo(g, slot, Submitted).(pending := g.pending + {frame})
  }

  predicate Sized(c: Config, g: Gpu) {
    |g.acquireSignaled| == c.slots && |g.submitSignaled| == c.slots && |g.buffers| == c.slots
  }

  /** The call at s.pc can return success. A wait returns success only when its fence is signaled. */
  predicate Enabled(c: Config, s: State)
    requires c.Valid() && Sized(c, s.gpu)
  {
    match s.pc
    case WaitAcquire => s.gpu.acquireSignaled[s.Slot(c)]
    case WaitSubmit => s.gpu.submitSignaled[s.Slot(c)]
    case WaitIdle => s.gpu.pending == {}
    case Done => false
    case _ => true
  }

  /** The state after the call at s.pc returned success. */
  function Succeed(c: Config, s: State): State
    requires c.Valid() && Sized(c, s.gpu) && Enabled(c, s)
  {
    var slot := s.Slot(c);
    match s.pc
    case Acquire => s.(pc := WaitAcquire, gpu := Acquired(s.gpu, slot))
    case WaitAcquire => s.(pc := ResetAcquire)
    case ResetAcquire => s.(pc := WaitSubmit, gpu := AcquireReset(s.gpu, slot))
    case WaitSubmit => s.(pc := ResetSubmit)
    case ResetSubmit => s.(pc := ResetBuffer, gpu := SubmitReset(s.gpu, slot))
    case ResetBuffer => s.(pc := Begin, gpu := BufferTo(s.gpu, slot, Initial))
    case Begin => s.(pc := End, gpu := BufferTo(s.gpu, slot, Recording))
    case End => s.(pc := Submit, gpu := BufferTo(s.gpu, slot, Executable))
    case Submit => s.(pc := Present, gpu := Queued(s.gpu, slot, s.frame))
    case Present => NextFrame(c, s.frame + 1, s.frame + 1, s.gpu)
    case WaitIdle => s.(pc := Destroy)
    case Destroy => s.(pc := Done)
  }

  /**
   A call of the frame loop returned something else than success (a timeout included): the loop ends.
   An acquire may have taken effect, because an image index out of range counts as failure too.
   */
  ghost predicate Fail(c: Config, s: State, s': State)
    requires c.Valid()
  {
    && !(s.pc in {WaitIdle, Destroy, Done})
    && (s' == s.(pc := WaitIdle)
        || (s.pc == Acquire && s' == s.(pc := WaitIdle, gpu := Acquired(s.gpu, s.Slot(c)))))
  }

  /** Submission f completes: its fence is signaled and its one-time command buffer becomes invalid. */
  ghost predicate Complete(c: Config, g: Gpu, f: nat, g': Gpu)
    requires c.Valid() && Sized(c, g)
  {
    && f in g.pending
    && g' == BufferTo(g, f % c.slots, Invalid).(
         pending := g.pending - {f}, submitSignaled := g.submitSignaled[f % c.slots := true])
  }

  /** The image acquired for a slot becomes available. */
  ghost predicate Available(g: Gpu, slot: nat, g': Gpu) {
    && slot in g.acquiring && slot < |g.acquireSignaled|
    && g' == g.(acquiring := g.acquiring - {slot}, acquireSignaled := g.acquireSignaled[slot := true])
  }

  ghost predicate GpuStep(c: Config, g: Gpu, g': Gpu)
    requires c.Valid() && Sized(c, g)
  {
    (exists f :: Complete(c, g, f, g')) || (exists k :: Available(g, k, g'))
  }

  ghost predicate Step(c: Config, s: State, s': State)
    requires c.Valid() && Sized(c, s.gpu)
  {
    || (Enabled(c, s) && s' == Succeed(c, s))
    || Fail(c, s, s')
    || (GpuStep(c, s.gpu, s'.gpu) && s' == s.(gpu := s'.gpu))
  }

  // What holds in every reachable state.

  predicate Busy(c: Config, g: Gpu, slot: nat)
    requires c.Valid()
  {
    exists f :: f in g.pending && f % c.slots == slot
  }

  predicate InLoop(pc: Pc) {
    !(pc in {WaitIdle, Destroy, Done})
  }

  /** Between the submit fence's reset and the next submission, nothing will signal it. */
  predicate Rebuilding(pc: Pc) {
    pc in {ResetBuffer, Begin, End, Submit}
  }

  /** The oldest outstanding submission may still use the current slot. */
  predicate BeforeWait(pc: Pc) {
    pc in {Acquire, WaitAcquire, ResetAcquire, WaitSubmit, WaitIdle, Destroy, Done}
  }

  ghost predicate PendingInv(c: Config, s: State)
    requires c.Valid() && Sized(c, s.gpu)
  {
    && (forall f :: f in s.gpu.pending ==>
          && f <= s.frame
          && (s.frame < f + c.slots || (s.frame == f + c.slots && BeforeWait(s.pc)))
          && (f == s.frame ==> s.pc in {Present, WaitIdle, Destroy, Done})
          && !s.gpu.submitSignaled[f % c.slots] && s.gpu.buffers[f % c.slots] == Submitted)
    && (forall f, g :: f in s.gpu.pending && g in s.gpu.pending && f % c.slots == g % c.slots ==> f == g)
    && (s.pc in {ResetSubmit, ResetBuffer, Begin, End, Submit} ==> !Busy(c, s.gpu, s.Slot(c)))
  }

  ghost predicate FenceInv(c: Config, s: State)
    requires c.Valid() && Sized(c, s.gpu)
  {
    && (InLoop(s.pc) ==> forall k :: 0 <= k < c.slots && !(k == s.Slot(c) && Rebuilding(s.pc)) ==>
                           s.gpu.submitSignaled[k] || Busy(c, s.gpu, k))
    && (s.pc == ResetSubmit ==> s.gpu.submitSignaled[s.Slot(c)])
    && (Rebuilding(s.pc) ==> !s.gpu.submitSignaled[s.Slot(c)])
    && (s.pc == Begin ==> s.gpu.buffers[s.Slot(c)] == Initial)
    && (s.pc == End ==> s.gpu.buffers[s.Slot(c)] == Recording)
    && (s.pc == Submit ==> s.gpu.buffers[s.Slot(c)] == Executable)
    && (s.pc == Present ==> s.gpu.buffers[s.Slot(c)] in {Submitted, Invalid})
  }

  ghost predicate AcquireInv(c: Config, s: State)
    requires c.Valid() && Sized(c, s.gpu)
  {
    && (InLoop(s.pc) ==> forall k :: 0 <= k < c.slots && !(k == s.Slot(c) && s.pc in {WaitAcquire, ResetAcquire}) ==>
                           !s.gpu.acquireSignaled[k] && k !in s.gpu.acquiring)
    && (s.pc == WaitAcquire ==> (s.gpu.acquireSignaled[s.Slot(c)] <==> s.Slot(c) !in s.gpu.acquiring))
    && (s.pc == ResetAcquire ==> s.Slot(c) !in s.gpu.acquiring)
  }

  ghost predicate CountInv(c: Config, s: State) {
    && s.completed == s.frame <= c.frames
    && (InLoop(s.pc) ==> s.frame < c.frames)
    && (s.pc in {Destroy, Done} ==> s.gpu.pending == {})
  }

  ghost predicate Inv(c: Config, s: State) {
    c.Valid() && Sized(c, s.gpu) && CountInv(c, s) && PendingInv(c, s) && FenceInv(c, s) && AcquireInv(c, s)
  }

  lemma InitInv(c: Config, s: State)
    requires c.Valid() && Init(c, s)
    ensures Inv(c, s)
  {
  }

  lemma SameSlotAfterCycle(c: Config, f: nat)
    requires c.Valid()
    ensures (f + c.slots) % c.slots == f % c.slots
  {
    Arith.AddMultiple(f, c.slots, 1);
  }

  lemma SucceedInv(c: Config, s: State)
    requires Inv(c, s) && Enabled(c, s)
    ensures Inv(c, Succeed(c, s))
  {
    SucceedPending(c, s);
    SucceedFence(c, s);
    SucceedAcquire(c, s);
  }

  lemma SucceedPending(c: Config, s: State)
    requires Inv(c, s) && Enabled(c, s)
    ensures PendingInv(c, Succeed(c, s)) && CountInv(c, Succeed(c, s)) && Sized(c, Succeed(c, s).gpu)
  {
    hide FenceInv;
    hide AcquireInv;
    var s' := Succeed(c, s);
    forall f | f in s'.gpu.pending
      ensures f <= s'.frame
      ensures s'.frame < f + c.slots || (s'.frame == f + c.slots && BeforeWait(s'.pc))
      ensures f == s'.frame ==> s'.pc in {Present, WaitIdle, Destroy, Done}
      ensures !s'.gpu.submitSignaled[f % c.slots] && s'.gpu.buffers[f % c.slots] == Submitted
    {
      PendingAfter(c, s, f);
    }
  }

  lemma PendingAfter(c: Config, s: State, f: nat)
    requires Inv(c, s) && Enabled(c, s) && f in Succeed(c, s).gpu.pending
    ensures var s' := Succeed(c, s);
            && f <= s'.frame
            && (s'.frame < f + c.slots || (s'.frame == f + c.slots && BeforeWait(s'.pc)))
            && (f == s'.frame ==> s'.pc in {Present, WaitIdle, Destroy, Done})
            && !s'.gpu.submitSignaled[f % c.slots] && s'.gpu.buffers[f % c.slots] == Submitted
  {
    hide AcquireInv;
    if s.frame == f + c.slots {
      SameSlotAfterCycle(c, f);
    }
  }

  lemma SucceedFence(c: Config, s: State)
    requires Inv(c, s) && Enabled(c, s)
    ensures FenceInv(c, Succeed(c, s))
  {
  }

  lemma SucceedAcquire(c: Config, s: State)
    requires Inv(c, s) && Enabled(c, s)
    ensures AcquireInv(c, Succeed(c, s))
  {
  }

  lemma FailInv(c: Config, s: State, s': State)
    requires Inv(c, s) && Fail(c, s, s')
    ensures Inv(c, s')
  {
  }

  lemma CompleteInv(c: Config, s: State, f: nat, g: Gpu)
    requires Inv(c, s) && Complete(c, s.gpu, f, g)
    ensures Inv(c, s.(gpu := g))
  {
    var s' := s.(gpu := g);
    forall k: nat | k < c.slots ensures Busy(c, g, k) <==> Busy(c, s.gpu, k) && k != f % c.slots {
      if Busy(c, s.gpu, k) && k != f % c.slots {
        var f' :| f' in s.gpu.pending && f' % c.slots == k;
        assert f' in g.pending;
      }
    }
  }

  lemma AvailableInv(c: Config, s: State, k: nat, g: Gpu)
    requires Inv(c, s) && Available(s.gpu, k, g)
    ensures Inv(c, s.(gpu := g))
  {
    assert forall j: nat :: Busy(c, g, j) <==> Busy(c, s.gpu, j);
  }

  lemma GpuInv(c: Config, s: State, g: Gpu)
    requires Inv(c, s) && GpuStep(c, s.gpu, g)
    ensures Inv(c, s.(gpu := g))
  {
    if f :| Complete(c, s.gpu, f, g) {
      CompleteInv(c, s, f, g);
    } else {
      var k :| Available(s.gpu, k, g);
      AvailableInv(c, s, k, g);
    }
  }

  lemma StepInv(c: Config, s: State, s': State)
    requires Inv(c, s) && Step(c, s, s')
    ensures Inv(c, s')
  {
    if Enabled(c, s) && s' == Succeed(c, s) {
      SucceedInv(c, s);
    } else if Fail(c, s, s') {
      FailInv(c, s, s');
    } else {
      GpuInv(c, s, s'.gpu);
    }
  }

  // Runs: every interleaving of client calls, failures and GPU completions.

  ghost predicate IsRun(c: Config, run: seq<State>) {
    && c.Valid() && run != [] && Init(c, run[0])
    && (forall i :: 0 <= i < |run| ==> Sized(c, run[i].gpu))
    && forall i :: 0 <= i < |run| - 1 ==> Step(c, run[i], run[i + 1])
  }

  lemma {:induction false} RunInv(c: Config, run: seq<State>)
    requires IsRun(c, run)
    ensures Inv(c, run[|run| - 1])
  {
    hide Step;
    hide Inv;
    hide Init;
    var k := |run| - 1;
    if k == 0 {
      InitInv(c, run[0]);
    } else {
      var prefix := run[..k];
      forall i | 0 <= i < |prefix| - 1 ensures Step(c, prefix[i], prefix[i + 1]) {
        assert Step(c, run[i], run[i + 1]);
      }
      RunInv(c, prefix);
      assert Step(c, run[k - 1], run[k - 1 + 1]);
      StepInv(c, run[k - 1], run[k]);
    }
  }

  /** No submission of the current slot is outstanding. */
  ghost predicate SlotIdle(c: Config, s: State)
    requires c.Valid()
  {
    forall f :: f in s.gpu.pending ==> f % c.slots != s.Slot(c)
  }

  /** The next API call respects the fence and command buffer rules. */
  ghost predicate ValidUsage(c: Config, s: State)
    requires c.Valid() && Sized(c, s.gpu)
  {
    var slot := s.Slot(c);
    match s.pc
    // The fence given to an acquire is unsignaled and has no signal operation outstanding.
    case Acquire => !s.gpu.acquireSignaled[slot] && slot !in s.gpu.acquiring
    // A wait is for a fence that is signaled or that something outstanding will signal.
    case WaitAcquire => s.gpu.acquireSignaled[slot] || slot in s.gpu.acquiring
    case WaitSubmit => s.gpu.submitSignaled[slot] || exists f :: f in s.gpu.pending && f % c.slots == slot
    // A fence is reset, and a command buffer reset or recorded, only when nothing outstanding uses it.
    case ResetAcquire => slot !in s.gpu.acquiring
    case ResetSubmit => SlotIdle(c, s)
    case ResetBuffer => SlotIdle(c, s)
    case Begin => SlotIdle(c, s) && s.gpu.buffers[slot] == Initial
    case End => SlotIdle(c, s) && s.gpu.buffers[slot] == Recording
    // A submission takes an executable buffer and an unsignaled fence that no other submission has.
    case Submit => SlotIdle(c, s) && s.gpu.buffers[slot] == Executable && !s.gpu.submitSignaled[slot]
    // A frame is presented after its own submission.
    case Present => s.gpu.buffers[slot] in {Submitted, Invalid}
    case WaitIdle => true
    // Slot objects are destroyed when no submission is outstanding.
    case Destroy => s.gpu.pending == {}
    case Done => s.gpu.pending == {}
  }

  /** At most one submission a slot, hence at most as many as there are slots; none older than one cycle. */
  ghost predicate InFlightBound(c: Config, s: State)
    requires c.Valid()
  {
    && |s.gpu.pending| <= c.slots
    && (forall f, g :: f in s.gpu.pending && g in s.gpu.pending && f != g ==> f % c.slots != g % c.slots)
    && (forall f :: f in s.gpu.pending ==> f <= s.frame <= f + c.slots)
  }

  lemma InjectiveImage(c: Config, frames: set<nat>) returns (image: set<nat>)
    requires c.Valid()
    requires forall f, g :: f in frames && g in frames && f % c.slots == g % c.slots ==> f == g
    ensures |image| == |frames| && forall k :: k in image <==> exists f :: f in frames && f % c.slots == k
  {
    image := {};
    if frames != {} {
      var f :| f in frames;
      var rest := frames - {f};
      var image' := InjectiveImage(c, rest);
      image := image' + {f % c.slots};
      assert f % c.slots !in image';
      forall k ensures k in image <==> exists f :: f in frames && f % c.slots == k {
        if g :| g in frames && g % c.slots == k {
          assert g == f || g in rest;
        }
      }
    }
  }

  lemma {:induction false} BelowCard(s: set<nat>, n: nat)
    requires forall k :: k in s ==> k < n
    ensures |s| <= n
  {
    if n == 0 {
      assert s == {};
    } else {
      BelowCard(s - {n - 1}, n - 1);
      assert |s| <= |s - {n - 1}| + 1 by {
        if n - 1 in s {
          assert s == (s - {n - 1}) + {n - 1};
        } else {
          assert s == s - {n - 1};
        }
      }
    }
  }

  /** Safety: in every state of every run the next call is valid usage and the flight is bounded. */
  lemma RunIsSafe(c: Config, run: seq<State>)
    requires IsRun(c, run)
    ensures var s := run[|run| - 1]; ValidUsage(c, s) && InFlightBound(c, s)
  {
    var s := run[|run| - 1];
    RunInv(c, run);
    InvIsSafe(c, s);
  }

  lemma InvIsSafe(c: Config, s: State)
    requires Inv(c, s)
    ensures ValidUsage(c, s) && InFlightBound(c, s)
  {
    var image := InjectiveImage(c, s.gpu.pending);
    BelowCard(image, c.slots);
    InvUsage(c, s);
  }

  lemma InvUsage(c: Config, s: State)
    requires Inv(c, s)
    ensures ValidUsage(c, s)
  {
    var slot := s.Slot(c);
    assert Busy(c, s.gpu, slot) <==> !SlotIdle(c, s);
  }
}
