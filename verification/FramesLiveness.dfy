/**
 With a fair GPU and successful calls the frame loop always reaches its end with every frame completed,
 whatever the number of frames and slots, and it never deadlocks.
 */
module FramesLiveness {
  import opened Frames

  /** A blocked call waits for something outstanding. */
  lemma BlockedOn(c: Config, s: State)
    requires Inv(c, s) && s.pc != Done && !Enabled(c, s)
    ensures s.pc in {WaitAcquire, WaitSubmit, WaitIdle}
    ensures s.pc == WaitAcquire ==> s.Slot(c) in s.gpu.acquiring
    ensures s.pc == WaitSubmit ==> Busy(c, s.gpu, s.Slot(c))
    ensures s.pc == WaitIdle ==> s.gpu.pending != {}
  {
  }

  lemma CanComplete(c: Config, g: Gpu, f: nat)
    requires c.Valid() && Sized(c, g) && f in g.pending
    ensures exists g' :: GpuStep(c, g, g')
  {
    var g' := BufferTo(g, f % c.slots, Invalid).(
      pending := g.pending - {f}, submitSignaled := g.submitSignaled[f % c.slots := true]);
    assert Complete(c, g, f, g');
    assert GpuStep(c, g, g');
  }

  lemma CanBecomeAvailable(c: Config, g: Gpu, k: nat)
    requires c.Valid() && Sized(c, g) && k in g.acquiring && k < c.slots
    ensures exists g' :: GpuStep(c, g, g')
  {
    var g' := g.(acquiring := g.acquiring - {k}, acquireSignaled := g.acquireSignaled[k := true]);
    assert Available(g, k, g');
    assert GpuStep(c, g, g');
  }

  /** No reachable state is stuck: the client can go on, or something outstanding can finish. */
  lemma NeverStuck(c: Config, run: seq<State>)
    requires IsRun(c, run) && run[|run| - 1].pc != Done
    ensures var s := run[|run| - 1]; Enabled(c, s) || exists g :: GpuStep(c, s.gpu, g)
  {
    hide GpuStep;
    var s := run[|run| - 1];
    RunInv(c, run);
    InvNeverStuck(c, s);
  }

  lemma InvNeverStuck(c: Config, s: State)
    requires Inv(c, s) && s.pc != Done
    ensures Enabled(c, s) || exists g :: GpuStep(c, s.gpu, g)
  {
    hide GpuStep;
    if !Enabled(c, s) {
      BlockedOn(c, s);
      hide Inv;
      if s.pc == WaitAcquire {
        CanBecomeAvailable(c, s.gpu, s.Slot(c));
      } else {
        var f :| f in s.gpu.pending;
        CanComplete(c, s.gpu, f);
      }
    }
  }

  datatype Move = Client | Device | Idle

  // An infinite execution in which every client call that returns is successful.
  datatype Execution = Execution(c: Config, state: nat -> State, move: nat -> Move) {
    ghost predicate StepAt(t: nat)
      requires c.Valid()
    {
      var s, s' := state(t), state(t + 1);
      && Sized(c, s.gpu)
      && match move(t)
         case Client => Enabled(c, s) && s' == Succeed(c, s)
         case Device => GpuStep(c, s.gpu, s'.gpu) && s' == s.(gpu := s'.gpu)
         case Idle => s' == s
    }

    ghost predicate Valid() {
      && c.Valid()
      && state(0) == NextFrame(c, 0, 0, InitialGpu(c))
      && forall t: nat :: StepAt(t)
    }

    ghost predicate CompletedBy(f: nat, u: nat) {
      f !in state(u).gpu.pending
    }

    ghost predicate AvailableBy(k: nat, u: nat) {
      k !in state(u).gpu.acquiring
    }

    ghost predicate ClientTurn(u: nat)
      requires Valid()
    {
      assert StepAt(u);
      move(u) == Client || !Enabled(c, state(u))
    }

    /** Submissions complete, acquired images become available, and the client is not starved. */
    ghost predicate Fair()
      requires Valid()
    {
      && (forall t: nat, f :: f in state(t).gpu.pending ==> exists u: nat :: t <= u && CompletedBy(f, u))
      && (forall t: nat, k :: k in state(t).gpu.acquiring ==> exists u: nat :: t <= u && AvailableBy(k, u))
      && (forall t: nat :: Turn(t))
    }

    ghost predicate Turn(t: nat)
      requires Valid()
    {
      exists u: nat :: t <= u && ClientTurn(u)
    }
  }

  function Left(pc: Pc): nat {
    match pc
    case Acquire => 12
    case WaitAcquire => 11
    case ResetAcquire => 10
    case WaitSubmit => 9
    case ResetSubmit => 8
    case ResetBuffer => 7
    case Begin => 6
    case End => 5
    case Submit => 4
    case Present => 3
    case WaitIdle => 2
    case Destroy => 1
    case Done => 0
  }

  /** How many successful client calls are left. */
  function Rank(c: Config, s: State): int {
    (c.frames - s.frame) * 10 + if InLoop(s.pc) then Left(s.pc) - 10 else Left(s.pc)
  }

  lemma SucceedRank(c: Config, s: State)
    requires Inv(c, s) && Enabled(c, s)
    ensures Rank(c, Succeed(c, s)) < Rank(c, s)
  {
  }

  lemma RankNatural(c: Config, s: State)
    requires Inv(c, s)
    ensures 0 <= Rank(c, s)
  {
  }

  /** A successful client has completed every frame when it leaves the loop. */
  ghost predicate FullCount(c: Config, s: State) {
    !InLoop(s.pc) ==> s.completed == c.frames
  }

  lemma {:induction false} ExecutionInv(e: Execution, t: nat)
    requires e.Valid()
    ensures Inv(e.c, e.state(t)) && FullCount(e.c, e.state(t))
  {
    if t == 0 {
      InitInv(e.c, e.state(0));
    } else {
      ExecutionInv(e, t - 1);
      var s := e.state(t - 1);
      assert e.StepAt(t - 1);
      match e.move(t - 1)
      case Client => SucceedInv(e.c, s);
      case Device => GpuInv(e.c, s, e.state(t - 1 + 1).gpu);
      case Idle =>
    }
  }

  ghost predicate ClientStill(s: State, s': State) {
    && s'.pc == s.pc && s'.frame == s.frame
    && s'.gpu.pending <= s.gpu.pending && s'.gpu.acquiring <= s.gpu.acquiring
  }

  /** From t to u either the client has not moved, and the GPU only finished work, or the rank dropped. */
  lemma {:induction false} StillOrLower(e: Execution, t: nat, u: nat)
    requires e.Valid() && t <= u
    ensures ClientStill(e.state(t), e.state(u)) || Rank(e.c, e.state(u)) < Rank(e.c, e.state(t))
    decreases u - t
  {
    if t < u {
      StillOrLower(e, t, u - 1);
      ExecutionInv(e, u - 1);
      assert e.StepAt(u - 1);
      assert e.state(u - 1 + 1) == e.state(u);
      if e.move(u - 1) == Client {
        SucceedRank(e.c, e.state(u - 1));
      }
    }
  }

  ghost predicate Lower(e: Execution, t: nat, u: nat) {
    t <= u && Rank(e.c, e.state(u)) < Rank(e.c, e.state(t))
  }

  /** What a blocked client waits for happens, unless the client has moved already. */
  lemma AcquireReleased(e: Execution, t: nat) returns (u: nat)
    requires e.Valid() && e.Fair() && e.state(t).pc == WaitAcquire
    ensures t <= u && Inv(e.c, e.state(u))
    ensures Lower(e, t, u) || (ClientStill(e.state(t), e.state(u)) && Enabled(e.c, e.state(u)))
  {
    var k := e.state(t).Slot(e.c);
    if k in e.state(t).gpu.acquiring {
      u :| t <= u && e.AvailableBy(k, u);
    } else {
      u := t;
    }
    StillOrLower(e, t, u);
    ExecutionInv(e, u);
  }

  lemma SubmissionReleased(e: Execution, t: nat) returns (u: nat)
    requires e.Valid() && e.Fair() && e.state(t).pc == WaitSubmit
    ensures t <= u && Inv(e.c, e.state(u))
    ensures Lower(e, t, u) || (ClientStill(e.state(t), e.state(u)) && Enabled(e.c, e.state(u)))
  {
    var s := e.state(t);
    ExecutionInv(e, t);
    if f :| f in s.gpu.pending && f % e.c.slots == s.Slot(e.c) {
      u :| t <= u && e.CompletedBy(f, u);
      StillOrLower(e, t, u);
      ExecutionInv(e, u);
      assert Lower(e, t, u) || !Busy(e.c, e.state(u).gpu, s.Slot(e.c)) by {
        assert forall g :: g in s.gpu.pending && g % e.c.slots == s.Slot(e.c) ==> g == f;
      }
    } else {
      assert !Busy(e.c, s.gpu, s.Slot(e.c));
      u := t;
    }
  }

  lemma OneDrained(e: Execution, t: nat) returns (u: nat)
    requires e.Valid() && e.Fair() && e.state(t).gpu.pending != {}
    ensures t <= u
    ensures Lower(e, t, u) || (ClientStill(e.state(t), e.state(u))
                               && |e.state(u).gpu.pending| < |e.state(t).gpu.pending|)
  {
    var pending := e.state(t).gpu.pending;
    var f :| f in pending;
    u :| t <= u && e.CompletedBy(f, u);
    StillOrLower(e, t, u);
    Smaller(e.state(u).gpu.pending, pending, f);
  }

  lemma Smaller(a: set<nat>, b: set<nat>, f: nat)
    requires f in b && f !in a
    ensures a <= b ==> |a| < |b|
  {
    if a <= b {
      assert b == a + (b - a) && f in b - a;
    }
  }

  lemma QueueDrained(e: Execution, t: nat) returns (u: nat)
    requires e.Valid() && e.Fair() && e.state(t).pc == WaitIdle
    ensures t <= u && Inv(e.c, e.state(u))
    ensures Lower(e, t, u) || (ClientStill(e.state(t), e.state(u)) && Enabled(e.c, e.state(u)))
    decreases |e.state(t).gpu.pending|
  {
    hide Inv;
    hide Execution.StepAt;
    hide Execution.Turn;
    if e.state(t).gpu.pending == {} {
      u := t;
      ExecutionInv(e, u);
      IdleEnabled(e.c, e.state(u));
    } else {
      var v := OneDrained(e, t);
      if Lower(e, t, v) {
        u := v;
      } else {
        u := QueueDrained(e, v);
      }
      ExecutionInv(e, u);
    }
  }

  lemma IdleEnabled(c: Config, s: State)
    requires Inv(c, s) && s.pc == WaitIdle && s.gpu.pending == {}
    ensures Enabled(c, s)
  {
  }

  lemma Unblocked(e: Execution, t: nat) returns (u: nat)
    requires e.Valid() && e.Fair() && e.state(t).pc != Done
    ensures t <= u && Inv(e.c, e.state(u))
    ensures Lower(e, t, u) || (ClientStill(e.state(t), e.state(u)) && Enabled(e.c, e.state(u)))
  {
    match e.state(t).pc
    case WaitAcquire => u := AcquireReleased(e, t);
    case WaitSubmit => u := SubmissionReleased(e, t);
    case WaitIdle => u := QueueDrained(e, t);
    case _ =>
      ExecutionInv(e, t);
      u := t;
  }

  /** An enabled client stays enabled until it moves, and fairness makes it move. */
  lemma EnabledMoves(e: Execution, t: nat) returns (u: nat)
    requires e.Valid() && e.Fair() && Sized(e.c, e.state(t).gpu) && Enabled(e.c, e.state(t))
    ensures Lower(e, t, u)
  {
    assert e.Turn(t);
    var w: nat :| t <= w && e.ClientTurn(w);
    StillEnabled(e, t, w);
    ExecutionInv(e, w);
    if Lower(e, t, w) {
      return w;
    }
    assert e.StepAt(w);
    SucceedRank(e.c, e.state(w));
    u := w + 1;
    StillOrLower(e, t, w);
  }

  lemma {:induction false} StillEnabled(e: Execution, t: nat, u: nat)
    requires e.Valid() && t <= u && Sized(e.c, e.state(t).gpu) && Enabled(e.c, e.state(t))
    ensures Lower(e, t, u)
            || (ClientStill(e.state(t), e.state(u)) && Sized(e.c, e.state(u).gpu) && Enabled(e.c, e.state(u)))
    decreases u - t
  {
    if t < u {
      StillEnabled(e, t, u - 1);
      StillOrLower(e, t, u);
      StillOrLower(e, t, u - 1);
      ExecutionInv(e, u - 1);
      ExecutionInv(e, u);
      assert e.StepAt(u - 1);
      assert e.state(u - 1 + 1) == e.state(u);
    }
  }

  lemma {:induction false} ReachesDone(e: Execution, t: nat) returns (u: nat)
    requires e.Valid() && e.Fair()
    ensures t <= u && e.state(u).pc == Done
    decreases Rank(e.c, e.state(t))
  {
    ExecutionInv(e, t);
    RankNatural(e.c, e.state(t));
    if e.state(t).pc == Done {
      return t;
    }
    u := Unblocked(e, t);
    if !Lower(e, t, u) {
      StillOrLower(e, t, u);
      u := EnabledMoves(e, u);
    }
    ExecutionInv(e, u);
    RankNatural(e.c, e.state(u));
    u := ReachesDone(e, u);
  }

  /** Liveness: every fair execution without failures ends with all frames presented. */
  lemma FairExecutionCompletes(e: Execution)
    requires e.Valid() && e.Fair()
    ensures exists u: nat :: e.state(u).pc == Done && e.state(u).completed == e.c.frames
  {
    var u := ReachesDone(e, 0);
    ExecutionInv(e, u);
  }
}
