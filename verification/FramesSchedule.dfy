/**
 A schedule for every configuration: the device finishes whatever is outstanding before the client makes its next
 call. Its execution is fair, hence the fair executions that liveness speaks of exist for all frame and slot counts.
 */
module FramesSchedule {
  import opened Frames
  import opened FramesLiveness

  ghost function FinishOne(c: Config, g: Gpu): Gpu
    requires c.Valid() && Sized(c, g) && g.pending != {}
  {
    var f :| f in g.pending;
    BufferTo(g, f % c.slots, Invalid).(pending := g.pending - {f}, submitSignaled := g.submitSignaled[f % c.slots := true])
  }

  ghost function DeliverOne(c: Config, g: Gpu): Gpu
    requires Sized(c, g) && Bounded(c, g) && g.acquiring != {}
  {
    var k :| k in g.acquiring;
    g.(acquiring := g.acquiring - {k}, acquireSignaled := g.acquireSignaled[k := true])
  }

  ghost predicate Bounded(c: Config, g: Gpu) {
    forall k :: k in g.acquiring ==> k < c.slots
  }

  /** The states that the schedule meets. */
  ghost predicate Met(c: Config, s: State) {
    Inv(c, s) && Bounded(c, s.gpu)
  }

  ghost predicate Outstanding(s: State) {
    s.gpu.acquiring != {} || s.gpu.pending != {}
  }

  ghost function Choice(c: Config, s: State): Move
    requires Met(c, s)
  {
    if Outstanding(s) then Device else if Enabled(c, s) then Client else Idle
  }

  ghost function Next(c: Config, s: State): State
    requires Met(c, s)
  {
    if s.gpu.acquiring != {} then s.(gpu := DeliverOne(c, s.gpu))
    else if s.gpu.pending != {} then s.(gpu := FinishOne(c, s.gpu))
    else if Enabled(c, s) then Succeed(c, s)
    else s
  }

  lemma DeviceMoves(c: Config, s: State)
    requires Met(c, s) && Outstanding(s)
    ensures var s' := Next(c, s); GpuStep(c, s.gpu, s'.gpu) && s' == s.(gpu := s'.gpu) && Load(s') < Load(s)
    ensures Bounded(c, Next(c, s).gpu)
  {
    var s' := Next(c, s);
    if s.gpu.acquiring != {} {
      var k :| k in s.gpu.acquiring && s'.gpu.acquiring == s.gpu.acquiring - {k} && Available(s.gpu, k, s'.gpu);
      assert |s.gpu.acquiring - {k}| == |s.gpu.acquiring| - 1;
    } else {
      var f :| f in s.gpu.pending && s'.gpu.pending == s.gpu.pending - {f} && Complete(c, s.gpu, f, s'.gpu);
      assert |s.gpu.pending - {f}| == |s.gpu.pending| - 1;
    }
  }

  ghost function Load(s: State): nat {
    |s.gpu.acquiring| + |s.gpu.pending|
  }

  lemma SucceedBounded(c: Config, s: State)
    requires Met(c, s) && Enabled(c, s)
    ensures Bounded(c, Succeed(c, s).gpu)
  {
    assert 0 <= s.Slot(c) < c.slots;
  }

  lemma NextMet(c: Config, s: State)
    requires Met(c, s)
    ensures Met(c, Next(c, s))
  {
    hide Inv;
    hide Succeed;
    if Outstanding(s) {
      DeviceMoves(c, s);
      GpuInv(c, s, Next(c, s).gpu);
    } else if IsEnabled(c, s) {
      SucceedInv(c, s);
      SucceedBounded(c, s);
    }
  }

  ghost predicate IsEnabled(c: Config, s: State)
    requires Met(c, s)
  {
    Enabled(c, s)
  }

  ghost function StateAt(c: Config, t: nat): (s: State)
    requires c.Valid()
    ensures Met(c, s)
  {
    if t == 0 then
      var s := NextFrame(c, 0, 0, InitialGpu(c));
      InitInv(c, s);
      s
    else
      NextMet(c, StateAt(c, t - 1));
      Next(c, StateAt(c, t - 1))
  }

  ghost function Schedule(c: Config): (e: Execution)
    requires c.Valid()
    ensures e.c == c
  {
    Execution(c, (t: nat) => StateAt(c, t), (t: nat) => Choice(c, StateAt(c, t)))
  }

  lemma ScheduleSteps(c: Config, t: nat)
    requires c.Valid()
    ensures Schedule(c).StepAt(t)
  {
    var s := StateAt(c, t);
    assert StateAt(c, t + 1) == Next(c, s);
    if Outstanding(s) {
      DeviceMoves(c, s);
    }
  }

  /** From any moment on, a moment comes when nothing is outstanding. */
  lemma {:induction false} Drains(c: Config, t: nat) returns (u: nat)
    requires c.Valid()
    ensures t <= u && !Outstanding(StateAt(c, u))
    decreases Load(StateAt(c, t))
  {
    if Outstanding(StateAt(c, t)) {
      DeviceMoves(c, StateAt(c, t));
      assert StateAt(c, t + 1) == Next(c, StateAt(c, t));
      u := Drains(c, t + 1);
    } else {
      u := t;
    }
  }

  lemma ScheduleIsValid(c: Config)
    requires c.Valid()
    ensures Schedule(c).Valid()
  {
    hide Execution.StepAt;
    forall t: nat ensures Schedule(c).StepAt(t) {
      ScheduleSteps(c, t);
    }
  }

  lemma IdleMoment(c: Config, u: nat)
    requires c.Valid() && Schedule(c).Valid() && !Outstanding(StateAt(c, u))
    ensures Schedule(c).ClientTurn(u) && forall f :: Schedule(c).CompletedBy(f, u) && Schedule(c).AvailableBy(f, u)
  {
    hide Met;
    assert Schedule(c).StepAt(u);
  }

  lemma ScheduleIsFair(c: Config)
    requires c.Valid()
    ensures Schedule(c).Valid() && Schedule(c).Fair()
  {
    hide Execution.StepAt;
    hide Execution.ClientTurn;
    hide Execution.CompletedBy;
    hide Execution.AvailableBy;
    hide Execution.Valid;
    hide Outstanding;
    hide Schedule;
    hide StateAt;
    var e := Schedule(c);
    ScheduleIsValid(c);
    forall t: nat, f | f in e.state(t).gpu.pending ensures exists u: nat :: t <= u && e.CompletedBy(f, u) {
      var u := Drains(c, t);
      IdleMoment(c, u);
      assert e.CompletedBy(f, u);
    }
    forall t: nat, k | k in e.state(t).gpu.acquiring ensures exists u: nat :: t <= u && e.AvailableBy(k, u) {
      var u := Drains(c, t);
      IdleMoment(c, u);
      assert e.AvailableBy(k, u);
    }
    forall t: nat ensures e.Turn(t) {
      var u := Drains(c, t);
      IdleMoment(c, u);
    }
  }

  /** For any number of frames and slots there is a fair execution, and it presents every frame. */
  lemma EveryConfigurationCompletes(c: Config)
    requires c.Valid()
    ensures exists e: Execution, u: nat ::
              e.c == c && e.Valid() && e.Fair() && e.state(u).pc == Done && e.state(u).completed == c.frames
  {
    var e := Schedule(c);
    ScheduleIsFair(c);
    FairExecutionCompletes(e);
  }
}
