/** What every interleaving of the two-phase protocol keeps. */
module ShutdownOrdering {
  // The source starts one dispatch thread. The flags alone do not order Drain before Force:
  // `drain_started` is set before the Drain callback runs. The order rests on program order in the
  // dispatcher, recorded here as "a waiter exists only once the Drain callback has returned".

  import opened Prelude
  import opened Lifecycle
  import opened Shutdown

  // ----- The inductive invariant -----

  predicate IsSignalReason(reason: Reason) {
    reason.SigInt? || reason.SigTerm?
  }

  /** The dispatcher still has `arm_ctrl_d_waiter` ahead of it for the signal in hand. */
  predicate WillArm(d: Dispatcher) {
    d.ArmCas? || d.Spawning? || ((d.DrainCas? || d.Calling?) && d.arm)
  }

  predicate Shape(s: State) {
    && |s.dispatchers| == 1
    && |s.waiters| <= 1
    && s.mode.TwoPhase?
    && !s.flags.shutdownStarted
    && !s.dispatchers[0].ShutdownCas?
    && (WillArm(s.dispatchers[0]) || s.flags.armed ==> s.interactive)
    && (s.interactive && INT in s.log.received ==> s.flags.armed || WillArm(s.dispatchers[0]))
    && (s.flags.armed ==> INT in s.log.received)
    && (WillArm(s.dispatchers[0]) ==> INT in s.log.received)
    && (s.dispatchers[0].DrainCas? ==> IsSignalReason(s.dispatchers[0].reason))
  }

  /** No Drain claimed yet: the callback is untouched and nobody waits on stdin. */
  predicate BeforeDrain(s: State)
    requires Shape(s)
  {
    var d := s.dispatchers[0];
    && !s.flags.drainStarted && !s.flags.forceStarted && !s.flags.armed
    && s.log.calls == [] && s.waiters == [] && s.log.spawns == []
    && (d.Idle? || d.DrainCas?)
    && FirstReason(s.log.received) == (if d.DrainCas? then Some(d.reason) else None)
  }

  /** The dispatcher is inside the Drain callback: the flag is up, yet no waiter can exist. */
  predicate DuringDrain(s: State)
    requires Shape(s)
  {
    var d := s.dispatchers[0];
    && s.flags.drainStarted && !s.flags.forceStarted && !s.flags.armed
    && s.waiters == [] && s.log.spawns == []
    && d.Calling? && d.call.Act? && d.call.action.Drain?
    && IsSignalReason(d.call.action.reason)
    && FirstReason(s.log.received) == Some(d.call.action.reason)
    && s.log.calls == (if d.stage.Claimed? then [] else [Began(d.call)])
    && (d.stage.Applied? ==> s.gate.phase >= DRAINING)
  }

  function ForceMarksSoFar(s: State): seq<Mark> {
    if s.waiters == [] then []
    else match s.waiters[0]
      case Delivering(_, stage) => if stage.Claimed? then [] else FORCE_MARKS[..1]
      case Finished => if s.flags.forceStarted then FORCE_MARKS else []
      case _ => []
  }

  /** The Drain callback has returned; a waiter may exist and may be forcing. */
  predicate AfterDrain(s: State)
    requires Shape(s)
  {
    var d := s.dispatchers[0];
    && s.flags.drainStarted && !d.Calling?
    && s.gate.phase >= DRAINING
    && FirstReason(s.log.received).Some? && IsSignalReason(FirstReason(s.log.received).value)
    && s.log.calls == DrainMarks(FirstReason(s.log.received).value) + ForceMarksSoFar(s)
    && (d.Spawning? ==> s.flags.armed)
    && (if s.flags.armed && !d.Spawning?
        then |s.log.spawns| == 1 && |s.waiters| == (if s.log.spawns[0] then 1 else 0)
        else s.log.spawns == [] && s.waiters == [])
    && (s.waiters == [] ==> !s.flags.forceStarted)
  }

  /** What the waiter's program counter says about stdin, the force flag and the gate. */
  predicate WaiterAgrees(s: State, stdin: seq<StdinEvent>)
    requires Shape(s)
  {
    if s.waiters == [] then s.stdin == stdin
    else match s.waiters[0]
      case Reading => !s.flags.forceStarted && Decide(s.stdin) == Decide(stdin)
      case WaiterShutdownCas(_) => false
      case ForceLoad => !s.flags.forceStarted && Decide(stdin).Confirmed?
      case ForceCas => !s.flags.forceStarted && Decide(stdin).Confirmed?
      case Delivering(call, stage) =>
        && s.flags.forceStarted && call == Act(Force(CtrlD)) && Decide(stdin).Confirmed?
        && (stage.Applied? ==> s.gate.phase == FORCED)
      case Finished =>
        if s.flags.forceStarted then Decide(stdin).Confirmed? && s.gate.phase == FORCED else Decide(stdin).Failed?
  }

  /** `stdin` is everything standard input delivers over the whole run. */
  predicate Inv(s: State, stdin: seq<StdinEvent>) {
    && Shape(s)
    && WaiterAgrees(s, stdin)
    && s.gate.phase <= FORCED
    && (BeforeDrain(s) || DuringDrain(s) || AfterDrain(s))
  }

  lemma FirstReasonAppend(received: seq<Signal>, signal: Signal)
    ensures FirstReason(received + [signal]) ==
            if FirstReason(received).Some? then FirstReason(received) else ReasonOf(signal)
  {
    var all := received + [signal];
    assert all[..|all| - 1] == received;
  }

  lemma DeliverKeepsInv(s: State, d: nat, signal: Signal, stdin: seq<StdinEvent>)
    requires Inv(s, stdin)
    ensures Inv(Next(s, Deliver(d, signal)), stdin)
  {
    FirstReasonAppend(s.log.received, signal);
    match signal {
      case INT =>
      case TERM =>
      case OtherSignal =>
    }
  }

  lemma CallingKeepsInv(s: State, spawnOk: bool, stdin: seq<StdinEvent>)
    requires Inv(s, stdin) && s.dispatchers[0].Calling?
    ensures Inv(DispatcherStep(s, 0, spawnOk), stdin)
  {
  }

  lemma ArmingKeepsInv(s: State, spawnOk: bool, stdin: seq<StdinEvent>)
    requires Inv(s, stdin) && (s.dispatchers[0].ArmCas? || s.dispatchers[0].Spawning?)
    ensures Inv(DispatcherStep(s, 0, spawnOk), stdin)
  {
  }

  lemma DispatchKeepsInv(s: State, d: nat, spawnOk: bool, stdin: seq<StdinEvent>)
    requires Inv(s, stdin)
    ensures Inv(Next(s, Dispatch(d, spawnOk)), stdin)
  {
    if d == 0 {
      match s.dispatchers[0] {
        case Calling(_, _, _) => CallingKeepsInv(s, spawnOk, stdin);
        case ArmCas => ArmingKeepsInv(s, spawnOk, stdin);
        case Spawning => ArmingKeepsInv(s, spawnOk, stdin);
        case DrainCas(_, _) =>
        case Idle =>
      }
    }
  }

  lemma WaitKeepsInv(s: State, w: nat, stdin: seq<StdinEvent>)
    requires Inv(s, stdin)
    ensures Inv(Next(s, Wait(w)), stdin)
  {
  }

  lemma ExternalKeepsInv(s: State, request: Action, stdin: seq<StdinEvent>)
    requires Inv(s, stdin)
    ensures Inv(Next(s, External(request)), stdin)
  {
  }

  lemma InitInv(interactive: bool, stdin: seq<StdinEvent>)
    ensures Inv(Init(1, TwoPhase, interactive, stdin), stdin)
  {
  }

  lemma StepKeepsInv(s: State, step: Label, stdin: seq<StdinEvent>)
    requires Inv(s, stdin)
    ensures Inv(Next(s, step), stdin)
  {
    match step {
      case Deliver(d, signal) => DeliverKeepsInv(s, d, signal, stdin);
      case Dispatch(d, spawnOk) => DispatchKeepsInv(s, d, spawnOk, stdin);
      case Wait(w) => WaitKeepsInv(s, w, stdin);
      case External(request) => ExternalKeepsInv(s, request, stdin);
    }
  }

  lemma {:induction false} RunKeepsInv(s: State, run: seq<Label>, stdin: seq<StdinEvent>)
    requires Inv(s, stdin)
    ensures Inv(Run(s, run), stdin)
    decreases |run|
  {
    if run != [] {
      RunKeepsInv(s, run[..|run| - 1], stdin);
      StepKeepsInv(Run(s, run[..|run| - 1]), run[|run| - 1], stdin);
    }
  }

  // ----- Safety over whole runs -----

  lemma InvGivesOrder(s: State, stdin: seq<StdinEvent>)
    requires Inv(s, stdin)
    ensures Ordered(s.log.calls)
  {
    if AfterDrain(s) {
      var drain := DrainMarks(FirstReason(s.log.received).value);
      assert ForceMarksSoFar(s) <= FORCE_MARKS;
      assert drain + ForceMarksSoFar(s) <= drain + FORCE_MARKS;
    } else if DuringDrain(s) {
      assert s.log.calls <= DrainMarks(s.dispatchers[0].call.action.reason);
    }
  }

  /** In every interleaving the callback sees a prefix of Drain begins, Drain returns, Force begins, Force returns. */
  lemma DrainReturnsBeforeForceBegins(interactive: bool, stdin: seq<StdinEvent>, run: seq<Label>)
    ensures Ordered(Run(Init(1, TwoPhase, interactive, stdin), run).log.calls)
  {
    InitInv(interactive, stdin);
    RunKeepsInv(Init(1, TwoPhase, interactive, stdin), run, stdin);
    InvGivesOrder(Run(Init(1, TwoPhase, interactive, stdin), run), stdin);
  }

  predicate Forcing(calls: seq<Mark>) {
    Began(Act(Force(CtrlD))) in calls
  }

  /** Force needs an interactive run, a SIGINT, a waiter that did spawn, and stdin confirming it. */
  lemma ForceOnlyByOperator(interactive: bool, stdin: seq<StdinEvent>, run: seq<Label>)
    ensures var s := Run(Init(1, TwoPhase, interactive, stdin), run);
            Forcing(s.log.calls) ==>
              && interactive && INT in s.log.received && s.log.spawns == [true]
              && Decide(stdin).Confirmed? && exists k: nat :: ConfirmsAt(stdin, k)
  {
    ConfirmedIff(stdin);
    InitInv(interactive, stdin);
    RunKeepsInv(Init(1, TwoPhase, interactive, stdin), run, stdin);
    RunKeepsMode(Init(1, TwoPhase, interactive, stdin), run);
    var s := Run(Init(1, TwoPhase, interactive, stdin), run);
    if Forcing(s.log.calls) {
      assert AfterDrain(s) && s.waiters != [];
    }
  }

  /** The callback trace owed once all threads have come to rest, read off the run's inputs alone. */
  function Owed(received: seq<Signal>, spawns: seq<bool>, stdin: seq<StdinEvent>): seq<Mark> {
    if FirstReason(received).None? then []
    else DrainMarks(FirstReason(received).value)
         + (if spawns == [true] && Decide(stdin).Confirmed? then FORCE_MARKS else [])
  }

  /**
   At rest the trace does not depend on the interleaving: one Drain with the first signal's reason,
   then one Force exactly when the one waiter spawned and stdin confirmed. The single spawn attempt
   happens exactly when an interactive SIGINT arrived, however many arrive.
   */
  lemma QuiescentTraceIsDetermined(interactive: bool, stdin: seq<StdinEvent>, run: seq<Label>)
    requires Quiescent(Run(Init(1, TwoPhase, interactive, stdin), run))
    ensures var s := Run(Init(1, TwoPhase, interactive, stdin), run);
            && s.log.calls == Owed(s.log.received, s.log.spawns, stdin)
            && |s.log.spawns| == (if interactive && INT in s.log.received then 1 else 0)
  {
    InitInv(interactive, stdin);
    RunKeepsInv(Init(1, TwoPhase, interactive, stdin), run, stdin);
    RunKeepsMode(Init(1, TwoPhase, interactive, stdin), run);
    var s := Run(Init(1, TwoPhase, interactive, stdin), run);
    assert s.dispatchers[0].Idle?;
  }

  // ----- The phase gate -----

  /** Holds with any number of dispatchers, waiters and outside callers. */
  predicate GateInv(s: State) {
    && s.gate.phase == |s.gate.accepted| <= FORCED
    && (forall i :: 0 <= i < |s.gate.accepted| ==> s.gate.accepted[i].target == i + 1)
  }

  predicate GateGrew(earlier: State, later: State) {
    earlier.gate.phase <= later.gate.phase && earlier.gate.accepted <= later.gate.accepted
  }

  ghost predicate UsesGateCas(s: State, t: State) {
    t.gate == s.gate || exists action, mine :: t.gate == ApplyGate(s.gate, action, mine)
  }

  lemma DispatcherUsesGateCas(s: State, d: nat, spawnOk: bool)
    requires d < |s.dispatchers|
    ensures UsesGateCas(s, DispatcherStep(s, d, spawnOk))
  {
    match s.dispatchers[d] {
      case Calling(call, stage, _) =>
        if stage.Entered? && call.Act? {
          assert DispatcherStep(s, d, spawnOk).gate == ApplyGate(s.gate, call.action, true);
        }
      case Idle =>
      case ShutdownCas(_) =>
      case DrainCas(_, _) =>
      case ArmCas =>
      case Spawning =>
    }
  }

  lemma WaiterUsesGateCas(s: State, w: nat)
    requires w < |s.waiters|
    ensures UsesGateCas(s, WaiterStep(s, w))
  {
    match s.waiters[w] {
      case Delivering(call, stage) =>
        if stage.Entered? && call.Act? {
          assert WaiterStep(s, w).gate == ApplyGate(s.gate, call.action, true);
        }
      case Reading =>
      case WaiterShutdownCas(_) =>
      case ForceLoad =>
      case ForceCas =>
      case Finished =>
    }
  }

  /** A step touches the gate only through one compare-exchange. */
  lemma StepUsesGateCas(s: State, step: Label)
    ensures UsesGateCas(s, Next(s, step))
  {
    match step {
      case Deliver(_, _) =>
      case Dispatch(d, spawnOk) => if d < |s.dispatchers| { DispatcherUsesGateCas(s, d, spawnOk); }
      case Wait(w) => if w < |s.waiters| { WaiterUsesGateCas(s, w); }
      case External(request) => assert Next(s, step).gate == ApplyGate(s.gate, request, false);
    }
  }

  lemma StepGrowsGate(s: State, step: Label)
    ensures GateGrew(s, Next(s, step))
    ensures GateInv(s) ==> GateInv(Next(s, step))
  {
    var t := Next(s, step);
    StepUsesGateCas(s, step);
    if t.gate != s.gate {
      var action, mine :| t.gate == ApplyGate(s.gate, action, mine);
    }
  }

  /** From any state, in any mode: the byte never falls and acceptances are never retracted. */
  lemma {:induction false} GateIsMonotone(s: State, run: seq<Label>)
    ensures GateGrew(s, Run(s, run))
    ensures GateInv(s) ==> GateInv(Run(s, run))
    decreases |run|
  {
    if run != [] {
      GateIsMonotone(s, run[..|run| - 1]);
      StepGrowsGate(Run(s, run[..|run| - 1]), run[|run| - 1]);
    }
  }

  /**
   However many threads drive the gate, the accepted transitions are a prefix of
   [to Draining, to Forced] and the byte counts them; a later part of the run only extends them.
   */
  lemma AcceptedTransitionsAreOrdered(n: nat, mode: Mode, interactive: bool, stdin: seq<StdinEvent>,
                                      run: seq<Label>, more: seq<Label>)
    ensures var s := Run(Init(n, mode, interactive, stdin), run);
            && GateInv(s)
            && GateGrew(s, Run(Init(n, mode, interactive, stdin), run + more))
  {
    GateIsMonotone(Init(n, mode, interactive, stdin), run);
    RunConcat(Init(n, mode, interactive, stdin), run, more);
    GateIsMonotone(Run(Init(n, mode, interactive, stdin), run), more);
  }

  /** Once the signal layer's Drain (Force) callback has returned, the gate is at least Draining (is Forced). */
  lemma ReturnedCallbacksReachGate(interactive: bool, stdin: seq<StdinEvent>, run: seq<Label>)
    ensures var s := Run(Init(1, TwoPhase, interactive, stdin), run);
            && (forall reason :: Returned(Act(Drain(reason))) in s.log.calls ==> s.gate.phase >= DRAINING)
            && (Returned(Act(Force(CtrlD))) in s.log.calls ==> FromRawFailClosed(s.gate.phase) == Forced)
  {
    InitInv(interactive, stdin);
    RunKeepsInv(Init(1, TwoPhase, interactive, stdin), run, stdin);
    var s := Run(Init(1, TwoPhase, interactive, stdin), run);
    if Returned(Act(Force(CtrlD))) in s.log.calls {
      assert AfterDrain(s) && s.waiters != [];
    }
  }

  predicate Alone(run: seq<Label>) {
    forall i :: 0 <= i < |run| ==> !run[i].External?
  }

  /** With no other intent source the byte follows the signal layer's own callbacks. */
  predicate AloneInv(s: State)
    requires Shape(s)
  {
    && (forall i :: 0 <= i < |s.gate.verdicts| ==> s.gate.verdicts[i])
    && (BeforeDrain(s) ==> s.gate.phase == RUNNING)
    && (DuringDrain(s) ==> s.gate.phase == if s.dispatchers[0].stage.Applied? then DRAINING else RUNNING)
    && (AfterDrain(s) ==> s.gate.phase == if |s.waiters| == 1 && ForceApplied(s.waiters[0], s.flags.forceStarted) then FORCED else DRAINING)
  }

  predicate ForceApplied(w: Waiter, forceStarted: bool) {
    (w.Delivering? && w.stage.Applied?) || (w.Finished? && forceStarted)
  }

  lemma StepKeepsAloneInv(s: State, step: Label, stdin: seq<StdinEvent>)
    requires Inv(s, stdin) && AloneInv(s) && !step.External?
    ensures Inv(Next(s, step), stdin) && AloneInv(Next(s, step))
  {
    StepKeepsInv(s, step, stdin);
  }

  /** If the signal layer is the gate's only source, `try_apply` accepts every action it emits. */
  lemma {:induction false} SoleSourceIsAlwaysAccepted(interactive: bool, stdin: seq<StdinEvent>, run: seq<Label>)
    requires Alone(run)
    ensures var s := Run(Init(1, TwoPhase, interactive, stdin), run);
            && Inv(s, stdin) && AloneInv(s)
            && (forall i :: 0 <= i < |s.gate.verdicts| ==> s.gate.verdicts[i])
    decreases |run|
  {
    InitInv(interactive, stdin);
    if run != [] {
      var earlier := run[..|run| - 1];
      SoleSourceIsAlwaysAccepted(interactive, stdin, earlier);
      StepKeepsAloneInv(Run(Init(1, TwoPhase, interactive, stdin), earlier), run[|run| - 1], stdin);
    }
  }

  // ----- The order needs the single dispatcher -----

  /** Two dispatchers: the second arms the waiter while the first has claimed Drain but not yet called back. */
  const RACE: seq<Label> := [
    Deliver(0, INT), Dispatch(0, true),
    Deliver(1, INT), Dispatch(1, true), Dispatch(1, true), Dispatch(1, true),
    Wait(0), Wait(0), Wait(0), Wait(0)]

  lemma {:induction false} RunSnoc(s: State, run: seq<Label>, step: Label)
    ensures Run(s, run + [step]) == Next(Run(s, run), step)
  {
    var all := run + [step];
    assert all[..|all| - 1] == run;
  }

  lemma SecondDispatcherBreaksOrder(n: nat)
    requires n >= 2
    ensures Run(Init(n, TwoPhase, true, [Eof]), RACE).log.calls == [Began(Act(Force(CtrlD)))]
  {
    var s0 := Init(n, TwoPhase, true, [Eof]);
    var s2 := Next(Next(s0, RACE[0]), RACE[1]);
    assert s2.flags.drainStarted && s2.log.calls == [] && s2.dispatchers[1].Idle?;
    var s6 := Next(Next(Next(Next(s2, RACE[2]), RACE[3]), RACE[4]), RACE[5]);
    assert s6.waiters == [Reading] && s6.log.calls == [] && s6.flags.drainStarted && s6.stdin == [Eof];
    var s10 := Next(Next(Next(Next(s6, RACE[6]), RACE[7]), RACE[8]), RACE[9]);
    assert s10.log.calls == [Began(Act(Force(CtrlD)))];
    RunOfTen(s0, RACE);
  }

  lemma RunOfTen(s: State, run: seq<Label>)
    requires |run| == 10
    ensures Run(s, run) ==
            Next(Next(Next(Next(Next(Next(Next(Next(Next(Next(s, run[0]), run[1]), run[2]), run[3]), run[4]),
                 run[5]), run[6]), run[7]), run[8]), run[9])
  {
    forall i | 0 <= i < 10 ensures Run(s, run[..i + 1]) == Next(Run(s, run[..i]), run[i]) {
      assert run[..i + 1] == run[..i] + [run[i]];
      RunSnoc(s, run[..i], run[i]);
    }
    assert run[..0] == [] && run[..10] == run;
    assert Run(s, run[..5]) == Next(Next(Next(Next(Next(s, run[0]), run[1]), run[2]), run[3]), run[4]);
  }

  /** The documented order holds in every interactive run exactly when a single thread dispatches signals. */
  lemma OrderedIffSingleDispatcher(n: nat)
    requires n >= 1
    ensures (forall stdin, run :: Ordered(Run(Init(n, TwoPhase, true, stdin), run).log.calls)) <==> n == 1
  {
    if n == 1 {
      forall stdin, run ensures Ordered(Run(Init(n, TwoPhase, true, stdin), run).log.calls) {
        DrainReturnsBeforeForceBegins(true, stdin, run);
      }
    } else {
      SecondDispatcherBreaksOrder(n);
      assert Run(Init(n, TwoPhase, true, [Eof]), RACE).log.calls[0] != DrainMarks(SigInt)[0];
      assert !Ordered(Run(Init(n, TwoPhase, true, [Eof]), RACE).log.calls);
    }
  }
}
