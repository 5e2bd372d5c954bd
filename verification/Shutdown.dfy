/** The shutdown protocol of shutdown.rs as a labelled step system. */
module Shutdown {
  // Every thread advances by single atomic steps: one load or compare-exchange of a flag, the start
  // of a callback, the callback's `try_apply` on the phase gate, the return of the callback, one
  // `read` of stdin, or one attempt to spawn the Ctrl-D waiter. A label says which thread moves; a
  // label whose thread cannot move leaves the state alone, so every sequence of labels is a run and
  // quantifying over label sequences quantifies over all interleavings, signal arrivals and spawn
  // results.

  import opened Prelude
  import opened Lifecycle

  datatype Signal = INT | TERM | OtherSignal

  /** One `read` of a single byte from stdin. */
  datatype StdinEvent = Eof | Got(byte: Byte) | Interrupted | ReadError

  datatype Mode = Legacy | TwoPhase

  /** One invocation of the installed callback. */
  datatype Call = Shutdown(reason: Reason) | Act(action: Action)

  datatype Mark = Began(call: Call) | Returned(call: Call)

  /** Progress of a thread that has won the right to invoke the callback. */
  datatype Stage = Claimed | Entered | Applied

  /** Program counter of a signal-dispatch thread; `arm` says that `arm_ctrl_d_waiter` comes next. */
  datatype Dispatcher =
    | Idle
    | ShutdownCas(reason: Reason)
    | DrainCas(reason: Reason, arm: bool)
    | Calling(call: Call, stage: Stage, arm: bool)
    | ArmCas
    | Spawning

  /** Program counter of a Ctrl-D waiter thread. */
  datatype Waiter =
    | Reading
    | WaiterShutdownCas(reason: Reason)
    | ForceLoad
    | ForceCas
    | Delivering(call: Call, stage: Stage)
    | Finished

  /** An accepted gate transition, and whether the signal layer's callback was the one accepted. */
  datatype Acceptance = Acceptance(target: Byte, bySignalLayer: bool)

  /** The four atomics of `HandlerState`. */
  datatype Flags = Flags(armed: bool, shutdownStarted: bool, drainStarted: bool, forceStarted: bool)

  /** The gate's byte, with the transitions it accepted and the `try_apply` results the callback saw. */
  datatype Gate = Gate(phase: Byte, accepted: seq<Acceptance>, verdicts: seq<bool>)

  /** History: signals taken, spawn results, callback starts and returns. */
  datatype Log = Log(received: seq<Signal>, spawns: seq<bool>, calls: seq<Mark>)

  datatype State = State(
    mode: Mode,
    interactive: bool,
    flags: Flags,
    dispatchers: seq<Dispatcher>,
    waiters: seq<Waiter>,
    stdin: seq<StdinEvent>,  // what stdin has yet to deliver
    gate: Gate,              // shared with every other intent source
    log: Log)

  datatype Label =
    | Deliver(d: nat, signal: Signal)
    | Dispatch(d: nat, spawnOk: bool)
    | Wait(w: nat)
    | External(request: Action)

  /** A process whose `n` dispatch threads share one handler state; the source starts exactly one. */
  function Init(n: nat, mode: Mode, interactive: bool, stdin: seq<StdinEvent>): State {
    State(mode, interactive, Flags(false, false, false, false), seq(n, _ => Idle), [], stdin,
          Gate(RUNNING, [], []), Log([], [], []))
  }

  /** Where `handle_sigint` / `handle_sigterm` start. */
  function Enter(mode: Mode, interactive: bool, signal: Signal): Dispatcher {
    match signal
    case INT =>
      if mode.TwoPhase? then DrainCas(SigInt, interactive)
      else if interactive then ArmCas
      else ShutdownCas(SigInt)
    case TERM =>
      if mode.TwoPhase? then DrainCas(SigTerm, false) else ShutdownCas(SigTerm)
    case OtherSignal => Idle
  }

  function After(arm: bool): Dispatcher {
    if arm then ArmCas else Idle
  }

  function Later(stage: Stage): Stage {
    if stage.Claimed? then Entered else Applied
  }

  function At(s: State, d: nat, pc: Dispatcher): State
    requires d < |s.dispatchers|
  {
    s.(dispatchers := s.dispatchers[d := pc])
  }

  function WaiterAt(s: State, w: nat, pc: Waiter): State
    requires w < |s.waiters|
  {
    s.(waiters := s.waiters[w := pc])
  }

  /** The gate's compare-exchange, on behalf of the callback or of any other thread. */
  function ApplyGate(gate: Gate, action: Action, bySignalLayer: bool): Gate {
    Gate(AfterApply(gate.phase, action),
         if Admits(gate.phase, action) then gate.accepted + [Acceptance(Target(action), bySignalLayer)] else gate.accepted,
         if bySignalLayer then gate.verdicts + [Admits(gate.phase, action)] else gate.verdicts)
  }

  /** What a call contributes to the log on leaving stage `stage`. */
  function MarksOf(call: Call, stage: Stage): seq<Mark> {
    match stage
    case Claimed => [Began(call)]
    case Entered => []
    case Applied => [Returned(call)]
  }

  /** Effect of moving a call out of stage `stage`; a legacy callback has no gate. */
  function CallEffect(s: State, call: Call, stage: Stage): State {
    s.(log := s.log.(calls := s.log.calls + MarksOf(call, stage)),
       gate := if stage.Entered? && call.Act? then ApplyGate(s.gate, call.action, true) else s.gate)
  }

  function DispatcherStep(s: State, d: nat, spawnOk: bool): State
    requires d < |s.dispatchers|
  {
    match s.dispatchers[d]
    case Idle => s
    case ShutdownCas(reason) =>
      if s.flags.shutdownStarted then At(s, d, Idle)
      else At(s, d, Calling(Shutdown(reason), Claimed, false)).(flags := s.flags.(shutdownStarted := true))
    case DrainCas(reason, arm) =>
      if s.flags.drainStarted then At(s, d, After(arm))
      else At(s, d, Calling(Act(Drain(reason)), Claimed, arm)).(flags := s.flags.(drainStarted := true))
    case Calling(call, stage, arm) =>
      CallEffect(At(s, d, if stage.Applied? then After(arm) else Calling(call, Later(stage), arm)), call, stage)
    case ArmCas =>
      if s.flags.armed then At(s, d, Idle) else At(s, d, Spawning).(flags := s.flags.(armed := true))
    case Spawning =>
      if spawnOk then At(s, d, Idle).(log := s.log.(spawns := s.log.spawns + [true]), waiters := s.waiters + [Reading])
      else if s.mode.TwoPhase? then At(s, d, Idle).(log := s.log.(spawns := s.log.spawns + [false]))
      else At(s, d, ShutdownCas(SigInt)).(log := s.log.(spawns := s.log.spawns + [false]))
  }

  /** Where one stdin event leads the waiter. */
  function OnEvent(mode: Mode, event: StdinEvent): Waiter {
    match event
    case Eof => if mode.TwoPhase? then ForceLoad else WaiterShutdownCas(CtrlD)
    case Got(byte) =>
      if byte != 0x04 then Reading
      else if mode.TwoPhase? then ForceLoad
      else WaiterShutdownCas(CtrlD)
    case Interrupted => Reading
    case ReadError => if mode.TwoPhase? then Finished else WaiterShutdownCas(SigInt)
  }

  function WaiterStep(s: State, w: nat): State
    requires w < |s.waiters|
  {
    match s.waiters[w]
    case Reading =>
      if s.stdin == [] then s
      else WaiterAt(s, w, OnEvent(s.mode, s.stdin[0])).(stdin := s.stdin[1..])
    case WaiterShutdownCas(reason) =>
      if s.flags.shutdownStarted then WaiterAt(s, w, Finished)
      else WaiterAt(s, w, Delivering(Shutdown(reason), Claimed)).(flags := s.flags.(shutdownStarted := true))
    case ForceLoad =>
      WaiterAt(s, w, if s.flags.drainStarted then ForceCas else Finished)
    case ForceCas =>
      if s.flags.forceStarted then WaiterAt(s, w, Finished)
      else WaiterAt(s, w, Delivering(Act(Force(CtrlD)), Claimed)).(flags := s.flags.(forceStarted := true))
    case Delivering(call, stage) =>
      CallEffect(WaiterAt(s, w, if stage.Applied? then Finished else Delivering(call, Later(stage))), call, stage)
    case Finished => s
  }

  function Next(s: State, step: Label): State {
    match step
    case Deliver(d, signal) =>
      if d < |s.dispatchers| && s.dispatchers[d].Idle?
      then At(s, d, Enter(s.mode, s.interactive, signal)).(log := s.log.(received := s.log.received + [signal]))
      else s
    case Dispatch(d, spawnOk) => if d < |s.dispatchers| then DispatcherStep(s, d, spawnOk) else s
    case Wait(w) => if w < |s.waiters| then WaiterStep(s, w) else s
    case External(request) => s.(gate := ApplyGate(s.gate, request, false))
  }

  function Run(s: State, labels: seq<Label>): State
    decreases |labels|
  {
    if labels == [] then s
    else Next(Run(s, labels[..|labels| - 1]), labels[|labels| - 1])
  }

  lemma {:induction false} RunConcat(s: State, first: seq<Label>, second: seq<Label>)
    ensures Run(s, first + second) == Run(Run(s, first), second)
    decreases |second|
  {
    if second == [] {
      assert first + second == first;
    } else {
      var all := first + second;
      assert all[..|all| - 1] == first + second[..|second| - 1];
      RunConcat(s, first, second[..|second| - 1]);
    }
  }

  predicate SameMode(s: State, t: State) {
    s.mode == t.mode && s.interactive == t.interactive
  }

  lemma DispatcherKeepsMode(s: State, d: nat, spawnOk: bool)
    requires d < |s.dispatchers|
    ensures SameMode(s, DispatcherStep(s, d, spawnOk))
  {
    match s.dispatchers[d] {
      case Idle =>
      case ShutdownCas(_) =>
      case DrainCas(_, _) =>
      case Calling(_, _, _) =>
      case ArmCas =>
      case Spawning =>
    }
  }

  lemma WaiterKeepsMode(s: State, w: nat)
    requires w < |s.waiters|
    ensures SameMode(s, WaiterStep(s, w))
  {
    match s.waiters[w] {
      case Reading =>
      case WaiterShutdownCas(_) =>
      case ForceLoad =>
      case ForceCas =>
      case Delivering(_, _) =>
      case Finished =>
    }
  }

  lemma StepKeepsMode(s: State, step: Label)
    ensures SameMode(s, Next(s, step))
  {
    match step {
      case Deliver(_, _) =>
      case Dispatch(d, spawnOk) => if d < |s.dispatchers| { DispatcherKeepsMode(s, d, spawnOk); }
      case Wait(w) => if w < |s.waiters| { WaiterKeepsMode(s, w); }
      case External(_) =>
    }
  }

  lemma {:induction false} RunKeepsMode(s: State, run: seq<Label>)
    ensures Run(s, run).mode == s.mode && Run(s, run).interactive == s.interactive
    decreases |run|
  {
    if run != [] {
      RunKeepsMode(s, run[..|run| - 1]);
      StepKeepsMode(Run(s, run[..|run| - 1]), run[|run| - 1]);
    }
  }

  /** Every thread has come to rest. */
  predicate Quiescent(s: State) {
    && (forall d :: 0 <= d < |s.dispatchers| ==> s.dispatchers[d].Idle?)
    && (forall w :: 0 <= w < |s.waiters| ==> s.waiters[w].Finished?)
  }

  // ----- What the inputs of a run mean -----

  function ReasonOf(signal: Signal): Option<Reason> {
    match signal
    case INT => Some(SigInt)
    case TERM => Some(SigTerm)
    case OtherSignal => None
  }

  /** The reason of the earliest handled signal. */
  function FirstReason(received: seq<Signal>): Option<Reason>
    decreases |received|
  {
    if received == [] then None
    else
      var earlier := FirstReason(received[..|received| - 1]);
      if earlier.Some? then earlier else ReasonOf(received[|received| - 1])
  }

  /** What stdin ends up telling the waiter. */
  datatype Decision = Undecided | Confirmed | Failed

  predicate IsDecisive(event: StdinEvent) {
    event == Eof || event == Got(0x04) || event == ReadError
  }

  function Decide(stdin: seq<StdinEvent>): (decision: Decision)
    ensures decision.Undecided? <==> forall i :: 0 <= i < |stdin| ==> !IsDecisive(stdin[i])
  {
    if stdin == [] then Undecided
    else if stdin[0] == ReadError then Failed
    else if IsDecisive(stdin[0]) then Confirmed
    else Decide(stdin[1..])
  }

  /** The decision is that of the first decisive event, whatever follows it. */
  lemma {:induction false} DecideIsFirstDecisive(stdin: seq<StdinEvent>, k: nat)
    requires k < |stdin| && IsDecisive(stdin[k])
    requires forall i :: 0 <= i < k ==> !IsDecisive(stdin[i])
    ensures Decide(stdin) == if stdin[k] == ReadError then Failed else Confirmed
  {
    if k > 0 {
      DecideIsFirstDecisive(stdin[1..], k - 1);
    }
  }

  /** Read at `k`: end of input or the byte 4, after nothing but interruptions and other bytes. */
  predicate ConfirmsAt(stdin: seq<StdinEvent>, k: nat) {
    && k < |stdin| && (stdin[k].Eof? || (stdin[k].Got? && stdin[k].byte == 4))
    && forall i :: 0 <= i < k ==> stdin[i].Interrupted? || (stdin[i].Got? && stdin[i].byte != 4)
  }

  lemma {:induction false} ConfirmedIff(stdin: seq<StdinEvent>)
    ensures Decide(stdin).Confirmed? <==> exists k: nat :: ConfirmsAt(stdin, k)
  {
    if stdin != [] {
      var rest := stdin[1..];
      ConfirmedIff(rest);
      if k: nat :| ConfirmsAt(rest, k) {
        var later := k + 1;
        assert !IsDecisive(stdin[0]) ==> ConfirmsAt(stdin, later);
      }
      if k: nat :| ConfirmsAt(stdin, k) {
        if k > 0 {
          var earlier := k - 1;
          assert forall i :: 0 <= i < earlier ==> rest[i] == stdin[i + 1];
          assert ConfirmsAt(rest, earlier);
        }
      }
      assert IsDecisive(stdin[0]) && !stdin[0].ReadError? ==> ConfirmsAt(stdin, 0);
    }
  }

  function DrainMarks(reason: Reason): seq<Mark> {
    [Began(Act(Drain(reason))), Returned(Act(Drain(reason)))]
  }

  const FORCE_MARKS: seq<Mark> := [Began(Act(Force(CtrlD))), Returned(Act(Force(CtrlD)))]

  /** The documented order: Drain for a signal begins and returns before Force(CtrlD) begins; each at most once. */
  predicate Ordered(calls: seq<Mark>) {
    calls <= DrainMarks(SigInt) + FORCE_MARKS || calls <= DrainMarks(SigTerm) + FORCE_MARKS
  }
}
