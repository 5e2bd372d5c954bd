/**
 The handlers of shutdown.rs as they are written: methods that compare-exchange the fields of
 `HandlerState`, invoke the callback and return. Run without interruption, each is exactly a run of
 the step system, so every property of all runs covers them.
 */
module ShutdownHandlers {
  import opened Prelude
  import opened Lifecycle
  import opened Shutdown

  // ----- What a handler does when nothing interrupts it -----

  function Invoke(s: State, call: Call): State {
    CallEffect(CallEffect(CallEffect(s, call, Claimed), call, Entered), call, Applied)
  }

  function OnShutdown(s: State, reason: Reason): State {
    if s.flags.shutdownStarted then s
    else Invoke(s.(flags := s.flags.(shutdownStarted := true)), Shutdown(reason))
  }

  function OnDrain(s: State, reason: Reason): State {
    if s.flags.drainStarted then s
    else Invoke(s.(flags := s.flags.(drainStarted := true)), Act(Drain(reason)))
  }

  function OnForce(s: State, reason: Reason): State {
    if !s.flags.drainStarted || s.flags.forceStarted then s
    else Invoke(s.(flags := s.flags.(forceStarted := true)), Act(Force(reason)))
  }

  function OnArm(s: State, spawnOk: bool): State {
    if s.flags.armed then s
    else
      var t := s.(flags := s.flags.(armed := true), log := s.log.(spawns := s.log.spawns + [spawnOk]));
      if spawnOk then t.(waiters := t.waiters + [Reading])
      else if t.mode.Legacy? then OnShutdown(t, SigInt)
      else t
  }

  function OnSignal(s: State, signal: Signal, spawnOk: bool): State {
    var t := s.(log := s.log.(received := s.log.received + [signal]));
    match signal
    case INT =>
      if s.mode.Legacy? then (if s.interactive then OnArm(t, spawnOk) else OnShutdown(t, SigInt))
      else if s.interactive then OnArm(OnDrain(t, SigInt), spawnOk)
      else OnDrain(t, SigInt)
    case TERM => if s.mode.Legacy? then OnShutdown(t, SigTerm) else OnDrain(t, SigTerm)
    case OtherSignal => t
  }

  function OnSignals(s: State, signals: seq<Signal>, spawnOk: bool): State
    decreases |signals|
  {
    if signals == [] then s
    else OnSignal(OnSignals(s, signals[..|signals| - 1], spawnOk), signals[|signals| - 1], spawnOk)
  }

  /** The waiter thread `w`, reading until stdin decides or has nothing more to give. */
  function OnStdin(s: State, w: nat): State
    requires w < |s.waiters| && s.waiters[w].Reading?
    decreases |s.stdin|
  {
    if s.stdin == [] then s
    else
      var t := s.(stdin := s.stdin[1..]);
      match OnEvent(s.mode, s.stdin[0])
      case Reading => OnStdin(t, w)
      case ForceLoad => OnForce(WaiterAt(t, w, Finished), CtrlD)
      case WaiterShutdownCas(reason) => OnShutdown(WaiterAt(t, w, Finished), reason)
      case _ => WaiterAt(t, w, Finished)
  }

  // ----- The imperative code -----

  class SignalLayer {
    const mode: Mode
    const interactive: bool
    const gate: ShutdownLifecycleGate  // the consumer's callback hands every action to this gate
    var ctrlDArmed: bool
    var shutdownStarted: bool
    var drainStarted: bool
    var forceStarted: bool
    var waiters: seq<Waiter>
    var stdin: seq<StdinEvent>
    var accepted: seq<Acceptance>
    var verdicts: seq<bool>
    var log: Log

    /** The step system's view of this object while the dispatcher waits for a signal. */
    function Snapshot(): State
      reads this, gate
    {
      State(mode, interactive, Flags(ctrlDArmed, shutdownStarted, drainStarted, forceStarted),
            [Idle], waiters, stdin, Gate(gate.phase, accepted, verdicts), log)
    }

    constructor (mode: Mode, interactive: bool, stdin: seq<StdinEvent>)
      ensures fresh(gate)
      ensures Snapshot() == Init(1, mode, interactive, stdin)
    {
      this.mode, this.interactive, this.stdin := mode, interactive, stdin;
      ctrlDArmed, shutdownStarted, drainStarted, forceStarted := false, false, false, false;
      waiters, accepted, verdicts, log := [], [], [], Log([], [], []);
      gate := new ShutdownLifecycleGate();
    }

    method Callback(call: Call)
      modifies this`log, this`accepted, this`verdicts, gate
      ensures Snapshot() == Invoke(old(Snapshot()), call)
    {
      log := log.(calls := log.calls + [Began(call)]);
      if call.Act? {
        var won := gate.TryApply(call.action);
        verdicts := verdicts + [won];
        if won {
          accepted := accepted + [Acceptance(Target(call.action), true)];
        }
      }
      log := log.(calls := log.calls + [Returned(call)]);
    }

    method RequestLegacyShutdown(reason: Reason) returns (won: bool)
      modifies this, gate
      ensures won == !old(shutdownStarted)
      ensures Snapshot() == OnShutdown(old(Snapshot()), reason)
    {
      if !shutdownStarted {
        shutdownStarted := true;
        Callback(Shutdown(reason));
        won := true;
      } else {
        won := false;
      }
    }

    method RequestDrain(reason: Reason) returns (won: bool)
      modifies this, gate
      ensures won == !old(drainStarted)
      ensures Snapshot() == OnDrain(old(Snapshot()), reason)
    {
      if !drainStarted {
        drainStarted := true;
        Callback(Act(Drain(reason)));
        won := true;
      } else {
        won := false;
      }
    }

    method RequestForce(reason: Reason) returns (won: bool)
      modifies this, gate
      ensures won == (old(drainStarted) && !old(forceStarted))
      ensures Snapshot() == OnForce(old(Snapshot()), reason)
    {
      if !drainStarted {
        return false;
      }
      if !forceStarted {
        forceStarted := true;
        Callback(Act(Force(reason)));
        won := true;
      } else {
        won := false;
      }
    }

    method ArmCtrlDWaiter(spawnOk: bool)
      modifies this, gate
      ensures Snapshot() == OnArm(old(Snapshot()), spawnOk)
    {
      if ctrlDArmed {
        return;
      }
      ctrlDArmed := true;
      log := log.(spawns := log.spawns + [spawnOk]);
      if spawnOk {
        waiters := waiters + [Reading];
      } else if mode.Legacy? {
        var _ := RequestLegacyShutdown(SigInt);
      }
    }

    method HandleSigint(spawnOk: bool)
      modifies this, gate
      ensures Snapshot() == OnSignal(old(Snapshot()), INT, spawnOk)
    {
      log := log.(received := log.received + [INT]);
      match mode {
        case Legacy =>
          if !interactive {
            var _ := RequestLegacyShutdown(SigInt);
            return;
          }
          ArmCtrlDWaiter(spawnOk);
        case TwoPhase =>
          var _ := RequestDrain(SigInt);
          if !interactive {
            return;
          }
          ArmCtrlDWaiter(spawnOk);
      }
    }

    method HandleSigterm(ghost spawnOk: bool)
      modifies this, gate
      ensures Snapshot() == OnSignal(old(Snapshot()), TERM, spawnOk)
    {
      log := log.(received := log.received + [TERM]);
      match mode {
        case Legacy => var _ := RequestLegacyShutdown(SigTerm);
        case TwoPhase => var _ := RequestDrain(SigTerm);
      }
    }

    /** The signal thread's loop over a finite stretch of its signal iterator. */
    method DispatchSignals(signals: seq<Signal>, spawnOk: bool)
      modifies this, gate
      ensures Snapshot() == OnSignals(old(Snapshot()), signals, spawnOk)
    {
      for i := 0 to |signals|
        invariant Snapshot() == OnSignals(old(Snapshot()), signals[..i], spawnOk)
      {
        assert signals[..i + 1][..i] == signals[..i];
        match signals[i] {
          case INT => HandleSigint(spawnOk);
          case TERM => HandleSigterm(spawnOk);
          case OtherSignal => log := log.(received := log.received + [OtherSignal]);
        }
      }
      assert signals[..|signals|] == signals;
    }

    method HandleCtrlD()
      modifies this, gate
      ensures Snapshot() == if mode.Legacy? then OnShutdown(old(Snapshot()), CtrlD) else OnForce(old(Snapshot()), CtrlD)
    {
      match mode {
        case Legacy => var _ := RequestLegacyShutdown(CtrlD);
        case TwoPhase => var _ := RequestForce(CtrlD);
      }
    }

    /** The body of the waiter thread, up to its end or to a read that blocks. */
    method WaitForCtrlD(w: nat)
      requires w < |waiters| && waiters[w].Reading?
      modifies this, gate
      ensures Snapshot() == OnStdin(old(Snapshot()), w)
    {
      while stdin != []
        invariant w < |waiters| && waiters[w].Reading?
        invariant OnStdin(Snapshot(), w) == OnStdin(old(Snapshot()), w)
        decreases |stdin|
      {
        var event := stdin[0];
        stdin := stdin[1..];
        match event {
          case Eof =>
            waiters := waiters[w := Finished];
            HandleCtrlD();
            return;
          case Got(byte) =>
            if byte == 0x04 {
              waiters := waiters[w := Finished];
              HandleCtrlD();
              return;
            }
          case Interrupted =>
          case ReadError =>
            waiters := waiters[w := Finished];
            if mode.Legacy? {
              var _ := RequestLegacyShutdown(SigInt);
            }
            return;
        }
      }
    }
  }

  // ----- Uninterrupted handlers are runs of the step system -----

  /** `k` steps of the one dispatcher. */
  function Ticks(s: State, spawnOk: bool, k: nat): State
    decreases k
  {
    if k == 0 then s else Ticks(Next(s, Dispatch(0, spawnOk)), spawnOk, k - 1)
  }

  function WaitTicks(s: State, w: nat, k: nat): State
    decreases k
  {
    if k == 0 then s else WaitTicks(Next(s, Wait(w)), w, k - 1)
  }

  lemma {:induction false} TicksAreRun(s: State, spawnOk: bool, k: nat)
    ensures Ticks(s, spawnOk, k) == Run(s, seq(k, _ => Dispatch(0, spawnOk)))
    decreases k
  {
    if k > 0 {
      TicksAreRun(Next(s, Dispatch(0, spawnOk)), spawnOk, k - 1);
      var first, rest := [Dispatch(0, spawnOk)], seq(k - 1, _ => Dispatch(0, spawnOk));
      assert first[..0] == [] && seq(k, _ => Dispatch(0, spawnOk)) == first + rest;
      RunConcat(s, first, rest);
      assert Run(s, first) == Next(Run(s, first[..0]), first[0]);
    }
  }

  lemma {:induction false} WaitTicksAreRun(s: State, w: nat, k: nat)
    ensures WaitTicks(s, w, k) == Run(s, seq(k, _ => Wait(w)))
    decreases k
  {
    if k > 0 {
      WaitTicksAreRun(Next(s, Wait(w)), w, k - 1);
      var first, rest := [Wait(w)], seq(k - 1, _ => Wait(w));
      assert first[..0] == [] && seq(k, _ => Wait(w)) == first + rest;
      RunConcat(s, first, rest);
      assert Run(s, first) == Next(Run(s, first[..0]), first[0]);
    }
  }

  lemma {:induction false} IdleTicks(s: State, spawnOk: bool, k: nat)
    requires s.dispatchers == [Idle]
    ensures Ticks(s, spawnOk, k) == s
  {
    if k > 0 {
      IdleTicks(s, spawnOk, k - 1);
    }
  }

  function Rest(s: State, pc: Dispatcher): State {
    s.(dispatchers := [pc])
  }

  lemma CallTicks(s: State, call: Call, arm: bool, spawnOk: bool, k: nat)
    requires s.dispatchers == [Calling(call, Claimed, arm)] && k >= 3
    ensures Ticks(s, spawnOk, k) == Ticks(Rest(Invoke(s, call), After(arm)), spawnOk, k - 3)
  {
    var s1 := Next(s, Dispatch(0, spawnOk));
    assert s1 == Rest(CallEffect(s, call, Claimed), Calling(call, Entered, arm));
    var s2 := Next(s1, Dispatch(0, spawnOk));
    assert s2 == Rest(CallEffect(s1, call, Entered), Calling(call, Applied, arm));
    var s3 := Next(s2, Dispatch(0, spawnOk));
    assert s3 == Rest(CallEffect(s2, call, Applied), After(arm));
    assert s3 == Rest(Invoke(s, call), After(arm));
    assert Ticks(s, spawnOk, k) == Ticks(s1, spawnOk, k - 1);
    assert Ticks(s1, spawnOk, k - 1) == Ticks(s2, spawnOk, k - 2);
  }

  lemma ShutdownTicks(s: State, reason: Reason, spawnOk: bool, k: nat)
    requires s.dispatchers == [ShutdownCas(reason)] && k >= 4
    ensures Ticks(s, spawnOk, k) == Rest(OnShutdown(s, reason), Idle)
  {
    var s1 := Next(s, Dispatch(0, spawnOk));
    if s.flags.shutdownStarted {
      assert s1 == Rest(s, Idle);
      IdleTicks(s1, spawnOk, k - 1);
    } else {
      CallTicks(s1, Shutdown(reason), false, spawnOk, k - 1);
      IdleTicks(Rest(Invoke(s1, Shutdown(reason)), Idle), spawnOk, k - 4);
    }
  }

  lemma ArmTicks(s: State, spawnOk: bool, k: nat)
    requires s.dispatchers == [ArmCas] && k >= 6
    ensures Ticks(s, spawnOk, k) == Rest(OnArm(s, spawnOk), Idle)
  {
    var s1 := Next(s, Dispatch(0, spawnOk));
    if s.flags.armed {
      assert s1 == Rest(s, Idle);
      IdleTicks(s1, spawnOk, k - 1);
    } else {
      var s2 := Next(s1, Dispatch(0, spawnOk));
      assert Ticks(s, spawnOk, k) == Ticks(s1, spawnOk, k - 1) == Ticks(s2, spawnOk, k - 2);
      if !spawnOk && s.mode.Legacy? {
        ShutdownTicks(s2, SigInt, spawnOk, k - 2);
      } else {
        IdleTicks(s2, spawnOk, k - 2);
      }
    }
  }

  /** What is left of `handle_sigint` once the drain request has returned. */
  function OnTail(s: State, arm: bool, spawnOk: bool): State {
    if arm then OnArm(s, spawnOk) else s
  }

  lemma TailIgnoresPc(s: State, pc: Dispatcher, arm: bool, spawnOk: bool)
    ensures Rest(OnTail(Rest(s, pc), arm, spawnOk), Idle) == Rest(OnTail(s, arm, spawnOk), Idle)
  {
  }

  lemma TailTicks(s: State, arm: bool, spawnOk: bool, k: nat)
    requires s.dispatchers == [After(arm)] && k >= 6
    ensures Ticks(s, spawnOk, k) == Rest(OnTail(s, arm, spawnOk), Idle)
  {
    if arm {
      ArmTicks(s, spawnOk, k);
    } else {
      IdleTicks(s, spawnOk, k);
    }
  }

  /** After the Drain request, whether it won or lost, the dispatcher is at `After(arm)`. */
  lemma DrainReachesTail(s: State, reason: Reason, arm: bool, spawnOk: bool, k: nat)
    requires s.dispatchers == [DrainCas(reason, arm)] && k >= 10
    ensures exists rest :: rest >= 6 && Ticks(s, spawnOk, k) == Ticks(Rest(OnDrain(s, reason), After(arm)), spawnOk, rest)
  {
    var s1 := Next(s, Dispatch(0, spawnOk));
    assert Ticks(s, spawnOk, k) == Ticks(s1, spawnOk, k - 1);
    if s.flags.drainStarted {
      assert s1 == Rest(s, After(arm));
      assert Ticks(s, spawnOk, k) == Ticks(Rest(OnDrain(s, reason), After(arm)), spawnOk, k - 1);
    } else {
      CallTicks(s1, Act(Drain(reason)), arm, spawnOk, k - 1);
      assert Ticks(s, spawnOk, k) == Ticks(Rest(OnDrain(s, reason), After(arm)), spawnOk, k - 4);
    }
  }

  lemma DrainTicks(s: State, reason: Reason, arm: bool, spawnOk: bool, k: nat)
    requires s.dispatchers == [DrainCas(reason, arm)] && k >= 10
    ensures Ticks(s, spawnOk, k) == Rest(OnTail(OnDrain(s, reason), arm, spawnOk), Idle)
  {
    DrainReachesTail(s, reason, arm, spawnOk, k);
    var rest :| rest >= 6 && Ticks(s, spawnOk, k) == Ticks(Rest(OnDrain(s, reason), After(arm)), spawnOk, rest);
    TailTicks(Rest(OnDrain(s, reason), After(arm)), arm, spawnOk, rest);
    TailIgnoresPc(OnDrain(s, reason), After(arm), arm, spawnOk);
  }

  function HandlerScript(signal: Signal, spawnOk: bool): seq<Label> {
    [Deliver(0, signal)] + seq(10, _ => Dispatch(0, spawnOk))
  }

  /** What is left to do at a program counter, once the signal is on record. */
  function OnPc(t: State, pc: Dispatcher, spawnOk: bool): State {
    match pc
    case DrainCas(reason, arm) => OnTail(OnDrain(t, reason), arm, spawnOk)
    case ShutdownCas(reason) => OnShutdown(t, reason)
    case ArmCas => OnArm(t, spawnOk)
    case _ => t
  }

  function OnBody(t: State, signal: Signal, spawnOk: bool): State {
    OnPc(t, Enter(t.mode, t.interactive, signal), spawnOk)
  }

  lemma ShutdownIgnoresPc(t: State, pc: Dispatcher, reason: Reason)
    ensures OnShutdown(Rest(t, pc), reason) == Rest(OnShutdown(t, reason), pc)
  {
  }

  lemma DrainIgnoresPc(t: State, pc: Dispatcher, reason: Reason)
    ensures OnDrain(Rest(t, pc), reason) == Rest(OnDrain(t, reason), pc)
  {
  }

  lemma KeepsIdle(t: State, reason: Reason, spawnOk: bool)
    requires t.dispatchers == [Idle]
    ensures OnShutdown(t, reason).dispatchers == OnDrain(t, reason).dispatchers == OnArm(t, spawnOk).dispatchers == [Idle]
  {
  }

  lemma DrainBody(t: State, reason: Reason, arm: bool, spawnOk: bool)
    requires t.dispatchers == [Idle]
    ensures var pc := DrainCas(reason, arm); Ticks(Rest(t, pc), spawnOk, 10) == OnPc(t, pc, spawnOk)
    ensures OnPc(t, DrainCas(reason, arm), spawnOk).dispatchers == [Idle]
  {
    var pc := DrainCas(reason, arm);
    DrainTicks(Rest(t, pc), reason, arm, spawnOk, 10);
    DrainIgnoresPc(t, pc, reason);
    KeepsIdle(t, reason, spawnOk);
    KeepsIdle(OnDrain(t, reason), reason, spawnOk);
    TailIgnoresPc(OnDrain(t, reason), pc, arm, spawnOk);
  }

  lemma ShutdownBody(t: State, reason: Reason, spawnOk: bool)
    requires t.dispatchers == [Idle]
    ensures Ticks(Rest(t, ShutdownCas(reason)), spawnOk, 10) == OnShutdown(t, reason)
  {
    ShutdownTicks(Rest(t, ShutdownCas(reason)), reason, spawnOk, 10);
    ShutdownIgnoresPc(t, ShutdownCas(reason), reason);
    KeepsIdle(t, reason, spawnOk);
  }

  lemma ArmBody(t: State, spawnOk: bool)
    requires t.dispatchers == [Idle]
    ensures Ticks(Rest(t, ArmCas), spawnOk, 10) == OnArm(t, spawnOk)
  {
    ArmTicks(Rest(t, ArmCas), spawnOk, 10);
    TailIgnoresPc(t, ArmCas, true, spawnOk);
    KeepsIdle(t, SigInt, spawnOk);
  }

  lemma BodyTicks(t: State, signal: Signal, spawnOk: bool)
    requires t.dispatchers == [Idle]
    ensures Ticks(Rest(t, Enter(t.mode, t.interactive, signal)), spawnOk, 10) == OnBody(t, signal, spawnOk)
    ensures OnBody(t, signal, spawnOk).dispatchers == [Idle]
  {
    match Enter(t.mode, t.interactive, signal) {
      case DrainCas(reason, arm) => DrainBody(t, reason, arm, spawnOk);
      case ShutdownCas(reason) =>
        ShutdownBody(t, reason, spawnOk);
        KeepsIdle(t, reason, spawnOk);
      case ArmCas =>
        ArmBody(t, spawnOk);
        KeepsIdle(t, SigInt, spawnOk);
      case Idle => IdleTicks(t, spawnOk, 10);
    }
  }

  lemma EnteredTicks(s: State, signal: Signal, spawnOk: bool)
    requires s.dispatchers == [Idle]
    ensures Ticks(Next(s, Deliver(0, signal)), spawnOk, 10) == OnSignal(s, signal, spawnOk)
    ensures OnSignal(s, signal, spawnOk).dispatchers == [Idle]
  {
    var t := s.(log := s.log.(received := s.log.received + [signal]));
    assert Next(s, Deliver(0, signal)) == Rest(t, Enter(s.mode, s.interactive, signal));
    BodyTicks(t, signal, spawnOk);
    assert OnBody(t, signal, spawnOk) == OnSignal(s, signal, spawnOk);
  }

  /** Handling one signal without interruption is a run of the step system. */
  lemma HandlerIsRun(s: State, signal: Signal, spawnOk: bool)
    requires s.dispatchers == [Idle]
    ensures OnSignal(s, signal, spawnOk) == Run(s, HandlerScript(signal, spawnOk))
    ensures OnSignal(s, signal, spawnOk).dispatchers == [Idle]
  {
    var first := [Deliver(0, signal)];
    assert first[..0] == [];
    assert Run(s, first) == Next(Run(s, first[..0]), first[0]);
    RunConcat(s, first, seq(10, _ => Dispatch(0, spawnOk)));
    TicksAreRun(Next(s, first[0]), spawnOk, 10);
    EnteredTicks(s, signal, spawnOk);
  }

  function DispatchScript(signals: seq<Signal>, spawnOk: bool): seq<Label>
    decreases |signals|
  {
    if signals == [] then []
    else DispatchScript(signals[..|signals| - 1], spawnOk) + HandlerScript(signals[|signals| - 1], spawnOk)
  }

  lemma {:induction false} DispatchLoopIsRun(s: State, signals: seq<Signal>, spawnOk: bool)
    requires s.dispatchers == [Idle]
    ensures OnSignals(s, signals, spawnOk) == Run(s, DispatchScript(signals, spawnOk))
    ensures OnSignals(s, signals, spawnOk).dispatchers == [Idle]
    decreases |signals|
  {
    if signals != [] {
      var earlier, last := signals[..|signals| - 1], signals[|signals| - 1];
      DispatchLoopIsRun(s, earlier, spawnOk);
      HandlerIsRun(OnSignals(s, earlier, spawnOk), last, spawnOk);
      RunConcat(s, DispatchScript(earlier, spawnOk), HandlerScript(last, spawnOk));
    }
  }

  lemma {:induction false} FinishedTicks(s: State, w: nat, k: nat)
    requires w < |s.waiters| && s.waiters[w].Finished?
    ensures WaitTicks(s, w, k) == s
  {
    if k > 0 {
      FinishedTicks(s, w, k - 1);
    }
  }

  lemma DeliveringTicks(s: State, w: nat, call: Call, k: nat)
    requires w < |s.waiters| && s.waiters[w] == Delivering(call, Claimed) && k >= 3
    ensures WaitTicks(s, w, k) == WaiterAt(Invoke(s, call), w, Finished)
  {
    var s1 := Next(s, Wait(w));
    assert s1 == WaiterAt(CallEffect(s, call, Claimed), w, Delivering(call, Entered));
    var s2 := Next(s1, Wait(w));
    assert s2 == WaiterAt(CallEffect(s1, call, Entered), w, Delivering(call, Applied));
    var s3 := Next(s2, Wait(w));
    assert s3 == WaiterAt(CallEffect(s2, call, Applied), w, Finished);
    assert s3 == WaiterAt(Invoke(s, call), w, Finished);
    assert WaitTicks(s, w, k) == WaitTicks(s1, w, k - 1) == WaitTicks(s2, w, k - 2);
    FinishedTicks(s3, w, k - 3);
  }

  lemma ClaimTicks(s: State, w: nat, k: nat)
    requires w < |s.waiters| && k >= 5
    requires s.waiters[w].ForceLoad? || s.waiters[w].WaiterShutdownCas?
    ensures WaitTicks(s, w, k)
            == var t := WaiterAt(s, w, Finished);
               if s.waiters[w].ForceLoad? then OnForce(t, CtrlD) else OnShutdown(t, s.waiters[w].reason)
  {
    var s1 := Next(s, Wait(w));
    match s.waiters[w] {
      case ForceLoad =>
        if !s.flags.drainStarted {
          FinishedTicks(s1, w, k - 1);
        } else {
          var s2 := Next(s1, Wait(w));
          assert WaitTicks(s, w, k) == WaitTicks(s1, w, k - 1) == WaitTicks(s2, w, k - 2);
          if s.flags.forceStarted {
            FinishedTicks(s2, w, k - 2);
          } else {
            DeliveringTicks(s2, w, Act(Force(CtrlD)), k - 2);
          }
        }
      case WaiterShutdownCas(reason) =>
        if s.flags.shutdownStarted {
          FinishedTicks(s1, w, k - 1);
        } else {
          DeliveringTicks(s1, w, Shutdown(reason), k - 1);
        }
    }
  }

  /** The waiter thread, left alone with its stdin, is a run of the step system. */
  lemma WaiterIsRun(s: State, w: nat)
    requires w < |s.waiters| && s.waiters[w].Reading?
    ensures OnStdin(s, w) == Run(s, seq(|s.stdin| + 5, _ => Wait(w)))
  {
    WaiterTicks(s, w);
    WaitTicksAreRun(s, w, |s.stdin| + 5);
  }

  lemma {:induction false} WaiterTicks(s: State, w: nat)
    requires w < |s.waiters| && s.waiters[w].Reading?
    ensures OnStdin(s, w) == WaitTicks(s, w, |s.stdin| + 5)
    decreases |s.stdin|
  {
    if s.stdin == [] {
      BlockedTicks(s, w, 5);
    } else {
      ReadStep(s, w);
      var pc := OnEvent(s.mode, s.stdin[0]);
      if pc.Reading? {
        WaiterTicks(s.(stdin := s.stdin[1..]), w);
      } else {
        DecidedTicks(s, w, pc, |s.stdin| + 4);
      }
    }
  }

  /** One read moves the waiter to where the event leads. */
  lemma ReadStep(s: State, w: nat)
    requires w < |s.waiters| && s.waiters[w].Reading? && s.stdin != []
    ensures var t := s.(stdin := s.stdin[1..]);
            var pc := OnEvent(s.mode, s.stdin[0]);
            && Next(s, Wait(w)) == WaiterAt(t, w, pc)
            && (pc.Reading? ==> WaiterAt(t, w, pc) == t)
  {
  }

  /** After the decisive event the waiter runs to its end. */
  lemma DecidedTicks(s: State, w: nat, pc: Waiter, k: nat)
    requires w < |s.waiters| && s.waiters[w].Reading? && s.stdin != [] && k >= 5
    requires pc == OnEvent(s.mode, s.stdin[0]) && !pc.Reading?
    ensures WaitTicks(WaiterAt(s.(stdin := s.stdin[1..]), w, pc), w, k) == OnStdin(s, w)
  {
    var t := s.(stdin := s.stdin[1..]);
    var u := WaiterAt(t, w, pc);
    assert WaiterAt(u, w, Finished) == WaiterAt(t, w, Finished);
    if pc.Finished? {
      FinishedTicks(u, w, k);
    } else {
      ClaimTicks(u, w, k);
    }
  }

  lemma {:induction false} BlockedTicks(s: State, w: nat, k: nat)
    requires w < |s.waiters| && s.waiters[w].Reading? && s.stdin == []
    ensures WaitTicks(s, w, k) == s
  {
    if k > 0 {
      BlockedTicks(s, w, k - 1);
    }
  }
}
