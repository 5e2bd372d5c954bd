/** The backward-compatible one-shot policy, in every interleaving of its dispatcher and waiter. */
module ShutdownLegacy {
  import opened Prelude
  import opened Lifecycle
  import opened Shutdown

  predicate WillArm(d: Dispatcher) {
    d.ArmCas? || d.Spawning?
  }

  /** A thread that holds the right to run the callback. */
  predicate Holds(d: Dispatcher, w: seq<Waiter>) {
    d.Calling? || (w != [] && w[0].Delivering?)
  }

  predicate Shape(s: State) {
    && |s.dispatchers| == 1
    && |s.waiters| <= 1
    && s.mode.Legacy?
    && !s.dispatchers[0].DrainCas?
    && !s.flags.drainStarted && !s.flags.forceStarted
    && (WillArm(s.dispatchers[0]) || s.flags.armed ==> s.interactive && INT in s.log.received)
    && (s.interactive && INT in s.log.received ==> s.flags.armed || WillArm(s.dispatchers[0]))
    && (if s.flags.armed && !s.dispatchers[0].Spawning?
        then |s.log.spawns| == 1 && |s.waiters| == (if s.log.spawns[0] then 1 else 0)
        else s.log.spawns == [] && s.waiters == [])
    && (s.dispatchers[0].Spawning? ==> s.flags.armed)
  }

  /** A waiter exists and has read the event that decided it. */
  predicate WaiterRead(s: State) {
    s.waiters != [] && !s.waiters[0].Reading?
  }

  /** Evidence that entitles some thread to claim the callback for `reason`. */
  predicate Justified(s: State, stdin: seq<StdinEvent>, reason: Reason) {
    match reason
    case SigTerm => TERM in s.log.received
    case CtrlD => WaiterRead(s) && Decide(stdin).Confirmed?
    case SigInt =>
      || (!s.interactive && INT in s.log.received)
      || s.log.spawns == [false]
      || (WaiterRead(s) && Decide(stdin).Failed?)
  }

  /** The evidence on which the callback is owed. */
  predicate Provoked(s: State, stdin: seq<StdinEvent>) {
    exists reason :: Justified(s, stdin, reason)
  }

  predicate DispatcherAgrees(s: State, stdin: seq<StdinEvent>)
    requires Shape(s)
  {
    match s.dispatchers[0]
    case ShutdownCas(reason) => !reason.CtrlD? && Justified(s, stdin, reason)
    case Calling(call, stage, arm) => call.Shutdown? && !arm && Justified(s, stdin, call.reason)
    case _ => true
  }

  predicate WaiterAgrees(s: State, stdin: seq<StdinEvent>)
    requires Shape(s)
  {
    if s.waiters == [] then s.stdin == stdin
    else match s.waiters[0]
      case Reading => Decide(s.stdin) == Decide(stdin)
      case WaiterShutdownCas(reason) => !Decide(stdin).Undecided? && Justified(s, stdin, reason)
      case Delivering(call, stage) => call.Shutdown? && !Decide(stdin).Undecided? && Justified(s, stdin, call.reason)
      case Finished => s.flags.shutdownStarted && !Decide(stdin).Undecided?
      case ForceLoad => false
      case ForceCas => false
  }

  function OnceMarks(reason: Reason): seq<Mark> {
    [Began(Shutdown(reason)), Returned(Shutdown(reason))]
  }

  /** The callback trace is that of the one holder, or of the holder that has finished. */
  predicate CallsAgree(s: State, stdin: seq<StdinEvent>)
    requires Shape(s)
  {
    var d := s.dispatchers[0];
    if !s.flags.shutdownStarted then s.log.calls == [] && !Holds(d, s.waiters)
    else if d.Calling? then
      && !(s.waiters != [] && s.waiters[0].Delivering?)
      && s.log.calls == (if d.stage.Claimed? then [] else [Began(d.call)])
    else if s.waiters != [] && s.waiters[0].Delivering? then
      s.log.calls == (if s.waiters[0].stage.Claimed? then [] else [Began(s.waiters[0].call)])
    else
      && |s.log.calls| == 2 && s.log.calls[0].call.Shutdown?
      && s.log.calls == OnceMarks(s.log.calls[0].call.reason)
      && Justified(s, stdin, s.log.calls[0].call.reason)
  }

  /** Evidence that no longer sits in front of a compare-exchange has claimed the callback. */
  predicate Claims(s: State)
    requires Shape(s)
  {
    var d := s.dispatchers[0];
    && (TERM in s.log.received ==> s.flags.shutdownStarted || d == ShutdownCas(SigTerm))
    && (!s.interactive && INT in s.log.received ==> s.flags.shutdownStarted || d == ShutdownCas(SigInt))
    && (s.log.spawns == [false] ==> s.flags.shutdownStarted || d == ShutdownCas(SigInt))
  }

  predicate Inv(s: State, stdin: seq<StdinEvent>) {
    Shape(s) && DispatcherAgrees(s, stdin) && WaiterAgrees(s, stdin) && CallsAgree(s, stdin) && Claims(s)
  }

  lemma DeliverKeepsInv(s: State, d: nat, signal: Signal, stdin: seq<StdinEvent>)
    requires Inv(s, stdin)
    ensures Inv(Next(s, Deliver(d, signal)), stdin)
  {
  }

  lemma CallingKeepsInv(s: State, spawnOk: bool, stdin: seq<StdinEvent>)
    requires Inv(s, stdin) && s.dispatchers[0].Calling?
    ensures Inv(DispatcherStep(s, 0, spawnOk), stdin)
  {
  }

  lemma ArmingKeepsInv(s: State, spawnOk: bool, stdin: seq<StdinEvent>)
    requires Inv(s, stdin) && WillArm(s.dispatchers[0])
    ensures Inv(DispatcherStep(s, 0, spawnOk), stdin)
  {
  }

  lemma DispatchKeepsInv(s: State, d: nat, spawnOk: bool, stdin: seq<StdinEvent>)
    requires Inv(s, stdin)
    ensures Inv(Next(s, Dispatch(d, spawnOk)), stdin)
  {
    if d == 0 {
      match s.dispatchers[0] {
        case Calling(_, _, _) => CallingKeepsInv(s, spawnOk, stdin);
        case ArmCas => ArmingKeepsInv(s, spawnOk, stdin);
        case Spawning => ArmingKeepsInv(s, spawnOk, stdin);
        case ShutdownCas(_) =>
        case Idle =>
      }
    }
  }

  lemma DeliveringKeepsInv(s: State, stdin: seq<StdinEvent>)
    requires Inv(s, stdin) && s.waiters != [] && s.waiters[0].Delivering?
    ensures Inv(WaiterStep(s, 0), stdin)
  {
  }

  lemma WaitKeepsInv(s: State, w: nat, stdin: seq<StdinEvent>)
    requires Inv(s, stdin)
    ensures Inv(Next(s, Wait(w)), stdin)
  {
    if w < |s.waiters| {
      match s.waiters[0] {
        case Delivering(_, _) => DeliveringKeepsInv(s, stdin);
        case Reading =>
        case WaiterShutdownCas(_) =>
        case Finished =>
      }
    }
  }

  lemma StepKeepsInv(s: State, step: Label, stdin: seq<StdinEvent>)
    requires Inv(s, stdin)
    ensures Inv(Next(s, step), stdin)
  {
    match step {
      case Deliver(d, signal) => DeliverKeepsInv(s, d, signal, stdin);
      case Dispatch(d, spawnOk) => DispatchKeepsInv(s, d, spawnOk, stdin);
      case Wait(w) => WaitKeepsInv(s, w, stdin);
      case External(request) =>
    }
  }

  lemma InitInv(interactive: bool, stdin: seq<StdinEvent>)
    ensures Inv(Init(1, Legacy, interactive, stdin), stdin)
  {
  }

  lemma {:induction false} RunKeepsInv(s: State, run: seq<Label>, stdin: seq<StdinEvent>)
    requires Inv(s, stdin)
    ensures Inv(Run(s, run), stdin)
    decreases |run|
  {
    if run != [] {
      RunKeepsInv(s, run[..|run| - 1], stdin);
      StepKeepsInv(Run(s, run[..|run| - 1]), run[|run| - 1], stdin);
    }
  }

  /** The callback runs at most once, and only for a reason the run's events bear out. */
  lemma CallbackRunsAtMostOnce(interactive: bool, stdin: seq<StdinEvent>, run: seq<Label>)
    ensures var s := Run(Init(1, Legacy, interactive, stdin), run);
            s.log.calls == [] || exists reason :: s.log.calls <= OnceMarks(reason) && Justified(s, stdin, reason)
  {
    InitInv(interactive, stdin);
    RunKeepsInv(Init(1, Legacy, interactive, stdin), run, stdin);
    var s := Run(Init(1, Legacy, interactive, stdin), run);
    if s.log.calls != [] {
      assert s.log.calls[0].call.Shutdown?;
      var reason := s.log.calls[0].call.reason;
      assert s.log.calls <= OnceMarks(reason) && Justified(s, stdin, reason);
    }
  }

  /**
   At rest the callback has run to completion exactly when something provoked it: a SIGTERM, a
   non-interactive SIGINT, a failed spawn, or a waiter that stdin brought to an end.
   */
  lemma CallbackRunsIffProvoked(interactive: bool, stdin: seq<StdinEvent>, run: seq<Label>)
    requires Quiescent(Run(Init(1, Legacy, interactive, stdin), run))
    ensures var s := Run(Init(1, Legacy, interactive, stdin), run);
            && (s.log.calls != [] <==> Provoked(s, stdin))
            && (s.log.calls != [] ==> exists reason :: s.log.calls == OnceMarks(reason))
  {
    InitInv(interactive, stdin);
    RunKeepsInv(Init(1, Legacy, interactive, stdin), run, stdin);
    var s := Run(Init(1, Legacy, interactive, stdin), run);
    assert s.dispatchers[0].Idle?;
    assert |s.waiters| == 1 ==> s.waiters[0].Finished?;
    if s.log.calls != [] {
      assert Justified(s, stdin, s.log.calls[0].call.reason);
      assert s.log.calls == OnceMarks(s.log.calls[0].call.reason);
    }
    if reason :| Justified(s, stdin, reason) {
      assert s.flags.shutdownStarted;
    }
  }

  /** Interactive SIGINTs alone, with the waiter still reading, never run the callback. */
  lemma InteractiveSigintOnlyWarns(stdin: seq<StdinEvent>, run: seq<Label>)
    requires var s := Run(Init(1, Legacy, true, stdin), run);
             && TERM !in s.log.received
             && false !in s.log.spawns
             && (forall w :: 0 <= w < |s.waiters| ==> s.waiters[w].Reading?)
    ensures Run(Init(1, Legacy, true, stdin), run).log.calls == []
    ensures !Run(Init(1, Legacy, true, stdin), run).flags.shutdownStarted
  {
    InitInv(true, stdin);
    RunKeepsMode(Init(1, Legacy, true, stdin), run);
    RunKeepsInv(Init(1, Legacy, true, stdin), run, stdin);
  }
}
