/** When the threads of the shutdown protocol come to rest if no further signal arrives. */
module ShutdownRest {
  import opened Prelude
  import opened Lifecycle
  import opened Shutdown
  import ShutdownOrdering
  import ShutdownLegacy

  predicate WithoutSignals(run: seq<Label>) {
    forall i :: 0 <= i < |run| ==> !run[i].Deliver?
  }

  lemma RunCons(s: State, step: Label, rest: seq<Label>)
    ensures Run(s, [step] + rest) == Run(Next(s, step), rest)
  {
    RunConcat(s, [step], rest);
    assert [step][..0] == [];
    assert Run(s, [step]) == Next(Run(s, [step][..0]), step);
  }

  // ----- Every thread makes progress -----

  function StageRank(stage: Stage): nat {
    match stage
    case Claimed => 3
    case Entered => 2
    case Applied => 1
  }

  /** At least the number of steps before the dispatcher waits for a signal again. */
  function DispatcherRank(d: Dispatcher): nat {
    match d
    case Idle => 0
    case Calling(_, stage, arm) => StageRank(stage) + (if arm then 6 else 0)
    case ShutdownCas(_) => 4
    case Spawning => 5
    case ArmCas => 6
    case DrainCas(_, arm) => if arm then 10 else 4
  }

  function WaiterRank(w: Waiter, stdin: seq<StdinEvent>): nat {
    match w
    case Finished => 0
    case Delivering(_, stage) => StageRank(stage)
    case WaiterShutdownCas(_) => 4
    case ForceCas => 4
    case ForceLoad => 5
    case Reading => 6 + |stdin|
  }

  lemma DispatcherAdvances(s: State)
    requires |s.dispatchers| == 1 && !s.dispatchers[0].Idle?
    ensures var t := Next(s, Dispatch(0, false));
            && |t.dispatchers| == 1 && DispatcherRank(t.dispatchers[0]) < DispatcherRank(s.dispatchers[0])
            && t.waiters == s.waiters && t.stdin == s.stdin
  {
    match s.dispatchers[0] {
      case ShutdownCas(_) =>
      case DrainCas(_, _) =>
      case Calling(_, _, _) =>
      case ArmCas =>
      case Spawning =>
    }
  }

  /** The waiter is not stuck reading a stdin that never decides. */
  predicate WillDecide(s: State) {
    forall w :: 0 <= w < |s.waiters| && s.waiters[w].Reading? ==> !Decide(s.stdin).Undecided?
  }

  lemma WaiterAdvances(s: State)
    requires |s.waiters| == 1 && !s.waiters[0].Finished? && WillDecide(s)
    ensures var t := Next(s, Wait(0));
            && |t.waiters| == 1 && WaiterRank(t.waiters[0], t.stdin) < WaiterRank(s.waiters[0], s.stdin)
            && t.dispatchers == s.dispatchers && WillDecide(t)
  {
    match s.waiters[0] {
      case Reading => assert s.stdin != [];
      case WaiterShutdownCas(_) =>
      case ForceLoad =>
      case ForceCas =>
      case Delivering(_, _) =>
    }
  }

  /** Without a signal the dispatcher comes to rest, and nobody else moves. */
  predicate DispatcherRestsAfter(s: State, more: seq<Label>) {
    var t := Run(s, more);
    WithoutSignals(more) && t.dispatchers == [Idle] && t.waiters == s.waiters && t.stdin == s.stdin
  }

  predicate WaiterRestsAfter(s: State, more: seq<Label>) {
    var t := Run(s, more);
    WithoutSignals(more) && t.waiters == [Finished] && t.dispatchers == s.dispatchers
  }

  lemma {:induction false} DispatcherRests(s: State)
    requires |s.dispatchers| == 1
    ensures exists more :: DispatcherRestsAfter(s, more)
    decreases DispatcherRank(s.dispatchers[0])
  {
    if s.dispatchers[0].Idle? {
      assert DispatcherRestsAfter(s, []);
    } else {
      var t := Next(s, Dispatch(0, false));
      DispatcherAdvances(s);
      DispatcherRests(t);
      var rest :| DispatcherRestsAfter(t, rest);
      RunCons(s, Dispatch(0, false), rest);
      assert DispatcherRestsAfter(s, [Dispatch(0, false)] + rest);
    }
  }

  lemma {:induction false} WaiterRests(s: State)
    requires |s.waiters| == 1 && WillDecide(s)
    ensures exists more :: WaiterRestsAfter(s, more)
    decreases WaiterRank(s.waiters[0], s.stdin)
  {
    if s.waiters[0].Finished? {
      assert WaiterRestsAfter(s, []);
    } else {
      var t := Next(s, Wait(0));
      WaiterAdvances(s);
      WaiterRests(t);
      var rest :| WaiterRestsAfter(t, rest);
      RunCons(s, Wait(0), rest);
      assert WaiterRestsAfter(s, [Wait(0)] + rest);
    }
  }

  ghost predicate CanRest(s: State) {
    exists more :: WithoutSignals(more) && Quiescent(Run(s, more))
  }

  lemma SettlesDown(s: State)
    requires |s.dispatchers| == 1 && |s.waiters| <= 1 && WillDecide(s)
    ensures CanRest(s)
  {
    DispatcherRests(s);
    var more :| DispatcherRestsAfter(s, more);
    if s.waiters != [] {
      WaiterRests(Run(s, more));
      var rest :| WaiterRestsAfter(Run(s, more), rest);
      RunConcat(s, more, rest);
      assert WithoutSignals(more + rest);
    }
  }

  // ----- Reachable states -----

  lemma {:induction false} WaitersStay(s: State, run: seq<Label>)
    ensures |s.waiters| <= |Run(s, run).waiters|
    decreases |run|
  {
    if run != [] {
      WaitersStay(s, run[..|run| - 1]);
      match run[|run| - 1] {
        case Deliver(_, _) =>
        case Dispatch(_, _) =>
        case Wait(_) =>
        case External(_) =>
      }
    }
  }

  /** In both modes the waiter's position tells whether stdin decides. */
  lemma WaiterKnows(mode: Mode, interactive: bool, stdin: seq<StdinEvent>, run: seq<Label>)
    ensures var s := Run(Init(1, mode, interactive, stdin), run);
            && |s.dispatchers| == 1 && |s.waiters| <= 1
            && (s.waiters == [Reading] ==> Decide(s.stdin) == Decide(stdin))
            && (s.waiters == [Finished] ==> !Decide(stdin).Undecided?)
            && (s.waiters != [] && Decide(stdin).Undecided? ==> s.waiters == [Reading])
  {
    match mode {
      case TwoPhase =>
        ShutdownOrdering.InitInv(interactive, stdin);
        ShutdownOrdering.RunKeepsInv(Init(1, mode, interactive, stdin), run, stdin);
      case Legacy =>
        ShutdownLegacy.InitInv(interactive, stdin);
        ShutdownLegacy.RunKeepsInv(Init(1, mode, interactive, stdin), run, stdin);
    }
  }

  /**
   From every reachable state the threads can come to rest without a further signal exactly when there is
   no waiter, or stdin holds an event that decides it.
   */
  lemma RestIsReachableIff(mode: Mode, interactive: bool, stdin: seq<StdinEvent>, run: seq<Label>)
    ensures var s := Run(Init(1, mode, interactive, stdin), run);
            CanRest(s) <==> s.waiters == [] || !Decide(stdin).Undecided?
  {
    var s0 := Init(1, mode, interactive, stdin);
    var s := Run(s0, run);
    WaiterKnows(mode, interactive, stdin, run);
    if s.waiters == [] || !Decide(stdin).Undecided? {
      SettlesDown(s);
    } else {
      forall more | Quiescent(Run(s, more)) ensures false {
        RunConcat(s0, run, more);
        WaiterKnows(mode, interactive, stdin, run + more);
        WaitersStay(s, more);
      }
    }
  }
}
