/** The shutdown vocabulary of shutdown.rs and the lock-free phase gate of lifecycle.rs. */
module Lifecycle {
  import opened Prelude

  datatype Reason = SigInt | SigTerm | CtrlD

  /** The two-phase lifecycle event handed to the consumer's callback. */
  datatype Action = Drain(reason: Reason) | Force(reason: Reason)

  datatype Phase = Running | Draining | Forced

  const RUNNING: Byte := 0
  const DRAINING: Byte := 1
  const FORCED: Byte := 2

  /** Any byte other than the two live phases reads as forced. */
  function FromRawFailClosed(raw: Byte): (phase: Phase)
    ensures phase.Running? <==> raw == RUNNING
    ensures phase.Draining? <==> raw == DRAINING
  {
    if raw == RUNNING then Running
    else if raw == DRAINING then Draining
    else Forced
  }

  /** The byte an action's compare-exchange expects to find, and the byte it leaves behind. */
  function Expected(action: Action): Byte {
    if action.Drain? then RUNNING else DRAINING
  }

  function Target(action: Action): Byte {
    if action.Drain? then DRAINING else FORCED
  }

  predicate Admits(raw: Byte, action: Action) {
    raw == Expected(action)
  }

  /** The byte after one `try_apply`, whether or not it was admitted. */
  function AfterApply(raw: Byte, action: Action): (next: Byte)
    ensures raw <= next
  {
    if Admits(raw, action) then Target(action) else raw
  }

  /** The byte after any further requests, in order. */
  function AfterAll(raw: Byte, actions: seq<Action>): Byte
    decreases |actions|
  {
    if actions == [] then raw
    else AfterApply(AfterAll(raw, actions[..|actions| - 1]), actions[|actions| - 1])
  }

  /** Some request sequence gets an acceptance out of the byte. */
  ghost predicate CanAccept(raw: Byte) {
    exists actions, action :: Admits(AfterAll(raw, actions), action)
  }

  lemma {:induction false} ForcedStays(raw: Byte, actions: seq<Action>)
    requires raw >= FORCED
    ensures AfterAll(raw, actions) == raw
    decreases |actions|
  {
    if actions != [] {
      ForcedStays(raw, actions[..|actions| - 1]);
    }
  }

  /**
   Failing closed is exact: a byte, corrupted or not, reads as forced if and only if no sequence of
   requests can ever be accepted again; and then the byte never changes.
   */
  lemma ReadsForcedIffClosed(raw: Byte)
    ensures FromRawFailClosed(raw).Forced? <==> !CanAccept(raw)
    ensures FromRawFailClosed(raw).Forced? ==> forall actions :: AfterAll(raw, actions) == raw
  {
    if raw >= FORCED {
      forall actions ensures AfterAll(raw, actions) == raw {
        ForcedStays(raw, actions);
      }
    } else {
      var next := if raw == RUNNING then Drain(SigInt) else Force(CtrlD);
      assert Admits(AfterAll(raw, []), next);
    }
  }

  class ShutdownLifecycleGate {
    var phase: Byte

    constructor ()
      ensures phase == RUNNING
    {
      phase := RUNNING;
    }

    method CompareExchange(expected: Byte, target: Byte) returns (won: bool)
      modifies this
      ensures won == (old(phase) == expected)
      ensures phase == if won then target else old(phase)
    {
      won := phase == expected;
      if won {
        phase := target;
      }
    }

    method Phase() returns (observed: Phase)
      ensures observed == FromRawFailClosed(phase)
    {
      observed := FromRawFailClosed(phase);
    }

    method TryBeginDrain() returns (accepted: bool)
      modifies this
      ensures accepted == (old(phase) == RUNNING)
      ensures phase == if accepted then DRAINING else old(phase)
    {
      accepted := CompareExchange(RUNNING, DRAINING);
    }

    method TryForce() returns (accepted: bool)
      modifies this
      ensures accepted == (old(phase) == DRAINING)
      ensures phase == if accepted then FORCED else old(phase)
    {
      accepted := CompareExchange(DRAINING, FORCED);
    }

    method TryApply(action: Action) returns (accepted: bool)
      modifies this
      ensures accepted == Admits(old(phase), action)
      ensures phase == AfterApply(old(phase), action)
      ensures old(phase) <= phase
    {
      match action {
        case Drain(_) => accepted := TryBeginDrain();
        case Force(_) => accepted := TryForce();
      }
    }
  }
}
