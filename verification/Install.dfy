/** The process-global installation slot of shutdown.rs, under any number of concurrent callers. */
module Install {
  datatype Status = Installed | Disabled | AlreadyInstalled | InstallFailed

  /** Program counter of one `install_handlers` call. */
  datatype Caller = Start | Installing | Releasing | Done(status: Status)

  datatype State = State(enabled: seq<bool>, callers: seq<Caller>, slot: bool)

  /** Caller `c` moves; `platformOk` is the result of the platform handler if that is what it awaits. */
  datatype Label = Label(c: nat, platformOk: bool)

  predicate WellFormed(s: State) {
    |s.callers| == |s.enabled|
  }

  function Init(enabled: seq<bool>): State {
    State(enabled, seq(|enabled|, _ => Start), false)
  }

  function Next(s: State, step: Label): (t: State)
    requires WellFormed(s)
    ensures WellFormed(t) && t.enabled == s.enabled
  {
    var c := step.c;
    if c >= |s.callers| then s
    else match s.callers[c]
      case Start =>
        if !s.enabled[c] then s.(callers := s.callers[c := Done(Disabled)])
        else if s.slot then s.(callers := s.callers[c := Done(AlreadyInstalled)])
        else s.(callers := s.callers[c := Installing], slot := true)
      case Installing =>
        s.(callers := s.callers[c := if step.platformOk then Done(Installed) else Releasing])
      case Releasing => s.(callers := s.callers[c := Done(InstallFailed)], slot := false)
      case Done(_) => s
  }

  function Run(s: State, labels: seq<Label>): (t: State)
    requires WellFormed(s)
    ensures WellFormed(t) && t.enabled == s.enabled
    decreases |labels|
  {
    if labels == [] then s
    else Next(Run(s, labels[..|labels| - 1]), labels[|labels| - 1])
  }

  /** In flight past the compare-exchange, or live. */
  predicate Owns(s: State, c: int) {
    && 0 <= c < |s.callers|
    && (s.callers[c].Installing? || s.callers[c].Releasing? || s.callers[c] == Done(Installed))
  }

  predicate IsInstalled(s: State, c: int) {
    0 <= c < |s.callers| && s.callers[c] == Done(Installed)
  }

  ghost predicate Inv(s: State) {
    && WellFormed(s)
    && (s.slot <==> exists c :: Owns(s, c))
    && (forall c, c' :: Owns(s, c) && Owns(s, c') ==> c == c')
    && (forall c :: 0 <= c < |s.callers| && !s.enabled[c] ==> s.callers[c].Start? || s.callers[c] == Done(Disabled))
  }

  lemma StepKeepsInv(s: State, step: Label)
    requires Inv(s)
    ensures Inv(Next(s, step))
  {
    var t, c := Next(s, step), step.c;
    forall i | i != c ensures Owns(t, i) <==> Owns(s, i) {
    }
    if Owns(s, c) {
      assert forall i :: Owns(s, i) ==> i == c;
      assert t.slot ==> Owns(t, c);
    } else if s.slot {
      var owner :| Owns(s, owner);
      assert Owns(t, owner) && !Owns(t, c);
    } else if Owns(t, c) {
      assert t.slot;
    }
  }

  lemma {:induction false} RunKeepsInv(enabled: seq<bool>, labels: seq<Label>)
    ensures Inv(Run(Init(enabled), labels))
    decreases |labels|
  {
    if labels != [] {
      RunKeepsInv(enabled, labels[..|labels| - 1]);
      StepKeepsInv(Run(Init(enabled), labels[..|labels| - 1]), labels[|labels| - 1]);
    }
  }

  /**
   In every concurrent history the slot is taken exactly while one call is in flight or live, and at
   most one call ever reports `Installed`. A call made with handlers disabled never owns the slot.
   */
  lemma AtMostOneInstalled(enabled: seq<bool>, labels: seq<Label>)
    ensures var s := Run(Init(enabled), labels);
            && (s.slot <==> exists c :: Owns(s, c))
            && (forall c, c' :: Owns(s, c) && Owns(s, c') ==> c == c')
            && (forall c, c' :: IsInstalled(s, c) && IsInstalled(s, c') ==> c == c')
            && (forall c :: Owns(s, c) ==> enabled[c])
  {
    RunKeepsInv(enabled, labels);
    var s := Run(Init(enabled), labels);
    forall c, c' | IsInstalled(s, c) && IsInstalled(s, c') ensures c == c' {
      assert Owns(s, c) && Owns(s, c');
    }
  }

  /** No platform call made on behalf of an enabled caller fails. */
  predicate PlatformNeverFails(enabled: seq<bool>, labels: seq<Label>) {
    forall i :: 0 <= i < |labels| && labels[i].c < |enabled| && enabled[labels[i].c] ==> labels[i].platformOk
  }

  /** Without failures an enabled call leaves `Start` only once the slot is owned for good. */
  predicate NoFailureInv(s: State)
    requires WellFormed(s)
  {
    forall c :: 0 <= c < |s.callers| ==>
      && !s.callers[c].Releasing?
      && s.callers[c] != Done(InstallFailed)
      && (s.enabled[c] && !s.callers[c].Start? ==> s.slot && s.callers[c] != Done(Disabled))
      && (!s.enabled[c] ==> !s.callers[c].Installing?)
  }

  lemma {:induction false} RunKeepsNoFailureInv(enabled: seq<bool>, labels: seq<Label>)
    requires PlatformNeverFails(enabled, labels)
    ensures NoFailureInv(Run(Init(enabled), labels))
    decreases |labels|
  {
    if labels != [] {
      RunKeepsNoFailureInv(enabled, labels[..|labels| - 1]);
      var s := Run(Init(enabled), labels[..|labels| - 1]);
      var step := labels[|labels| - 1];
      assert step.c < |enabled| && enabled[step.c] ==> step.platformOk;
      assert NoFailureInv(Next(s, step));
    }
  }

  ghost predicate AnyInstalled(s: State) {
    exists c :: IsInstalled(s, c)
  }

  predicate AnyEnabled(enabled: seq<bool>) {
    exists c :: 0 <= c < |enabled| && enabled[c]
  }

  /** When no platform call fails and every call has returned, exactly one of the enabled calls installed. */
  lemma ExactlyOneInstalls(enabled: seq<bool>, labels: seq<Label>)
    requires PlatformNeverFails(enabled, labels)
    requires forall c :: 0 <= c < |enabled| ==> Run(Init(enabled), labels).callers[c].Done?
    ensures var s := Run(Init(enabled), labels);
            && (AnyInstalled(s) <==> AnyEnabled(enabled))
            && (forall c :: 0 <= c < |enabled| ==>
                 s.callers[c].status == (if !enabled[c] then Disabled
                                         else if IsInstalled(s, c) then Installed
                                         else AlreadyInstalled))
  {
    RunKeepsInv(enabled, labels);
    RunKeepsNoFailureInv(enabled, labels);
    var s := Run(Init(enabled), labels);
    assert s.enabled == enabled;
    SomeEnabledInstalls(s);
    forall c | 0 <= c < |enabled|
      ensures s.callers[c].status == (if !enabled[c] then Disabled
                                      else if IsInstalled(s, c) then Installed
                                      else AlreadyInstalled)
    {
    }
  }

  lemma SomeEnabledInstalls(s: State)
    requires Inv(s) && NoFailureInv(s)
    requires forall c :: 0 <= c < |s.callers| ==> s.callers[c].Done?
    ensures AnyInstalled(s) <==> AnyEnabled(s.enabled)
  {
    if c :| 0 <= c < |s.enabled| && s.enabled[c] {
      assert s.callers[c].Done? && s.slot;
      var owner :| Owns(s, owner);
      assert s.callers[owner].Done? && IsInstalled(s, owner);
    }
    if c :| IsInstalled(s, c) {
      assert Owns(s, c) && s.enabled[c];
    }
  }

  function Of(c: nat, ok: bool): Label {
    Label(c, ok)
  }

  lemma RunOfFour(s: State, labels: seq<Label>)
    requires WellFormed(s) && |labels| == 4
    ensures Run(s, labels) == Next(Next(Next(Next(s, labels[0]), labels[1]), labels[2]), labels[3])
  {
    assert labels[..4] == labels && labels[..0] == [];
    forall i | 0 <= i < 4 ensures Run(s, labels[..i + 1]) == Next(Run(s, labels[..i]), labels[i]) {
      assert labels[..i + 1][..i] == labels[..i];
    }
    assert Run(s, labels[..2]) == Next(Next(s, labels[0]), labels[1]);
  }

  /** `AlreadyInstalled` says nothing about liveness: the call in flight may still fail, and free the slot. */
  lemma AlreadyInstalledMayMeanNobody()
    ensures var s := Run(Init([true, true]), [Of(0, false), Of(1, true), Of(0, false), Of(0, true)]);
            s.callers == [Done(InstallFailed), Done(AlreadyInstalled)] && !s.slot
  {
    var labels := [Of(0, false), Of(1, true), Of(0, false), Of(0, true)];
    RunOfFour(Init([true, true]), labels);
    var s2 := Next(Next(Init([true, true]), labels[0]), labels[1]);
    assert s2.callers == [Installing, Done(AlreadyInstalled)];
  }

  // ----- When AlreadyInstalled can be believed -----

  /** The history in which callers move in the order of `schedule`, and `ok[c]` is what the platform tells caller `c`. */
  function History(ok: seq<bool>, schedule: seq<nat>): (labels: seq<Label>)
    ensures |labels| == |schedule|
    ensures forall i :: 0 <= i < |labels| ==>
              labels[i] == Of(schedule[i], schedule[i] < |ok| && ok[schedule[i]])
  {
    seq(|schedule|, i requires 0 <= i < |schedule| => Of(schedule[i], schedule[i] < |ok| && ok[schedule[i]]))
  }

  predicate AllReturned(s: State) {
    forall c :: 0 <= c < |s.callers| ==> s.callers[c].Done?
  }

  predicate SomeoneToldSo(s: State) {
    exists c :: 0 <= c < |s.callers| && s.callers[c] == Done(AlreadyInstalled)
  }

  /** In every complete history, `AlreadyInstalled` is answered only if some call did install. */
  ghost predicate CanBeBelieved(enabled: seq<bool>, ok: seq<bool>) {
    forall schedule ::
      var s := Run(Init(enabled), History(ok, schedule));
      AllReturned(s) && SomeoneToldSo(s) ==> AnyInstalled(s)
  }

  predicate NoneFails(enabled: seq<bool>, ok: seq<bool>)
    requires |ok| == |enabled|
  {
    forall c :: 0 <= c < |enabled| && enabled[c] ==> ok[c]
  }

  predicate AtMostOneEnabled(enabled: seq<bool>) {
    forall c, d :: 0 <= c < |enabled| && 0 <= d < |enabled| && enabled[c] && enabled[d] ==> c == d
  }

  /**
   `AlreadyInstalled` implies a live handler in all histories exactly when no enabled call can fail on
   the platform, or there are no two enabled calls to get in each other's way.
   */
  lemma AlreadyInstalledIsBelievableIff(enabled: seq<bool>, ok: seq<bool>)
    requires |ok| == |enabled|
    ensures CanBeBelieved(enabled, ok) <==> NoneFails(enabled, ok) || AtMostOneEnabled(enabled)
  {
    if NoneFails(enabled, ok) || AtMostOneEnabled(enabled) {
      forall schedule | AllReturned(Run(Init(enabled), History(ok, schedule))) && SomeoneToldSo(Run(Init(enabled), History(ok, schedule)))
        ensures AnyInstalled(Run(Init(enabled), History(ok, schedule)))
      {
        Believed(enabled, ok, schedule);
      }
    } else {
      var f :| 0 <= f < |enabled| && enabled[f] && !ok[f];
      var c, d :| 0 <= c < |enabled| && 0 <= d < |enabled| && enabled[c] && enabled[d] && c != d;
      Deceived(enabled, ok, f, if c == f then d else c);
    }
  }

  lemma Believed(enabled: seq<bool>, ok: seq<bool>, schedule: seq<nat>)
    requires |ok| == |enabled| && (NoneFails(enabled, ok) || AtMostOneEnabled(enabled))
    requires var s := Run(Init(enabled), History(ok, schedule)); AllReturned(s) && SomeoneToldSo(s)
    ensures AnyInstalled(Run(Init(enabled), History(ok, schedule)))
  {
    var labels := History(ok, schedule);
    var s := Run(Init(enabled), labels);
    RunKeepsRivals(enabled, labels);
    assert s.enabled == enabled;
    var c :| 0 <= c < |s.callers| && s.callers[c] == Done(AlreadyInstalled);
    assert HasRival(s, c);
    assert NoneFails(enabled, ok);
    assert PlatformNeverFails(enabled, labels);
    ExactlyOneInstalls(enabled, labels);
  }

  /** Somebody else held the slot when `c` was turned away. */
  predicate HasRival(s: State, c: int)
    requires WellFormed(s) && 0 <= c < |s.callers|
  {
    s.enabled[c] && exists d :: 0 <= d < |s.enabled| && d != c && s.enabled[d]
  }

  predicate RivalInv(s: State)
    requires WellFormed(s)
  {
    forall c :: 0 <= c < |s.callers| && s.callers[c] == Done(AlreadyInstalled) ==> HasRival(s, c)
  }

  lemma StepKeepsRivals(s: State, step: Label)
    requires Inv(s) && RivalInv(s)
    ensures RivalInv(Next(s, step))
  {
    var t, c := Next(s, step), step.c;
    if c < |s.callers| && s.callers[c].Start? && s.enabled[c] && s.slot {
      var owner :| Owns(s, owner);
      assert s.enabled[owner] && owner != c;
    }
    forall i | 0 <= i < |t.callers| && t.callers[i] == Done(AlreadyInstalled) ensures HasRival(t, i) {
      assert i != c ==> HasRival(s, i);
    }
  }

  lemma {:induction false} RunKeepsRivals(enabled: seq<bool>, labels: seq<Label>)
    ensures RivalInv(Run(Init(enabled), labels))
    decreases |labels|
  {
    if labels != [] {
      RunKeepsInv(enabled, labels[..|labels| - 1]);
      RunKeepsRivals(enabled, labels[..|labels| - 1]);
      StepKeepsRivals(Run(Init(enabled), labels[..|labels| - 1]), labels[|labels| - 1]);
    }
  }

  /** `f` takes the slot, everyone moves once while it is in flight, and then it fails. */
  function DeceptiveSchedule(f: nat, n: nat): seq<nat> {
    EveryoneMoves(f, n) + [f]
  }

  function EveryoneMoves(f: nat, k: nat): seq<nat> {
    if k == 0 then [f] else EveryoneMoves(f, k - 1) + [k - 1]
  }

  /** The state once `f` is in flight and callers below `k` have moved. */
  function InFlight(enabled: seq<bool>, f: nat, k: nat): State {
    State(enabled,
          seq(|enabled|, c requires 0 <= c < |enabled| =>
            if c == f then (if k <= f then Installing else Releasing)
            else if c >= k then Start
            else if enabled[c] then Done(AlreadyInstalled)
            else Done(Disabled)),
          true)
  }

  lemma RunSnoc(s: State, labels: seq<Label>, step: Label)
    requires WellFormed(s)
    ensures Run(s, labels + [step]) == Next(Run(s, labels), step)
  {
    assert (labels + [step])[..|labels|] == labels;
  }

  lemma HistorySnoc(s: State, ok: seq<bool>, schedule: seq<nat>, c: nat)
    requires WellFormed(s)
    ensures Run(s, History(ok, schedule + [c])) == Next(Run(s, History(ok, schedule)), Of(c, c < |ok| && ok[c]))
  {
    assert History(ok, schedule + [c]) == History(ok, schedule) + [Of(c, c < |ok| && ok[c])];
    RunSnoc(s, History(ok, schedule), Of(c, c < |ok| && ok[c]));
  }

  lemma HistoryOne(s: State, ok: seq<bool>, c: nat)
    requires WellFormed(s)
    ensures Run(s, History(ok, [c])) == Next(s, Of(c, c < |ok| && ok[c]))
  {
    HistorySnoc(s, ok, [], c);
    assert [] + [c] == [c] && History(ok, []) == [];
  }

  lemma InFlightStart(enabled: seq<bool>, f: nat)
    requires f < |enabled| && enabled[f]
    ensures Next(Init(enabled), Of(f, false)) == InFlight(enabled, f, 0)
  {
    assert Next(Init(enabled), Of(f, false)).callers == InFlight(enabled, f, 0).callers;
  }

  lemma InFlightStep(enabled: seq<bool>, f: nat, k: nat, ok: bool)
    requires f < |enabled| && enabled[f] && k < |enabled| && (k == f ==> !ok)
    ensures Next(InFlight(enabled, f, k), Of(k, ok)) == InFlight(enabled, f, k + 1)
  {
    assert Next(InFlight(enabled, f, k), Of(k, ok)).callers == InFlight(enabled, f, k + 1).callers;
  }

  lemma {:induction false} RunInFlight(enabled: seq<bool>, ok: seq<bool>, f: nat, k: nat)
    requires |ok| == |enabled| && f < |enabled| && enabled[f] && !ok[f] && k <= |enabled|
    ensures Run(Init(enabled), History(ok, EveryoneMoves(f, k))) == InFlight(enabled, f, k)
    decreases k
  {
    if k == 0 {
      HistoryOne(Init(enabled), ok, f);
      InFlightStart(enabled, f);
    } else {
      RunInFlight(enabled, ok, f, k - 1);
      HistorySnoc(Init(enabled), ok, EveryoneMoves(f, k - 1), k - 1);
      InFlightStep(enabled, f, k - 1, ok[k - 1]);
    }
  }

  lemma Abandoned(enabled: seq<bool>, f: nat, other: nat)
    requires f < |enabled| && enabled[f] && other < |enabled| && other != f && enabled[other]
    ensures var s := Next(InFlight(enabled, f, |enabled|), Of(f, false));
            AllReturned(s) && SomeoneToldSo(s) && !AnyInstalled(s)
  {
    var s := Next(InFlight(enabled, f, |enabled|), Of(f, false));
    assert s.callers[other] == Done(AlreadyInstalled);
  }

  lemma Deceived(enabled: seq<bool>, ok: seq<bool>, f: nat, other: nat)
    requires |ok| == |enabled| && f < |enabled| && enabled[f] && !ok[f]
    requires other < |enabled| && other != f && enabled[other]
    ensures !CanBeBelieved(enabled, ok)
  {
    var n := |enabled|;
    RunInFlight(enabled, ok, f, n);
    HistorySnoc(Init(enabled), ok, EveryoneMoves(f, n), f);
    Abandoned(enabled, f, other);
    assert Run(Init(enabled), History(ok, DeceptiveSchedule(f, n))) == Next(InFlight(enabled, f, n), Of(f, false));
  }

  /** From any reachable state with the slot free, the next enabled caller can take it and install. */
  lemma FreedSlotIsReusable(enabled: seq<bool>, labels: seq<Label>, c: nat)
    requires c < |enabled| && enabled[c]
    requires var s := Run(Init(enabled), labels); !s.slot && s.callers[c].Start?
    ensures var s := Run(Init(enabled), labels);
            IsInstalled(Next(Next(s, Of(c, true)), Of(c, true)), c)
  {
  }

  /** The static flag of shutdown.rs and the function that guards it. */
  class InstallationSlot {
    var installed: bool

    constructor ()
      ensures !installed
    {
      installed := false;
    }

    /** `platformOk` is what `install_platform_handler` returns if it is reached. */
    method InstallHandlers(enabled: bool, platformOk: bool) returns (status: Status)
      modifies this
      ensures var s0 := State([enabled], [Start], old(installed));
              var s3 := Next(Next(Next(s0, Of(0, platformOk)), Of(0, platformOk)), Of(0, platformOk));
              s3.callers == [Done(status)] && s3.slot == installed
      ensures status.Installed? <==> enabled && !old(installed) && platformOk
      ensures installed == (old(installed) || status.Installed?)
    {
      if !enabled {
        return Disabled;
      }
      if installed {
        return AlreadyInstalled;
      }
      installed := true;
      if !platformOk {
        installed := false;
        return InstallFailed;
      }
      return Installed;
    }
  }
}
