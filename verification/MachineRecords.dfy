/** Which texts the machine-record emitters take, told by code points, and what becomes of them. */
module MachineRecords {
  import opened Prelude
  import Utf8
  import opened Framing

  /** Neither a line break, nor the escape character, nor a C1 control. */
  predicate IsCleanCode(n: int) {
    n != 10 && n != 13 && n != 27 && !(128 <= n <= 159)
  }

  predicate IsCleanRecord(json: string -> bool, value: string) {
    json(value) && forall i :: 0 <= i < |value| ==> IsCleanCode(value[i] as int)
  }

  lemma UncleanAt(json: string -> bool, value: string, i: nat)
    requires i < |value| && !IsCleanCode(value[i] as int)
    ensures ValidateMachineRecord(json, value).Some? && ValidateJsonRecord(json, value).Some?
  {
    var c := value[i];
    assert c in value;
    if c as int == 27 {
      assert c == ESC;
    } else if c as int == 10 {
      assert c == '\n';
    } else if c as int == 13 {
      assert c == '\r';
    } else {
      assert IsC1(value[i]);
    }
  }

  lemma CleanIsAccepted(json: string -> bool, value: string)
    requires IsCleanRecord(json, value)
    ensures ValidateMachineRecord(json, value).None? && ValidateJsonRecord(json, value).None?
  {
    assert ESC as int == 27 && '\n' as int == 10 && '\r' as int == 13;
  }

  /** Both emitters take exactly the JSON texts without line breaks, escapes and C1 controls. */
  lemma AcceptedIffClean(json: string -> bool, value: string)
    ensures MachineCheck(Primary, json)(value).None? <==> IsCleanRecord(json, value)
    ensures JsonCheck(json)(value).None? <==> IsCleanRecord(json, value)
  {
    if IsCleanRecord(json, value) {
      CleanIsAccepted(json, value);
    } else if i :| 0 <= i < |value| && !IsCleanCode(value[i] as int) {
      UncleanAt(json, value, i);
    }
  }

  /** Anything else is refused by both, with nothing written; and so is everything without the primary role. */
  lemma UncleanIsRefused(d: Device, json: string -> bool, value: string, flush: bool)
    ensures !IsCleanRecord(json, value) ==>
              IsRefused(d, Emit(d, MachineCheck(Primary, json)(value), value, flush))
              && IsRefused(d, Emit(d, JsonCheck(json)(value), value, flush))
    ensures Emit(d, MachineCheck(Diagnostics, json)(value), value, flush) == (d, Err(Rejected(WrongRole)))
  {
    AcceptedIffClean(json, value);
  }

  predicate IsRefused(d: Device, emitted: (Device, Outcome)) {
    emitted.0 == d && emitted.1.Err? && emitted.1.error.Rejected?
  }

  lemma {:induction false} AllAccepted(check: string -> Option<Rejection>, values: seq<string>)
    requires forall i :: 0 <= i < |values| ==> check(values[i]).None?
    ensures Accepted(check, values) == values
  {
    if values != [] {
      AllAccepted(check, values[1..]);
    }
  }

  predicate AllOk(rs: seq<Outcome>) {
    forall i :: 0 <= i < |rs| ==> rs[i].Ok?
  }

  lemma {:induction false} AllSucceed(check: string -> Option<Rejection>, values: seq<string>, rs: seq<Outcome>)
    requires Faithful(check, values, rs) && !CutShort(rs)
    requires forall i :: 0 <= i < |values| ==> check(values[i]).None?
    ensures |rs| == |values| && AllOk(rs)
  {
    if rs != [] {
      AllSucceed(check, values[1..], rs[1..]);
      forall i | 0 <= i < |rs| ensures rs[i].Ok? {
        assert i > 0 ==> rs[i] == rs[1..][i - 1];
      }
    }
  }

  /** Every value was emitted, and a reader gets them all back. */
  predicate ArrivesWhole(session: (Device, seq<Outcome>), values: seq<string>) {
    |session.1| == |values| && AllOk(session.1) && ReadRecords(session.0.bytes) == Some(values)
  }

  lemma AcceptedArrive(d: Device, check: string -> Option<Rejection>, values: seq<string>, flush: bool)
    requires forall v :: check(v).None? ==> '\n' !in v
    requires d.bytes == [] && IsPatient(d, flush)
    requires forall i :: 0 <= i < |values| ==> check(values[i]).None?
    ensures ArrivesWhole(Session(d, check, values, flush), values)
  {
    ChunkingDoesNotMatter(d, check, values, flush);
    AllAccepted(check, values);
    AllSucceed(check, values, Session(d, check, values, flush).1);
  }

  /** Through any patient device, either emitter delivers any list of clean records in full. */
  lemma CleanRecordsArrive(d: Device, json: string -> bool, values: seq<string>, flush: bool)
    requires d.bytes == [] && IsPatient(d, flush)
    requires forall i :: 0 <= i < |values| ==> IsCleanRecord(json, values[i])
    ensures ArrivesWhole(Session(d, MachineCheck(Primary, json), values, flush), values)
    ensures ArrivesWhole(Session(d, JsonCheck(json), values, flush), values)
  {
    forall v ensures MachineCheck(Primary, json)(v).None? ==> '\n' !in v {
    }
    forall v ensures JsonCheck(json)(v).None? ==> '\n' !in v {
    }
    forall i | 0 <= i < |values|
      ensures MachineCheck(Primary, json)(values[i]).None? && JsonCheck(json)(values[i]).None?
    {
      AcceptedIffClean(json, values[i]);
    }
    AcceptedArrive(d, MachineCheck(Primary, json), values, flush);
    AcceptedArrive(d, JsonCheck(json), values, flush);
  }

  // ----- Roles and flushing -----

  /** A line meant for the other role is refused with nothing written; one meant for this role is not refused. */
  lemma RoleDecides(d: Device, role: StreamRole, required: StreamRole, value: string, flush: bool)
    ensures IsRefused(d, Emit(d, RequireRole(role, required), value, flush)) <==> role != required
  {
  }

  /**
   A flush is asked for exactly under the flushing policy: with the line itself taken whole, a device that
   then fails is noticed under that policy and not otherwise.
   */
  lemma FlushIsAskedFor(d: Device, value: string, n: nat, kind: ErrorKind)
    requires value != [] && n >= |Utf8.Encode(value)|
    requires d.responses == [Accept(n), Accept(1), Refuse(kind)]
    ensures Emit(d, None, value, true) == (Device(d.bytes + Frame(value), []), Err(Io(kind)))
    ensures Emit(d, None, value, false) == (Device(d.bytes + Frame(value), [Refuse(kind)]), Ok(()))
  {
    var text := Utf8.Encode(value);
    var d1 := Device(d.bytes + text, [Accept(1), Refuse(kind)]);
    assert d.responses[1..] == d1.responses;
    assert AfterWriteAll(d, text) == (d1, None);
    assert d1.responses[1..] == [Refuse(kind)];
    assert AfterWriteAll(d1, [LF]) == (Device(d1.bytes + [LF], [Refuse(kind)]), None);
    assert d.bytes + text + [LF] == d.bytes + Frame(value);
  }
}
