/** The two emitters as they are written: each method is proved to be the emission `Framing` describes. */
module Emitters {
  import opened Prelude
  import opened Utf8
  import opened Framing

  /** What one `write` of a non-empty buffer to `d` may do, and leave as `d'`. */
  predicate IsWrite(d: Device, buf: seq<Byte>, d': Device, r: Result<nat, ErrorKind>) {
    && d'.responses == (if d.responses == [] then [] else d.responses[1..])
    && (r.Ok? ==> r.value <= |buf| && d'.bytes == d.bytes + buf[..r.value])
    && (r.Err? ==> d'.bytes == d.bytes)
    && r == (if d.responses == [] then Ok(|buf|)
             else match d.responses[0]
               case Accept(n) => Ok(if n < |buf| then n else |buf|)
               case Refuse(kind) => Err(kind))
  }

  /** The loop body of `write_all` takes the specification one step further. */
  lemma WriteStep(d: Device, buf: seq<Byte>, d': Device, r: Result<nat, ErrorKind>)
    requires buf != [] && IsWrite(d, buf, d', r)
    ensures match r {
              case Ok(n) =>
                if n == 0 then AfterWriteAll(d, buf) == (d', Some(WriteZero))
                else AfterWriteAll(d, buf) == AfterWriteAll(d', buf[n..])
              case Err(kind) =>
                if kind.Interrupted? then AfterWriteAll(d, buf) == AfterWriteAll(d', buf)
                else AfterWriteAll(d, buf) == (d', Some(kind))
            }
  {
    if r.Ok? {
      assert buf[..|buf|] == buf && buf[|buf|..] == [] && d.bytes + buf[..0] == d.bytes;
    }
  }

  class Sink {
    var bytes: seq<Byte>
    var responses: seq<Response>

    function State(): Device
      reads this
    {
      Device(bytes, responses)
    }

    constructor (responses: seq<Response>)
      ensures State() == Device([], responses)
    {
      bytes, this.responses := [], responses;
    }

    method Write(buf: seq<Byte>) returns (r: Result<nat, ErrorKind>)
      modifies this
      ensures IsWrite(old(State()), buf, State(), r)
    {
      if responses == [] {
        bytes := bytes + buf;
        return Ok(|buf|);
      }
      var response := responses[0];
      responses := responses[1..];
      match response {
        case Accept(n) =>
          var taken := if n < |buf| then n else |buf|;
          bytes := bytes + buf[..taken];
          r := Ok(taken);
        case Refuse(kind) =>
          r := Err(kind);
      }
    }

    method WriteAll(buf: seq<Byte>) returns (error: Option<ErrorKind>)
      modifies this
      ensures (State(), error) == AfterWriteAll(old(State()), buf)
    {
      var rest := buf;
      while rest != []
        invariant AfterWriteAll(State(), rest) == AfterWriteAll(old(State()), buf)
        decreases |rest| + |responses|
      {
        ghost var before := State();
        var r := Write(rest);
        WriteStep(before, rest, State(), r);
        match r {
          case Ok(n) =>
            if n == 0 {
              return Some(WriteZero);
            }
            rest := rest[n..];
          case Err(kind) =>
            if !kind.Interrupted? {
              return Some(kind);
            }
        }
      }
      error := None;
    }

    method Flush() returns (error: Option<ErrorKind>)
      modifies this
      ensures (State(), error) == AfterFlush(old(State()))
    {
      if responses == [] {
        return None;
      }
      var response := responses[0];
      responses := responses[1..];
      error := if response.Refuse? then Some(response.kind) else None;
    }
  }

  class ProtocolEmitter {
    const writer: Sink
    const role: StreamRole
    const flushPolicy: FlushPolicy

    constructor (writer: Sink, role: StreamRole, flushPolicy: FlushPolicy)
      ensures this.writer == writer && this.role == role && this.flushPolicy == flushPolicy
    {
      this.writer, this.role, this.flushPolicy := writer, role, flushPolicy;
    }

    method WriteLine(value: string) returns (r: Outcome)
      modifies writer
      ensures (writer.State(), r) == Emit(old(writer.State()), None, value, flushPolicy.EveryRecord?)
    {
      var error := writer.WriteAll(Encode(value));
      if error.Some? {
        return Err(Io(error.value));
      }
      error := writer.WriteAll([LF]);
      if error.Some? {
        return Err(Io(error.value));
      }
      if flushPolicy.EveryRecord? {
        error := writer.Flush();
        if error.Some? {
          return Err(Io(error.value));
        }
      }
      r := Ok(());
    }

    method EmitPrimaryHumanLine(value: string) returns (r: Outcome)
      modifies writer
      ensures (writer.State(), r) == Emit(old(writer.State()), RequireRole(role, Primary), value, flushPolicy.EveryRecord?)
    {
      if role != Primary {
        return Err(Rejected(WrongRole));
      }
      r := WriteLine(value);
    }

    method EmitPrimaryMachineRecord(json: string -> bool, value: string) returns (r: Outcome)
      modifies writer
      ensures (writer.State(), r) == Emit(old(writer.State()), CheckMachineRecord(role, json, value), value, flushPolicy.EveryRecord?)
    {
      if role != Primary {
        return Err(Rejected(WrongRole));
      }
      var fault := ValidateMachineRecord(json, value);
      if fault.Some? {
        return Err(Rejected(fault.value));
      }
      r := WriteLine(value);
    }

    method EmitDiagnosticLine(value: string) returns (r: Outcome)
      modifies writer
      ensures (writer.State(), r) == Emit(old(writer.State()), RequireRole(role, Diagnostics), value, flushPolicy.EveryRecord?)
    {
      if role != Diagnostics {
        return Err(Rejected(WrongRole));
      }
      r := WriteLine(value);
    }
  }

  class StreamEmitter {
    const writer: Sink
    const flushEachRecord: bool

    constructor (writer: Sink, flushEachRecord: bool)
      ensures this.writer == writer && this.flushEachRecord == flushEachRecord
    {
      this.writer, this.flushEachRecord := writer, flushEachRecord;
    }

    method WriteLine(value: string) returns (r: Outcome)
      modifies writer
      ensures (writer.State(), r) == Emit(old(writer.State()), None, value, flushEachRecord)
    {
      var error := writer.WriteAll(Encode(value));
      if error.Some? {
        return Err(Io(error.value));
      }
      error := writer.WriteAll([LF]);
      if error.Some? {
        return Err(Io(error.value));
      }
      if flushEachRecord {
        error := writer.Flush();
        if error.Some? {
          return Err(Io(error.value));
        }
      }
      r := Ok(());
    }

    method EmitLine(value: string) returns (r: Outcome)
      modifies writer
      ensures (writer.State(), r) == Emit(old(writer.State()), None, value, flushEachRecord)
    {
      r := WriteLine(value);
    }

    method EmitJsonLine(json: string -> bool, value: string) returns (r: Outcome)
      modifies writer
      ensures (writer.State(), r) == Emit(old(writer.State()), ValidateJsonRecord(json, value), value, flushEachRecord)
    {
      var fault := ValidateJsonRecord(json, value);
      if fault.Some? {
        return Err(Rejected(fault.value));
      }
      r := WriteLine(value);
    }
  }
}
