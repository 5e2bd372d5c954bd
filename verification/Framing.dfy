/**
 Machine-record framing: the emitters of protocol.rs and lib.rs over a writer that takes a record in
 whatever pieces it likes, and the reader that splits at LF and decodes.
 */
module Framing {
  import opened Prelude
  import opened Utf8

  datatype ErrorKind = InvalidInput | BrokenPipe | WriteZero | Interrupted | OtherKind

  /** How the operating system answers one `write` or `flush`. */
  datatype Response = Accept(n: nat) | Refuse(kind: ErrorKind)

  /** What has been written, and the answers still to come; after the last one everything is accepted. */
  datatype Device = Device(bytes: seq<Byte>, responses: seq<Response>)

  datatype Rejection = WrongRole | AnsiEscape | C1Control | LineBreak | NotJson

  datatype EmitError = Rejected(cause: Rejection) | Io(kind: ErrorKind)

  type Outcome = Result<(), EmitError>

  datatype EmitDisposition = Written | ConsumerClosed

  datatype StreamRole = Primary | Diagnostics

  datatype FlushPolicy = EveryRecord | OnDemand

  const LF: Byte := 0x0A

  // ----- Writing, as a function of the device -----

  function Failing(d: Device, kind: ErrorKind): (Device, Option<ErrorKind>)
    requires d.responses != []
  {
    (Device(d.bytes, d.responses[1..]), Some(kind))
  }

  /** `Write::write_all`: retry when interrupted, go on after a partial write, give up on zero bytes. */
  function AfterWriteAll(d: Device, buf: seq<Byte>): (Device, Option<ErrorKind>)
    decreases |d.responses|
  {
    if buf == [] then (d, None)
    else if d.responses == [] then (Device(d.bytes + buf, []), None)
    else
      match d.responses[0]
      case Refuse(kind) =>
        if kind.Interrupted? then AfterWriteAll(Device(d.bytes, d.responses[1..]), buf) else Failing(d, kind)
      case Accept(n) =>
        if n == 0 then Failing(d, WriteZero)
        else if n >= |buf| then (Device(d.bytes + buf, d.responses[1..]), None)
        else AfterWriteAll(Device(d.bytes + buf[..n], d.responses[1..]), buf[n..])
  }

  /** `Write::flush` is not retried. */
  function AfterFlush(d: Device): (Device, Option<ErrorKind>) {
    if d.responses == [] then (d, None)
    else if d.responses[0].Refuse? then Failing(d, d.responses[0].kind)
    else (Device(d.bytes, d.responses[1..]), None)
  }

  function AfterLine(d: Device, value: string, flush: bool): (Device, Option<ErrorKind>) {
    var (d1, e1) := AfterWriteAll(d, Encode(value));
    if e1.Some? then (d1, e1)
    else
      var (d2, e2) := AfterWriteAll(d1, [LF]);
      if e2.Some? || !flush then (d2, e2) else AfterFlush(d2)
  }

  /** One emission: refused before anything is written, or one line. */
  function Emit(d: Device, check: Option<Rejection>, value: string, flush: bool): (Device, Outcome) {
    match check
    case Some(cause) => (d, Err(Rejected(cause)))
    case None =>
      var (d', error) := AfterLine(d, value, flush);
      (d', if error.Some? then Err(Io(error.value)) else Ok(()))
  }

  // ----- What may be emitted -----

  predicate IsC1(c: char) {
    0x80 <= c as int <= 0x9F
  }

  predicate HasC1(value: string) {
    exists i :: 0 <= i < |value| && IsC1(value[i])
  }

  predicate HasLineBreak(value: string) {
    '\n' in value || '\r' in value
  }

  const ESC: char := '\U{1B}'

  /** protocol.rs; `json` says whether a text is one JSON value. */
  function ValidateMachineRecord(json: string -> bool, value: string): Option<Rejection> {
    if ESC in value then Some(AnsiEscape)
    else if HasC1(value) then Some(C1Control)
    else if HasLineBreak(value) then Some(LineBreak)
    else if !json(value) then Some(NotJson)
    else None
  }

  /** lib.rs, written independently. */
  function ValidateJsonRecord(json: string -> bool, value: string): Option<Rejection> {
    if ESC in value then Some(AnsiEscape)
    else if HasLineBreak(value) then Some(LineBreak)
    else if HasC1(value) then Some(C1Control)
    else if !json(value) then Some(NotJson)
    else None
  }

  /** Both emitters accept the same texts, and disagree on the reason only for a C1 control beside a line break. */
  lemma ValidatorsAgree(json: string -> bool, value: string)
    ensures ValidateMachineRecord(json, value).None? <==> ValidateJsonRecord(json, value).None?
    ensures ValidateMachineRecord(json, value) == ValidateJsonRecord(json, value)
            <==> ESC in value || !HasC1(value) || !HasLineBreak(value)
    ensures ValidateMachineRecord(json, value).None? ==>
              json(value) && forall c :: c in value ==> c != '\n' && c != '\r' && c != ESC && !IsC1(c)
  {
    forall c | c in value && IsC1(c) ensures HasC1(value) {
      var i :| 0 <= i < |value| && value[i] == c;
      assert IsC1(value[i]);
    }
  }

  function RequireRole(role: StreamRole, required: StreamRole): Option<Rejection> {
    if role == required then None else Some(WrongRole)
  }

  function CheckMachineRecord(role: StreamRole, json: string -> bool, value: string): Option<Rejection> {
    if RequireRole(role, Primary).Some? then RequireRole(role, Primary) else ValidateMachineRecord(json, value)
  }

  function KindOf(error: EmitError): ErrorKind {
    match error
    case Rejected(_) => InvalidInput
    case Io(kind) => kind
  }

  function TopLevelIo(r: Outcome): Result<EmitDisposition, EmitError> {
    match r
    case Ok(_) => Ok(Written)
    case Err(error) => if KindOf(error).BrokenPipe? then Ok(ConsumerClosed) else Err(error)
  }

  // ----- What one emission leaves behind -----

  function Frame(value: string): seq<Byte> {
    Encode(value) + [LF]
  }

  /** The device answered with this failure. */
  predicate Answers(d: Device, kind: ErrorKind) {
    Refuse(kind) in d.responses || (kind == WriteZero && Accept(0) in d.responses)
  }

  /** What `more` has yet to answer, `d` had yet to answer. */
  predicate ComesFrom(more: Device, d: Device) {
    forall response :: response in more.responses ==> response in d.responses
  }

  /** `write_all` put the first `k` bytes on the device: all of them exactly when it succeeds. */
  predicate WriteEndsAt(d: Device, buf: seq<Byte>, k: nat) {
    var (d', error) := AfterWriteAll(d, buf);
    && ComesFrom(d', d)
    && k <= |buf| && d'.bytes == d.bytes + buf[..k]
    && (error.None? <==> k == |buf|)
    && (error.Some? ==> Answers(d, error.value) && !error.value.Interrupted?)
  }

  lemma {:induction false} WriteAllOutcome(d: Device, buf: seq<Byte>)
    ensures exists k: nat :: WriteEndsAt(d, buf, k)
    decreases |d.responses|
  {
    assert buf[..|buf|] == buf && d.bytes + buf[..0] == d.bytes;
    if buf == [] || d.responses == [] {
      assert WriteEndsAt(d, buf, |buf|);
    } else {
      var rest := d.responses[1..];
      match d.responses[0] {
        case Refuse(kind) =>
          if kind.Interrupted? {
            WriteAllOutcome(Device(d.bytes, rest), buf);
            var k: nat :| WriteEndsAt(Device(d.bytes, rest), buf, k);
            assert WriteEndsAt(d, buf, k);
          } else {
            assert WriteEndsAt(d, buf, 0);
          }
        case Accept(n) =>
          if n == 0 {
            assert WriteEndsAt(d, buf, 0);
          } else if n >= |buf| {
            assert WriteEndsAt(d, buf, |buf|);
          } else {
            WriteAllOutcome(Device(d.bytes + buf[..n], rest), buf[n..]);
            var k: nat :| WriteEndsAt(Device(d.bytes + buf[..n], rest), buf[n..], k);
            PartialWriteOutcome(d, buf, n, k);
          }
      }
    }
  }

  lemma PartialWriteOutcome(d: Device, buf: seq<Byte>, n: nat, k: nat)
    requires d.responses != [] && d.responses[0] == Accept(n) && 0 < n < |buf|
    requires WriteEndsAt(Device(d.bytes + buf[..n], d.responses[1..]), buf[n..], k)
    ensures WriteEndsAt(d, buf, n + k)
  {
    assert buf[..n] + buf[n..][..k] == buf[..n + k];
    assert d.bytes + buf[..n] + buf[n..][..k] == d.bytes + buf[..n + k];
  }

  /** The first `k` bytes, or all of them if there are fewer. */
  function Upto(bytes: seq<Byte>, k: nat): seq<Byte> {
    if k < |bytes| then bytes[..k] else bytes
  }

  /**
   A successful line is a whole frame. A failed one is a prefix of it, whole only if it was the flush
   that failed, and the failure is one the device answered with.
   */
  predicate LineEndsAt(d: Device, value: string, flush: bool, k: nat) {
    var (d', error) := AfterLine(d, value, flush);
    && ComesFrom(d', d)
    && d'.bytes == d.bytes + Upto(Frame(value), k)
    && (error.None? ==> k == |Frame(value)|)
    && (error.Some? ==> Answers(d, error.value) && (flush || (k < |Frame(value)| && !error.value.Interrupted?)))
  }

  lemma LineOutcome(d: Device, value: string, flush: bool)
    ensures exists k: nat :: LineEndsAt(d, value, flush, k)
  {
    var text := Encode(value);
    var (d1, e1) := AfterWriteAll(d, text);
    WriteAllOutcome(d, text);
    var k: nat :| WriteEndsAt(d, text, k);
    assert Upto(Frame(value), k) == text[..k];
    if e1.Some? {
      assert LineEndsAt(d, value, flush, k);
    } else {
      WriteAllOutcome(d1, [LF]);
      var last: nat :| WriteEndsAt(d1, [LF], last);
      TerminatedLine(d, value, flush, last);
    }
  }

  lemma TerminatedLine(d: Device, value: string, flush: bool, last: nat)
    requires WriteEndsAt(d, Encode(value), |Encode(value)|)
    requires WriteEndsAt(AfterWriteAll(d, Encode(value)).0, [LF], last)
    ensures LineEndsAt(d, value, flush, |Encode(value)| + last)
  {
    var text := Encode(value);
    var (d1, e1) := AfterWriteAll(d, text);
    var (d2, e2) := AfterWriteAll(d1, [LF]);
    assert text[..|text|] == text;
    assert d.bytes + text + [LF][..last] == d.bytes + Upto(Frame(value), |text| + last);
    if e2.None? {
      FlushOutcome(d2);
    }
  }

  lemma FlushOutcome(d: Device)
    ensures var (d', error) := AfterFlush(d);
            && ComesFrom(d', d) && d'.bytes == d.bytes
            && (error.Some? ==> Answers(d, error.value))
  {
  }

  // ----- Whole sessions -----

  /** Emit values one after another, stopping at the first I/O failure; refusals do not stop it. */
  function Session(d: Device, check: string -> Option<Rejection>, values: seq<string>, flush: bool): (Device, seq<Outcome>)
    decreases |values|
  {
    if values == [] then (d, [])
    else
      var (d1, r) := Emit(d, check(values[0]), values[0], flush);
      if r.Err? && r.error.Io? then (d1, [r])
      else
        var (d2, rs) := Session(d1, check, values[1..], flush);
        (d2, [r] + rs)
  }

  /** The bytes a session with these outcomes has added, `k` bytes of the line that failed among them. */
  function Sent(values: seq<string>, rs: seq<Outcome>, k: nat): seq<Byte>
    requires |rs| <= |values|
  {
    if rs == [] then []
    else
      match rs[0]
      case Ok(_) => Frame(values[0]) + Sent(values[1..], rs[1..], k)
      case Err(Rejected(_)) => Sent(values[1..], rs[1..], k)
      case Err(Io(_)) => Upto(Frame(values[0]), k)
  }

  /** The records in them: those emitted successfully, and one whose failure came after its last byte. */
  function Delivered(values: seq<string>, rs: seq<Outcome>, k: nat): seq<string>
    requires |rs| <= |values|
  {
    if rs == [] then []
    else
      match rs[0]
      case Ok(_) => [values[0]] + Delivered(values[1..], rs[1..], k)
      case Err(Rejected(_)) => Delivered(values[1..], rs[1..], k)
      case Err(Io(_)) => if k < |Frame(values[0])| then [] else [values[0]]
  }

  function Accepted(check: string -> Option<Rejection>, values: seq<string>): seq<string> {
    if values == [] then []
    else if check(values[0]).None? then [values[0]] + Accepted(check, values[1..])
    else Accepted(check, values[1..])
  }

  /** The reader: every piece that LF ends, decoded; what follows the last LF is not a record yet. */
  function ReadRecords(bytes: seq<Byte>): Option<seq<string>>
    decreases |bytes|
  {
    if LF !in bytes then Some([])
    else
      var n := LineEnd(bytes);
      match Decode(bytes[..n])
      case None => None
      case Some(value) =>
        match ReadRecords(bytes[n + 1..])
        case None => None
        case Some(rest) => Some([value] + rest)
  }

  function LineEnd(bytes: seq<Byte>): (n: nat)
    requires LF in bytes
    ensures n < |bytes| && bytes[n] == LF
    ensures forall i :: 0 <= i < n ==> bytes[i] != LF
  {
    if bytes[0] == LF then 0 else 1 + LineEnd(bytes[1..])
  }

  /** Records read after `values`. */
  function After(values: seq<string>, read: Option<seq<string>>): Option<seq<string>> {
    match read
    case Some(rest) => Some(values + rest)
    case None => None
  }

  lemma ReadFrame(value: string, rest: seq<Byte>)
    requires '\n' !in value
    ensures ReadRecords(Frame(value) + rest)
            == After([value], ReadRecords(rest))
  {
    var bytes := Frame(value) + rest;
    var n := |Encode(value)|;
    AsciiByteIsItsCharacter(value, LF);
    assert bytes[n] == LF;
    assert forall i :: 0 <= i < n ==> bytes[i] == Encode(value)[i] != LF;
    assert LineEnd(bytes) == n;
    assert bytes[..n] == Encode(value) && bytes[n + 1..] == rest;
    DecodeEncode(value);
  }

  lemma ReadPrefix(value: string, k: nat)
    requires '\n' !in value
    ensures ReadRecords(Upto(Frame(value), k)) == Some(if k < |Frame(value)| then [] else [value])
  {
    AsciiByteIsItsCharacter(value, LF);
    if k < |Frame(value)| {
      assert forall i :: 0 <= i < k ==> Upto(Frame(value), k)[i] == Encode(value)[i];
      assert LF !in Upto(Frame(value), k);
    } else {
      ReadFrame(value, []);
      assert Frame(value) + [] == Frame(value) && [value] + [] == [value];
      assert ReadRecords([]) == Some([]);
    }
  }

  /** What a session sent reads back as exactly what it delivered. */
  lemma {:induction false} SentReadsAsDelivered(check: string -> Option<Rejection>, values: seq<string>, rs: seq<Outcome>, k: nat)
    requires forall v :: check(v).None? ==> '\n' !in v
    requires Faithful(check, values, rs)
    ensures ReadRecords(Sent(values, rs, k)) == Some(Delivered(values, rs, k))
  {
    if rs != [] {
      match rs[0] {
        case Ok(_) =>
          SentReadsAsDelivered(check, values[1..], rs[1..], k);
          ReadFrame(values[0], Sent(values[1..], rs[1..], k));
        case Err(Rejected(_)) =>
          SentReadsAsDelivered(check, values[1..], rs[1..], k);
        case Err(Io(_)) =>
          ReadPrefix(values[0], k);
      }
    }
  }

  predicate IsIo(r: Outcome) {
    r.Err? && r.error.Io?
  }

  predicate CutShort(rs: seq<Outcome>) {
    rs != [] && IsIo(rs[|rs| - 1])
  }

  /** Every value is refused exactly for its own fault, and only an I/O failure keeps later values from being tried. */
  predicate Faithful(check: string -> Option<Rejection>, values: seq<string>, rs: seq<Outcome>): (faithful: bool)
    ensures faithful ==> |rs| <= |values| && (|rs| < |values| ==> CutShort(rs))
  {
    if rs == [] then values == []
    else
      && values != []
      && match check(values[0])
         case Some(cause) => rs[0] == Err(Rejected(cause)) && Faithful(check, values[1..], rs[1..])
         case None => if IsIo(rs[0]) then |rs| == 1 else rs[0].Ok? && Faithful(check, values[1..], rs[1..])
  }

  /** A refusal writes nothing; otherwise as for a line. */
  predicate EmitEndsAt(d: Device, check: Option<Rejection>, value: string, flush: bool, k: nat) {
    var (d', r) := Emit(d, check, value, flush);
    && ComesFrom(d', d)
    && match r {
         case Ok(_) => check.None? && d'.bytes == d.bytes + Frame(value)
         case Err(Rejected(cause)) => check == Some(cause) && d' == d
         case Err(Io(kind)) =>
           && check.None? && Answers(d, kind)
           && d'.bytes == d.bytes + Upto(Frame(value), k)
           && (flush || (k < |Frame(value)| && !kind.Interrupted?))
       }
  }

  lemma EmitOutcome(d: Device, check: Option<Rejection>, value: string, flush: bool)
    ensures exists k: nat :: EmitEndsAt(d, check, value, flush, k)
  {
    LineOutcome(d, value, flush);
    var k: nat :| LineEndsAt(d, value, flush, k);
    assert EmitEndsAt(d, check, value, flush, k);
  }

  /** Bytes and outcomes of a session on `d` that ended with `k` bytes of the line that failed, if one did. */
  predicate Ends(d: Device, check: string -> Option<Rejection>, values: seq<string>, flush: bool,
                 bytes: seq<Byte>, rs: seq<Outcome>, k: nat)
  {
    && Faithful(check, values, rs)
    && bytes == d.bytes + Sent(values, rs, k)
    && (CutShort(rs) ==> CutBy(d, values, rs, flush, k))
  }

  predicate SessionEndsAt(d: Device, check: string -> Option<Rejection>, values: seq<string>, flush: bool, k: nat) {
    var (d', rs) := Session(d, check, values, flush);
    Ends(d, check, values, flush, d'.bytes, rs, k)
  }

  /** The failure that ended the session is the device's; without flushing it came before the frame was whole. */
  predicate CutBy(d: Device, values: seq<string>, rs: seq<Outcome>, flush: bool, k: nat)
    requires |rs| <= |values| && CutShort(rs)
  {
    var kind := rs[|rs| - 1].error.kind;
    Answers(d, kind) && (flush || (k < |Frame(values[|rs| - 1])| && !kind.Interrupted?))
  }

  lemma SentCons(before: seq<Byte>, values: seq<string>, r: Outcome, rs: seq<Outcome>, k: nat)
    requires values != [] && |rs| < |values| && !IsIo(r)
    ensures before + Sent(values, [r] + rs, k)
            == before + (if r.Ok? then Frame(values[0]) else []) + Sent(values[1..], rs, k)
  {
    assert ([r] + rs)[1..] == rs;
  }

  lemma EndsCons(d: Device, d1: Device, check: string -> Option<Rejection>, values: seq<string>, flush: bool,
                 bytes: seq<Byte>, r: Outcome, rs: seq<Outcome>, k: nat)
    requires values != [] && ComesFrom(d1, d)
    requires d1.bytes == d.bytes + (if r.Ok? then Frame(values[0]) else [])
    requires match check(values[0]) { case Some(cause) => r == Err(Rejected(cause)) case None => r.Ok? }
    requires Ends(d1, check, values[1..], flush, bytes, rs, k)
    ensures Ends(d, check, values, flush, bytes, [r] + rs, k)
  {
    assert ([r] + rs)[1..] == rs;
    SentCons(d.bytes, values, r, rs, k);
  }

  /**
   A session through any device: the outcomes are faithful, and the bytes added are whole frames of
   the successes followed by a prefix of the frame that failed, if one did.
   */
  lemma {:induction false} SessionSends(d: Device, check: string -> Option<Rejection>, values: seq<string>, flush: bool)
    ensures exists k: nat :: SessionEndsAt(d, check, values, flush, k)
    decreases |values|
  {
    if values == [] {
      assert SessionEndsAt(d, check, values, flush, 0);
    } else {
      var (d1, r) := Emit(d, check(values[0]), values[0], flush);
      EmitOutcome(d, check(values[0]), values[0], flush);
      var k: nat :| EmitEndsAt(d, check(values[0]), values[0], flush, k);
      if IsIo(r) {
        assert SessionEndsAt(d, check, values, flush, k);
      } else {
        SessionSends(d1, check, values[1..], flush);
        var later: nat :| SessionEndsAt(d1, check, values[1..], flush, later);
        SessionStep(d, check, values, flush, later);
      }
    }
  }

  lemma SessionStep(d: Device, check: string -> Option<Rejection>, values: seq<string>, flush: bool, k: nat)
    requires values != []
    requires var (d1, r) := Emit(d, check(values[0]), values[0], flush);
             && !IsIo(r) && EmitEndsAt(d, check(values[0]), values[0], flush, 0)
             && SessionEndsAt(d1, check, values[1..], flush, k)
    ensures SessionEndsAt(d, check, values, flush, k)
  {
    var (d1, r) := Emit(d, check(values[0]), values[0], flush);
    var (d2, rs) := Session(d1, check, values[1..], flush);
    assert r.Err? ==> d.bytes + [] == d.bytes;
    EndsCons(d, d1, check, values, flush, d2.bytes, r, rs, k);
  }

  lemma {:induction false} WhatIsDelivered(check: string -> Option<Rejection>, values: seq<string>, rs: seq<Outcome>, k: nat)
    requires Faithful(check, values, rs)
    ensures Delivered(values, rs, k)
            == if CutShort(rs) then
                 Accepted(check, values[..|rs| - 1]) + (if k < |Frame(values[|rs| - 1])| then [] else [values[|rs| - 1]])
               else Accepted(check, values)
  {
    if rs != [] {
      if IsIo(rs[0]) {
        assert values[..0] == [];
      } else {
        WhatIsDelivered(check, values[1..], rs[1..], k);
        if CutShort(rs) {
          var before := values[..|rs| - 1];
          assert before[0] == values[0] && before[1..] == values[1..][..|rs| - 2];
        }
      }
    }
  }

  /**
   A reader of `bytes` gets exactly the accepted records in order. If an I/O failure ended the session,
   it gets those before the failure, and the one it hit only if that line was whole and its flush failed.
   */
  predicate Recovered(check: string -> Option<Rejection>, values: seq<string>, rs: seq<Outcome>, flush: bool, bytes: seq<Byte>)
    requires |rs| <= |values|
  {
    ReadRecords(bytes) in Readings(check, values, rs, flush)
  }

  function Readings(check: string -> Option<Rejection>, values: seq<string>, rs: seq<Outcome>, flush: bool): set<Option<seq<string>>>
    requires |rs| <= |values|
  {
    if CutShort(rs) then
      var sent := Accepted(check, values[..|rs| - 1]);
      {Some(sent)} + (if flush then {Some(sent + [values[|rs| - 1]])} else {})
    else {Some(Accepted(check, values))}
  }

  lemma SentIsRecovered(check: string -> Option<Rejection>, values: seq<string>, rs: seq<Outcome>, flush: bool, k: nat)
    requires forall v :: check(v).None? ==> '\n' !in v
    requires Faithful(check, values, rs)
    requires CutShort(rs) ==> flush || k < |Frame(values[|rs| - 1])|
    ensures Recovered(check, values, rs, flush, Sent(values, rs, k))
  {
    SentReadsAsDelivered(check, values, rs, k);
    WhatIsDelivered(check, values, rs, k);
    if CutShort(rs) {
      assert Accepted(check, values[..|rs| - 1]) + [] == Accepted(check, values[..|rs| - 1]);
    }
  }

  /** However the device takes the bytes, splitting what it received at LF and decoding gives back the records. */
  lemma RecordsAreRecovered(d: Device, check: string -> Option<Rejection>, values: seq<string>, flush: bool)
    requires forall v :: check(v).None? ==> '\n' !in v
    requires d.bytes == []
    ensures var (d', rs) := Session(d, check, values, flush);
            Faithful(check, values, rs) && Recovered(check, values, rs, flush, d'.bytes)
  {
    SessionSends(d, check, values, flush);
    var k: nat :| SessionEndsAt(d, check, values, flush, k);
    var (d', rs) := Session(d, check, values, flush);
    assert d.bytes + Sent(values, rs, k) == Sent(values, rs, k);
    SentIsRecovered(check, values, rs, flush, k);
  }

  /** A device that takes some bytes each time, however few; it may interrupt writes that no flush separates. */
  predicate IsPatient(d: Device, flush: bool) {
    forall i :: 0 <= i < |d.responses| ==>
      match d.responses[i]
      case Accept(n) => n > 0
      case Refuse(kind) => kind.Interrupted? && !flush
  }

  lemma PatientDeviceIsNotToBlame(d: Device, values: seq<string>, rs: seq<Outcome>, flush: bool, k: nat)
    requires IsPatient(d, flush) && |rs| <= |values| && CutShort(rs)
    ensures !CutBy(d, values, rs, flush, k)
  {
    var kind := rs[|rs| - 1].error.kind;
    if Refuse(kind) in d.responses {
      var i :| 0 <= i < |d.responses| && d.responses[i] == Refuse(kind);
    }
  }

  /** Through a patient device every accepted record arrives, whatever the sizes of the pieces. */
  lemma ChunkingDoesNotMatter(d: Device, check: string -> Option<Rejection>, values: seq<string>, flush: bool)
    requires forall v :: check(v).None? ==> '\n' !in v
    requires d.bytes == [] && IsPatient(d, flush)
    ensures var (d', rs) := Session(d, check, values, flush);
            && !CutShort(rs)
            && Faithful(check, values, rs)
            && ReadRecords(d'.bytes) == Some(Accepted(check, values))
  {
    SessionSends(d, check, values, flush);
    var k: nat :| SessionEndsAt(d, check, values, flush, k);
    RecordsAreRecovered(d, check, values, flush);
    var (d', rs) := Session(d, check, values, flush);
    if CutShort(rs) {
      PatientDeviceIsNotToBlame(d, values, rs, flush, k);
    }
  }

  function MachineCheck(role: StreamRole, json: string -> bool): string -> Option<Rejection> {
    value => CheckMachineRecord(role, json, value)
  }

  function JsonCheck(json: string -> bool): string -> Option<Rejection> {
    value => ValidateJsonRecord(json, value)
  }

  /** Checks that accept the same values write the same bytes. */
  lemma {:induction false} SameAcceptanceSameBytes(d: Device, check: string -> Option<Rejection>, check': string -> Option<Rejection>,
                                                   values: seq<string>, flush: bool)
    requires forall v :: check(v).None? <==> check'(v).None?
    ensures Session(d, check, values, flush).0 == Session(d, check', values, flush).0
    decreases |values|
  {
    if values != [] {
      var (d1, r) := Emit(d, check(values[0]), values[0], flush);
      if !IsIo(r) {
        SameAcceptanceSameBytes(d1, check, check', values[1..], flush);
      }
    }
  }

  /** The two independently written emitters leave identical streams on identical devices, and both read back. */
  lemma EmittersAgree(d: Device, json: string -> bool, values: seq<string>, flush: bool)
    requires d.bytes == []
    ensures var (d', rs) := Session(d, MachineCheck(Primary, json), values, flush);
            var (d'', rs') := Session(d, JsonCheck(json), values, flush);
            && d' == d''
            && Faithful(MachineCheck(Primary, json), values, rs) && Faithful(JsonCheck(json), values, rs')
            && Recovered(MachineCheck(Primary, json), values, rs, flush, d'.bytes)
            && Recovered(JsonCheck(json), values, rs', flush, d'.bytes)
  {
    var machine, jsonl := MachineCheck(Primary, json), JsonCheck(json);
    forall v ensures machine(v).None? <==> jsonl(v).None? {
      ValidatorsAgree(json, v);
    }
    SameAcceptanceSameBytes(d, machine, jsonl, values, flush);
    RecordsAreRecovered(d, machine, values, flush);
    RecordsAreRecovered(d, jsonl, values, flush);
  }

  /**
   Only a broken pipe reads as a closed consumer, and a broken pipe is the device's own answer to a
   value that passed every check; success and all other failures come through as they are.
   */
  lemma ConsumerClosedMeansBrokenPipe(d: Device, check: Option<Rejection>, value: string, flush: bool)
    ensures var r := Emit(d, check, value, flush).1;
            && (TopLevelIo(r) == Ok(ConsumerClosed) <==> r == Err(Io(BrokenPipe)))
            && (r == Err(Io(BrokenPipe)) ==> check.None? && Refuse(BrokenPipe) in d.responses)
            && (TopLevelIo(r) == Ok(Written) <==> r.Ok?)
            && (TopLevelIo(r).Err? ==> r == Err(TopLevelIo(r).error))
  {
    EmitOutcome(d, check, value, flush);
  }

  // ----- Going on after a failure -----

  function Frames(values: seq<string>): seq<Byte> {
    if values == [] then [] else Frame(values[0]) + Frames(values[1..])
  }

  lemma {:induction false} UncutIsFrames(check: string -> Option<Rejection>, values: seq<string>, rs: seq<Outcome>, k: nat)
    requires Faithful(check, values, rs) && !CutShort(rs)
    ensures Sent(values, rs, k) == Frames(Accepted(check, values))
  {
    if rs != [] {
      UncutIsFrames(check, values[1..], rs[1..], k);
      if rs[0].Ok? {
        assert ([values[0]] + Accepted(check, values[1..]))[1..] == Accepted(check, values[1..]);
      }
    }
  }

  lemma {:induction false} ReadFrames(values: seq<string>, tail: seq<Byte>)
    requires forall i :: 0 <= i < |values| ==> '\n' !in values[i]
    ensures ReadRecords(Frames(values) + tail) == After(values, ReadRecords(tail))
  {
    if values == [] {
      assert Frames(values) + tail == tail;
      AfterNothing(ReadRecords(tail));
    } else {
      ReadFrames(values[1..], tail);
      ReadFrame(values[0], Frames(values[1..]) + tail);
      assert Frames(values) + tail == Frame(values[0]) + (Frames(values[1..]) + tail);
      AfterCons(values, ReadRecords(tail));
    }
  }

  lemma AfterCons(values: seq<string>, read: Option<seq<string>>)
    requires values != []
    ensures After([values[0]], After(values[1..], read)) == After(values, read)
  {
    if read.Some? {
      assert [values[0]] + (values[1..] + read.value) == values + read.value;
    }
  }

  lemma ReadWholeFrames(values: seq<string>)
    requires forall i :: 0 <= i < |values| ==> '\n' !in values[i]
    ensures ReadRecords(Frames(values)) == Some(values)
  {
    ReadFrames(values, []);
    assert Frames(values) + [] == Frames(values) && values + [] == values;
    assert ReadRecords([]) == Some([]);
  }

  /**
   A piece of one frame with another frame after it reads as a single record: what is whole of the first
   text followed by the second. Cut inside a character it does not decode, and neither does the stream.
   */
  lemma GluedFrame(u: string, k: nat, v: string, rest: seq<Byte>)
    requires '\n' !in u && '\n' !in v && k < |Frame(u)|
    ensures ReadRecords(Upto(Frame(u), k) + (Frame(v) + rest))
            == match CutText(u, k, v) { case Some(text) => After([text], ReadRecords(rest)) case None => None }
  {
    var piece := Encode(u)[..k];
    assert Upto(Frame(u), k) == piece;
    var bytes, n := piece + (Frame(v) + rest), k + |Encode(v)|;
    assert bytes == piece + Encode(v) + [LF] + rest;
    AsciiByteIsItsCharacter(u, LF);
    AsciiByteIsItsCharacter(v, LF);
    assert bytes[n] == LF;
    assert forall i :: 0 <= i < n ==> bytes[i] == (piece + Encode(v))[i] != LF;
    assert LineEnd(bytes) == n;
    assert bytes[..n] == piece + Encode(v) && bytes[n + 1..] == rest;
    CutDecodes(u, k, v);
  }

  /** What a reader gets from `k` bytes of one frame and then all frames of `more`. */
  function ReadPiece(failed: string, k: nat, more: seq<string>): Option<seq<string>> {
    if k >= |Frame(failed)| then Some([failed] + more)
    else if more == [] then Some([])
    else
      match CutText(failed, k, more[0])
      case Some(glued) => Some([glued] + more[1..])
      case None => None
  }

  lemma WholeThenFrames(failed: string, more: seq<string>)
    requires '\n' !in failed && forall i :: 0 <= i < |more| ==> '\n' !in more[i]
    ensures ReadRecords(Frame(failed) + Frames(more)) == Some([failed] + more)
  {
    ReadWholeFrames(more);
    ReadFrame(failed, Frames(more));
  }

  lemma CutThenFrames(failed: string, k: nat, more: seq<string>)
    requires more != [] && k < |Frame(failed)|
    requires '\n' !in failed && forall i :: 0 <= i < |more| ==> '\n' !in more[i]
    ensures ReadRecords(Upto(Frame(failed), k) + Frames(more))
            == match CutText(failed, k, more[0]) { case Some(glued) => Some([glued] + more[1..]) case None => None }
  {
    ReadWholeFrames(more[1..]);
    GluedFrame(failed, k, more[0], Frames(more[1..]));
  }

  lemma PieceThenFrames(failed: string, k: nat, more: seq<string>)
    requires '\n' !in failed && forall i :: 0 <= i < |more| ==> '\n' !in more[i]
    ensures ReadRecords(Upto(Frame(failed), k) + Frames(more)) == ReadPiece(failed, k, more)
  {
    if k >= |Frame(failed)| {
      WholeThenFrames(failed, more);
    } else if more == [] {
      ReadPrefix(failed, k);
      assert Upto(Frame(failed), k) + Frames([]) == Upto(Frame(failed), k);
    } else {
      CutThenFrames(failed, k, more);
    }
  }

  lemma AcceptedHaveNoLf(check: string -> Option<Rejection>, values: seq<string>)
    requires forall v :: check(v).None? ==> '\n' !in v
    ensures forall i :: 0 <= i < |Accepted(check, values)| ==> '\n' !in Accepted(check, values)[i]
  {
  }

  /**
   A caller that goes on after an I/O failure loses at most the record that failed and the next one: the
   piece left of the first is glued to the front of the second. All records before and after are intact,
   unless the piece ends inside a character; then the stream as a whole does not decode.
   */
  lemma GoingOnGluesOneRecord(d: Device, check: string -> Option<Rejection>, values: seq<string>, more: seq<string>, flush: bool)
    requires forall v :: check(v).None? ==> '\n' !in v
    requires d.bytes == [] && CutShort(Session(d, check, values, flush).1)
    requires !CutShort(Session(Session(d, check, values, flush).0, check, more, flush).1)
    ensures exists k: nat :: SessionEndsAt(d, check, values, flush, k) && ReadsOn(d, check, values, more, flush, k)
  {
    SessionSends(d, check, values, flush);
    var k: nat :| SessionEndsAt(d, check, values, flush, k);
    SecondSessionBytes(Session(d, check, values, flush).0, check, more, flush);
    FirstThenSecond(d, check, values, more, flush, k);
  }

  lemma SecondSessionBytes(d: Device, check: string -> Option<Rejection>, more: seq<string>, flush: bool)
    requires !CutShort(Session(d, check, more, flush).1)
    ensures Session(d, check, more, flush).0.bytes == d.bytes + Frames(Accepted(check, more))
  {
    SessionSends(d, check, more, flush);
    var k: nat :| SessionEndsAt(d, check, more, flush, k);
    UncutIsFrames(check, more, Session(d, check, more, flush).1, k);
  }

  lemma FirstThenSecond(d: Device, check: string -> Option<Rejection>, values: seq<string>, more: seq<string>, flush: bool, k: nat)
    requires forall v :: check(v).None? ==> '\n' !in v
    requires d.bytes == [] && CutShort(Session(d, check, values, flush).1) && SessionEndsAt(d, check, values, flush, k)
    requires var d1 := Session(d, check, values, flush).0;
             Session(d1, check, more, flush).0.bytes == d1.bytes + Frames(Accepted(check, more))
    ensures ReadsOn(d, check, values, more, flush, k)
  {
    var (d1, rs) := Session(d, check, values, flush);
    assert d.bytes + Sent(values, rs, k) == Sent(values, rs, k);
    AcceptedHaveNoLf(check, more);
    ReadCutThenFrames(check, values, rs, k, Accepted(check, more));
  }

  /** What is read after `more` has been emitted as well, the first session having failed `k` bytes into a frame. */
  predicate ReadsOn(d: Device, check: string -> Option<Rejection>, values: seq<string>, more: seq<string>, flush: bool, k: nat) {
    var (d1, rs) := Session(d, check, values, flush);
    && 0 < |rs| <= |values|
    && ReadRecords(Session(d1, check, more, flush).0.bytes)
       == After(Accepted(check, values[..|rs| - 1]), ReadPiece(values[|rs| - 1], k, Accepted(check, more)))
  }

  lemma ReadCutThenFrames(check: string -> Option<Rejection>, values: seq<string>, rs: seq<Outcome>, k: nat, more: seq<string>)
    requires forall v :: check(v).None? ==> '\n' !in v
    requires Faithful(check, values, rs) && CutShort(rs)
    requires forall i :: 0 <= i < |more| ==> '\n' !in more[i]
    ensures ReadRecords(Sent(values, rs, k) + Frames(more))
            == After(Accepted(check, values[..|rs| - 1]), ReadPiece(values[|rs| - 1], k, more))
  {
    ReadSentThen(check, values, rs, k, Frames(more));
    FailedIsLast(check, values, rs);
    PieceThenFrames(values[|rs| - 1], k, more);
    WhatIsDelivered(check, values, rs, 0);
    assert Accepted(check, values[..|rs| - 1]) + [] == Accepted(check, values[..|rs| - 1]);
  }

  /** The value whose emission failed. */
  function Failed(values: seq<string>, rs: seq<Outcome>): string
    requires |rs| <= |values| && CutShort(rs)
  {
    if IsIo(rs[0]) then values[0] else Failed(values[1..], rs[1..])
  }

  lemma {:induction false} FailedIsLast(check: string -> Option<Rejection>, values: seq<string>, rs: seq<Outcome>)
    requires Faithful(check, values, rs) && CutShort(rs)
    ensures Failed(values, rs) == values[|rs| - 1] && check(Failed(values, rs)).None?
  {
    if !IsIo(rs[0]) {
      FailedIsLast(check, values[1..], rs[1..]);
    }
  }

  /** A reader past a failed session: first the records sent whole, then whatever follows with the piece in front. */
  lemma {:induction false} ReadSentThen(check: string -> Option<Rejection>, values: seq<string>, rs: seq<Outcome>, k: nat, rest: seq<Byte>)
    requires forall v :: check(v).None? ==> '\n' !in v
    requires Faithful(check, values, rs) && CutShort(rs)
    ensures ReadRecords(Sent(values, rs, k) + rest)
            == After(Delivered(values, rs, 0), ReadRecords(Upto(Frame(Failed(values, rs)), k) + rest))
  {
    match rs[0] {
      case Ok(_) =>
        ReadSentThen(check, values[1..], rs[1..], k, rest);
        ReadSentHead(values, rs, k, rest);
        DeliveredHead(values, rs, ReadRecords(Upto(Frame(Failed(values, rs)), k) + rest));
      case Err(Rejected(_)) =>
        ReadSentThen(check, values[1..], rs[1..], k, rest);
      case Err(Io(_)) =>
        AfterNothing(ReadRecords(Upto(Frame(values[0]), k) + rest));
    }
  }

  lemma ReadSentHead(values: seq<string>, rs: seq<Outcome>, k: nat, rest: seq<Byte>)
    requires rs != [] && |rs| <= |values| && rs[0].Ok? && '\n' !in values[0]
    ensures ReadRecords(Sent(values, rs, k) + rest) == After([values[0]], ReadRecords(Sent(values[1..], rs[1..], k) + rest))
  {
    ReadFrameThen(values[0], Sent(values[1..], rs[1..], k), rest);
  }

  lemma ReadFrameThen(value: string, sent: seq<Byte>, rest: seq<Byte>)
    requires '\n' !in value
    ensures ReadRecords(Frame(value) + sent + rest) == After([value], ReadRecords(sent + rest))
  {
    ReadFrame(value, sent + rest);
    assert Frame(value) + sent + rest == Frame(value) + (sent + rest);
  }

  lemma DeliveredHead(values: seq<string>, rs: seq<Outcome>, read: Option<seq<string>>)
    requires rs != [] && |rs| <= |values| && rs[0].Ok?
    ensures After(Delivered(values, rs, 0), read) == After([values[0]], After(Delivered(values[1..], rs[1..], 0), read))
  {
    assert Delivered(values, rs, 0)[1..] == Delivered(values[1..], rs[1..], 0);
    AfterCons(Delivered(values, rs, 0), read);
  }

  lemma AfterNothing(read: Option<seq<string>>)
    ensures After([], read) == read
  {
    if read.Some? {
      assert [] + read.value == read.value;
    }
  }
}
