/** UTF-8 as section 3 of RFC 3629 defines it: what `str::as_bytes` yields and a reader must undo. */
module Utf8 {
  import opened Prelude

  function Continuation(bits: nat): Byte {
    0x80 + bits % 64
  }

  function EncodeChar(c: char): (bytes: seq<Byte>)
    ensures 1 <= |bytes| <= 4
  {
    var v := c as int;
    if v < 0x80 then [v]
    else if v < 0x800 then [0xC0 + v / 64, Continuation(v)]
    else if v < 0x1_0000 then [0xE0 + v / 4096, Continuation(v / 64), Continuation(v)]
    else [0xF0 + v / 262144, Continuation(v / 4096), Continuation(v / 64), Continuation(v)]
  }

  function Encode(s: string): (bytes: seq<Byte>)
    ensures |s| <= |bytes|
  {
    if s == [] then [] else EncodeChar(s[0]) + Encode(s[1..])
  }

  predicate IsContinuation(b: Byte) {
    0x80 <= b < 0xC0
  }

  /** A scalar value: no surrogate, nothing past U+10FFFF. */
  predicate IsScalar(v: int) {
    0 <= v < 0xD800 || 0xE000 <= v < 0x11_0000
  }

  function Scalar(v: int, least: int): Option<char> {
    if least <= v && IsScalar(v) then Some(v as char) else None
  }

  /** The length a lead byte announces; 0 for a byte that cannot lead. */
  function LeadLength(b: Byte): nat {
    if b < 0x80 then 1
    else if b < 0xC0 then 0
    else if b < 0xE0 then 2
    else if b < 0xF0 then 3
    else if b < 0xF8 then 4
    else 0
  }

  /** What is left of a byte above its marker. */
  function Bits(b: Byte, marker: int): int {
    b - marker
  }

  /** The character one whole sequence stands for, refusing overlong forms and surrogates. */
  function DecodeChar(b: seq<Byte>): Option<char> {
    if |b| == 1 && b[0] < 0x80 then Scalar(b[0], 0)
    else if |b| == 2 && IsContinuation(b[1]) && 0xC0 <= b[0] < 0xE0 then
      Scalar(Bits(b[0], 0xC0) * 64 + Bits(b[1], 0x80), 0x80)
    else if |b| == 3 && IsContinuation(b[1]) && IsContinuation(b[2]) && 0xE0 <= b[0] < 0xF0 then
      Scalar(Bits(b[0], 0xE0) * 4096 + Bits(b[1], 0x80) * 64 + Bits(b[2], 0x80), 0x800)
    else if |b| == 4 && IsContinuation(b[1]) && IsContinuation(b[2]) && IsContinuation(b[3]) && 0xF0 <= b[0] < 0xF8 then
      Scalar(Bits(b[0], 0xF0) * 262144 + Bits(b[1], 0x80) * 4096 + Bits(b[2], 0x80) * 64 + Bits(b[3], 0x80), 0x1_0000)
    else None
  }

  function Decode(bytes: seq<Byte>): Option<string>
    decreases |bytes|
  {
    if bytes == [] then Some([])
    else
      var n := LeadLength(bytes[0]);
      if n == 0 || n > |bytes| then None
      else
        match DecodeChar(bytes[..n])
        case None => None
        case Some(c) =>
          match Decode(bytes[n..])
          case None => None
          case Some(rest) => Some([c] + rest)
  }

  lemma DecodeEncodeChar(c: char)
    ensures DecodeChar(EncodeChar(c)) == Some(c)
    ensures LeadLength(EncodeChar(c)[0]) == |EncodeChar(c)|
  {
    var v := c as int;
    assert IsScalar(v);
    assert v / 4096 == v / 64 / 64 && v / 262144 == v / 4096 / 64;
  }

  lemma SixBits(high: nat, low: nat)
    requires low < 64
    ensures (high * 64 + low) / 64 == high && (high * 64 + low) % 64 == low
  {
  }

  lemma EncodeDecodeChar(b: seq<Byte>)
    requires DecodeChar(b).Some?
    ensures EncodeChar(DecodeChar(b).value) == b
  {
    var v := DecodeChar(b).value as int;
    if |b| == 2 {
      SixBits(Bits(b[0], 0xC0), Bits(b[1], 0x80));
    } else if |b| == 3 {
      var high := Bits(b[0], 0xE0) * 64 + Bits(b[1], 0x80);
      SixBits(high, Bits(b[2], 0x80));
      SixBits(Bits(b[0], 0xE0), Bits(b[1], 0x80));
    } else if |b| == 4 {
      var high := Bits(b[0], 0xF0) * 64 + Bits(b[1], 0x80);
      SixBits(high * 64 + Bits(b[2], 0x80), Bits(b[3], 0x80));
      SixBits(high, Bits(b[2], 0x80));
      SixBits(Bits(b[0], 0xF0), Bits(b[1], 0x80));
    }
  }

  lemma DecodeHead(head: seq<Byte>, rest: seq<Byte>)
    requires head != [] && LeadLength(head[0]) == |head| && DecodeChar(head).Some?
    requires Decode(rest).Some?
    ensures Decode(head + rest) == Some([DecodeChar(head).value] + Decode(rest).value)
  {
    assert (head + rest)[..|head|] == head && (head + rest)[|head|..] == rest;
  }

  /** Every string survives being written and read. */
  lemma {:induction false} DecodeEncode(s: string)
    ensures Decode(Encode(s)) == Some(s)
  {
    if s != [] {
      var head, rest := EncodeChar(s[0]), Encode(s[1..]);
      DecodeEncodeChar(s[0]);
      DecodeEncode(s[1..]);
      DecodeHead(head, rest);
      assert [s[0]] + s[1..] == s;
    }
  }

  lemma EncodeCons(c: char, rest: string)
    ensures Encode([c] + rest) == EncodeChar(c) + Encode(rest)
  {
    assert ([c] + rest)[1..] == rest;
  }

  lemma DecodeFirst(bytes: seq<Byte>) returns (c: char, rest: seq<Byte>)
    requires bytes != [] && Decode(bytes).Some?
    ensures bytes == EncodeChar(c) + rest
    ensures Decode(rest).Some? && Decode(bytes).value == [c] + Decode(rest).value
  {
    var head := bytes[..LeadLength(bytes[0])];
    rest := bytes[|head|..];
    c := DecodeChar(head).value;
    EncodeDecodeChar(head);
    assert bytes == head + rest;
  }

  /** Bytes that decode are exactly the encoding of what they decode to: there is one spelling per string. */
  lemma {:induction false} EncodeDecode(bytes: seq<Byte>)
    requires Decode(bytes).Some?
    ensures Encode(Decode(bytes).value) == bytes
    decreases |bytes|
  {
    if bytes != [] {
      var c, rest := DecodeFirst(bytes);
      EncodeDecode(rest);
      EncodeCons(c, Decode(rest).value);
    }
  }

  lemma AsciiBytesAreAscii(c: char, b: Byte)
    requires b < 0x80
    ensures b in EncodeChar(c) <==> c == b as char
  {
  }

  /** An ASCII byte occurs in the encoding exactly when its own character occurs in the string. */
  lemma {:induction false} AsciiByteIsItsCharacter(s: string, b: Byte)
    requires b < 0x80
    ensures b in Encode(s) <==> b as char in s
  {
    if s != [] {
      AsciiBytesAreAscii(s[0], b);
      AsciiByteIsItsCharacter(s[1..], b);
      assert s == [s[0]] + s[1..];
    }
  }

  // ----- Truncated text -----

  /** How many whole characters the first `k` bytes of the encoding are, if they are whole. */
  function WholeCharacters(s: string, k: nat): (r: Option<nat>)
    ensures r.Some? ==> r.value <= |s| && |Encode(s[..r.value])| == k
  {
    if k == 0 then Some(0)
    else if s == [] || k < |EncodeChar(s[0])| then None
    else
      match WholeCharacters(s[1..], k - |EncodeChar(s[0])|)
      case None => None
      case Some(j) =>
        EncodeTake(s, j + 1);
        Some(j + 1)
  }

  lemma EncodeTake(s: string, j: nat)
    requires 0 < j <= |s|
    ensures Encode(s[..j]) == EncodeChar(s[0]) + Encode(s[1..][..j - 1])
  {
    assert s[..j] == [s[0]] + s[1..][..j - 1];
    EncodeCons(s[0], s[1..][..j - 1]);
  }

  lemma {:induction false} WholeCharactersIff(s: string, k: nat, j: nat)
    requires j <= |s| && |Encode(s[..j])| == k
    ensures WholeCharacters(s, k) == Some(j)
  {
    if j > 0 {
      EncodeTake(s, j);
      WholeCharactersIff(s[1..], k - |EncodeChar(s[0])|, j - 1);
    }
  }

  lemma DecodeBadHead(head: seq<Byte>, rest: seq<Byte>)
    requires head != [] && LeadLength(head[0]) == |head| && DecodeChar(head).Some?
    requires Decode(rest).None?
    ensures Decode(head + rest).None?
  {
    assert (head + rest)[..|head|] == head && (head + rest)[|head|..] == rest;
  }

  /** A character cut in the middle is not completed by what another text starts with. */
  lemma CutCharacterFails(c: char, k: nat, v: string)
    requires 0 < k < |EncodeChar(c)|
    ensures Decode(EncodeChar(c)[..k] + Encode(v)).None?
  {
    var bytes, n := EncodeChar(c)[..k] + Encode(v), |EncodeChar(c)|;
    DecodeEncodeChar(c);
    assert LeadLength(bytes[0]) == n;
    if n <= |bytes| {
      assert bytes[k] == EncodeChar(v[0])[0] && !IsContinuation(bytes[k]);
    }
  }

  /** What remains readable of `u`, cut after `k` bytes, with `v` after it. */
  function CutText(u: string, k: nat, v: string): Option<string> {
    match WholeCharacters(u, k)
    case Some(j) => Some(u[..j] + v)
    case None => None
  }

  function Prepend(c: char, text: Option<string>): Option<string> {
    match text
    case Some(rest) => Some([c] + rest)
    case None => None
  }

  lemma CutTextStep(u: string, k: nat, v: string)
    requires u != [] && |EncodeChar(u[0])| <= k
    ensures CutText(u, k, v) == Prepend(u[0], CutText(u[1..], k - |EncodeChar(u[0])|, v))
  {
    var whole := WholeCharacters(u[1..], k - |EncodeChar(u[0])|);
    if whole.Some? {
      assert u[..whole.value + 1] + v == [u[0]] + (u[1..][..whole.value] + v);
    }
  }

  lemma CutBytesStep(u: string, k: nat, v: string)
    requires u != [] && |EncodeChar(u[0])| <= k <= |Encode(u)|
    ensures Encode(u)[..k] + Encode(v)
            == EncodeChar(u[0]) + (Encode(u[1..])[..k - |EncodeChar(u[0])|] + Encode(v))
  {
  }

  /** Truncated text followed by other text decodes exactly when it was cut between characters. */
  lemma {:induction false} CutDecodes(u: string, k: nat, v: string)
    requires k <= |Encode(u)|
    ensures Decode(Encode(u)[..k] + Encode(v)) == CutText(u, k, v)
  {
    if k == 0 {
      assert Encode(u)[..0] + Encode(v) == Encode(v) && u[..0] + v == v;
      DecodeEncode(v);
    } else if k < |EncodeChar(u[0])| {
      assert Encode(u)[..k] == EncodeChar(u[0])[..k];
      CutCharacterFails(u[0], k, v);
    } else {
      var later := k - |EncodeChar(u[0])|;
      CutDecodes(u[1..], later, v);
      CutBytesStep(u, k, v);
      CutStep(u[0], u[1..], later, v);
      CutTextStep(u, k, v);
    }
  }

  lemma CutStep(c: char, rest: string, k: nat, v: string)
    requires k <= |Encode(rest)|
    ensures Decode(EncodeChar(c) + (Encode(rest)[..k] + Encode(v)))
            == Prepend(c, Decode(Encode(rest)[..k] + Encode(v)))
  {
    DecodeEncodeChar(c);
    if Decode(Encode(rest)[..k] + Encode(v)).Some? {
      DecodeHead(EncodeChar(c), Encode(rest)[..k] + Encode(v));
    } else {
      DecodeBadHead(EncodeChar(c), Encode(rest)[..k] + Encode(v));
    }
  }

  // ----- The table of the standard -----

  /** The bytes of a character, by range of its code point: leading and continuation bits, six at a time. */
  predicate IsStandardForm(n: int, b: seq<Byte>) {
    || (|b| == 1 && n < 0x80 && b[0] as int == n)
    || (|b| == 2 && 0x80 <= n < 0x800 && (b[0] as int - 192) * 64 + (b[1] as int - 128) == n && 128 <= b[1] < 192)
    || (|b| == 3 && 0x800 <= n < 0x1_0000 && 128 <= b[1] < 192 && 128 <= b[2] < 192
        && (b[0] as int - 224) * 4096 + (b[1] as int - 128) * 64 + (b[2] as int - 128) == n)
    || (|b| == 4 && 0x1_0000 <= n < 0x11_0000 && 128 <= b[1] < 192 && 128 <= b[2] < 192 && 128 <= b[3] < 192
        && (b[0] as int - 240) * 262144 + (b[1] as int - 128) * 4096 + (b[2] as int - 128) * 64 + (b[3] as int - 128) == n)
  }

  /** Characters are encoded as the table in section 3 of RFC 3629 has it. */
  lemma EncodingIsStandard(c: char)
    ensures IsStandardForm(c as int, EncodeChar(c))
  {
    var v, b := c as int, EncodeChar(c);
    SixBitsBack(v);
    SixBitsBack(v / 64);
    SixBitsBack(v / 4096);
    assert v / 4096 == v / 64 / 64 && v / 262144 == v / 4096 / 64;
    if v < 0x80 {
    } else if v < 0x800 {
      assert b[0] as int == 192 + v / 64 && b[1] as int == 128 + v % 64;
    } else if v < 0x1_0000 {
      assert b[0] as int == 224 + v / 4096 && b[1] as int == 128 + v / 64 % 64 && b[2] as int == 128 + v % 64;
    } else {
      assert b[0] as int == 240 + v / 262144 && b[1] as int == 128 + v / 4096 % 64;
      assert b[2] as int == 128 + v / 64 % 64 && b[3] as int == 128 + v % 64;
    }
  }

  lemma SixBitsBack(v: nat)
    ensures v == v / 64 * 64 + v % 64
  {
  }
}
