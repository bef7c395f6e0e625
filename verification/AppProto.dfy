/** The demo application's message codec (demo/app_proto.c). */
module AppProto {
  import opened Machine

  const HEADER_LEN := 11
  const UINT16_MAX := 0xFFFF

  /** IVC_APP_MESSAGE_REQUEST, _ACK and _DATA. */
  type Kind = k: int | 1 <= k <= 3 witness 1

  datatype AppMessage = AppMessage(kind: Kind, sequence: u64, body: seq<byte>)

  datatype Parsed = Accepted(message: AppMessage) | Rejected

  predicate KindIsValid(k: int) {
    1 <= k <= 3
  }

  // ----- Little-endian numbers of any width

  function ToLe(v: nat, n: nat): (s: seq<byte>)
    ensures |s| == n
    decreases n
  {
    if n == 0 then [] else [v % 256] + ToLe(v / 256, n - 1)
  }

  function FromLe(s: seq<byte>): nat {
    if s == [] then 0 else s[0] as int + 256 * FromLe(s[1..])
  }

  function Pow256(n: nat): nat {
    if n == 0 then 1 else 256 * Pow256(n - 1)
  }

  lemma {:induction false} FromToLe(v: nat, n: nat)
    requires v < Pow256(n)
    ensures FromLe(ToLe(v, n)) == v
    decreases n
  {
    if n > 0 {
      FromToLe(v / 256, n - 1);
      assert ToLe(v, n)[1..] == ToLe(v / 256, n - 1);
    }
  }

  lemma {:induction false} ToFromLe(s: seq<byte>)
    ensures FromLe(s) < Pow256(|s|)
    ensures ToLe(FromLe(s), |s|) == s
    decreases |s|
  {
    if s != [] {
      ToFromLe(s[1..]);
      assert s == [s[0]] + s[1..];
      assert FromLe(s) / 256 == FromLe(s[1..]) && FromLe(s) % 256 == s[0];
    }
  }

  lemma Widths()
    ensures Pow256(2) == 0x1_0000 && Pow256(8) == 0x1_0000_0000_0000_0000
  {
    assert Pow256(4) == 256 * (256 * (256 * (256 * Pow256(0))));
    assert Pow256(8) == 256 * (256 * (256 * (256 * Pow256(4))));
  }

  // ----- Payload images

  function Header(kind: Kind, sequence: u64, bodyLen: u16): (h: seq<byte>)
    ensures |h| == HEADER_LEN
  {
    [kind] + ToLe(sequence, 8) + ToLe(bodyLen, 2)
  }

  /** A payload is the header, which holds the exact body length, and the body. */
  function Image(m: AppMessage): seq<byte>
    requires |m.body| <= UINT16_MAX
  {
    Header(m.kind, m.sequence, |m.body|) + m.body
  }

  /** ivc_app_pattern_byte: all three terms and their sum are cut to eight bits. */
  function PatternByte(kind: Kind, sequence: u64, index: nat): byte {
    97 + (index % 256 + sequence % 256 + kind * 7) % 256 % 26
  }

  /** Cutting each term to eight bits is cutting the sum. */
  lemma PatternByteSum(kind: Kind, sequence: u64, index: nat)
    ensures PatternByte(kind, sequence, index) == Letter(index + sequence + 7 * kind)
  {
    EightBitSum(index, sequence, 7 * kind);
  }

  function Letter(m: nat): byte {
    97 + m % 256 % 26
  }

  lemma LettersCycle(m: nat)
    ensures Letter(m + 256) == Letter(m)
    ensures m % 256 != 255 ==> Letter(m + 1) == (if Letter(m) == 122 then 97 else Letter(m) + 1)
  {
    if m % 256 != 255 {
      assert (m + 1) % 256 == m % 256 + 1;
    }
  }

  /** The letters repeat with period 256 and, inside a period, follow one another
      through the alphabet; the period starts where kind and sequence put it. */
  lemma PatternByteLaw(kind: Kind, sequence: u64, index: nat)
    ensures (index + sequence + 7 * kind) % 256 == 0 ==> PatternByte(kind, sequence, index) == 97
    ensures PatternByte(kind, sequence, index + 256) == PatternByte(kind, sequence, index)
    ensures (index + sequence + 7 * kind) % 256 != 255 ==>
              PatternByte(kind, sequence, index + 1) ==
              (if PatternByte(kind, sequence, index) == 122 then 97 else PatternByte(kind, sequence, index) + 1)
  {
    PatternByteSum(kind, sequence, index);
    PatternByteSum(kind, sequence, index + 256);
    PatternByteSum(kind, sequence, index + 1);
    LettersCycle(index + sequence + 7 * kind);
  }

  lemma EightBitSum(a: nat, b: nat, c: nat)
    ensures (a % 256 + b % 256 + c) % 256 == (a + b + c) % 256
  {
    assert a + b + c == (a % 256 + b % 256 + c) + 256 * (a / 256 + b / 256);
  }

  function Pattern(kind: Kind, sequence: u64, n: nat): (p: seq<byte>)
    ensures |p| == n
  {
    seq(n, i requires 0 <= i => PatternByte(kind, sequence, i))
  }

  function PatternMessage(kind: Kind, sequence: u64, len: nat): AppMessage
    requires HEADER_LEN <= len
  {
    AppMessage(kind, sequence, Pattern(kind, sequence, len - HEADER_LEN))
  }

  function Decode(payload: seq<byte>): Parsed {
    if |payload| < HEADER_LEN then Rejected
    else if !KindIsValid(payload[0]) then Rejected
    else if FromLe(payload[9..11]) != |payload| - HEADER_LEN then Rejected
    else
      ToFromLe(payload[1..9]);
      Widths();
      Accepted(AppMessage(payload[0], FromLe(payload[1..9]), payload[11..]))
  }

  // ----- Encoding and decoding are inverse

  lemma ImageFields(m: AppMessage)
    requires |m.body| <= UINT16_MAX
    ensures var p := Image(m);
            |p| == HEADER_LEN + |m.body| && p[0] == m.kind && p[1..9] == ToLe(m.sequence, 8)
            && p[9..11] == ToLe(|m.body|, 2) && p[11..] == m.body
  {
  }

  /** Decoding what was encoded gives back the kind, the 64-bit sequence and the body. */
  lemma DecodeAfterEncode(m: AppMessage)
    requires |m.body| <= UINT16_MAX
    ensures Decode(Image(m)) == Accepted(m)
  {
    ImageFields(m);
    Widths();
    FromToLe(m.sequence, 8);
    FromToLe(|m.body|, 2);
  }

  /** Any payload that decodes is, byte for byte, the encoding of what it decoded to. */
  lemma EncodeAfterDecode(payload: seq<byte>)
    requires Decode(payload).Accepted?
    ensures var m := Decode(payload).message; |m.body| <= UINT16_MAX && Image(m) == payload
  {
    Widths();
    ToFromLe(payload[1..9]);
    ToFromLe(payload[9..11]);
    assert payload == [payload[0]] + payload[1..9] + payload[9..11] + payload[11..];
  }

  /** What ivc_app_validate_pattern decides. */
  predicate IsPattern(m: AppMessage, kind: Kind, sequence: u64, len: nat) {
    && m.kind == kind && m.sequence == sequence
    && HEADER_LEN <= len && |m.body| == len - HEADER_LEN
    && forall i :: 0 <= i < |m.body| ==> m.body[i] == PatternByte(kind, sequence, i)
  }

  /** A payload passes decoding and validation for a kind, sequence and length exactly
      when it is the pattern that the encoder writes for them. */
  lemma ValidatedIffPattern(payload: seq<byte>, kind: Kind, sequence: u64, len: nat)
    requires HEADER_LEN <= len <= HEADER_LEN + UINT16_MAX
    ensures (Decode(payload).Accepted? && IsPattern(Decode(payload).message, kind, sequence, len))
            <==> payload == Image(PatternMessage(kind, sequence, len))
  {
    var m := PatternMessage(kind, sequence, len);
    DecodeAfterEncode(m);
    if Decode(payload).Accepted? && IsPattern(Decode(payload).message, kind, sequence, len) {
      EncodeAfterDecode(payload);
      assert Decode(payload).message.body == m.body;
    }
  }

  // ----- The calls

  lemma DigitsFrom(value: nat, n: nat, i: nat, rest: nat)
    requires i < n && ToLe(value, n)[i..] == ToLe(rest, n - i)
    ensures ToLe(value, n)[i] == rest % 256 && ToLe(value, n)[i + 1..] == ToLe(rest / 256, n - i - 1)
  {
    var digits := ToLe(value, n);
    assert digits[i] == digits[i..][0];
    assert digits[i + 1..] == digits[i..][1..];
  }

  method WriteLe(output: array<byte>, at: nat, value: nat, n: nat)
    requires at + n <= output.Length
    modifies output
    ensures output[..] == old(output[..at]) + ToLe(value, n) + old(output[at + n..])
  {
    var rest := value;
    for i := 0 to n
      invariant forall j :: 0 <= j < output.Length && !(at <= j < at + i) ==> output[j] == old(output[j])
      invariant forall j :: 0 <= j < i ==> output[at + j] == ToLe(value, n)[j]
      invariant ToLe(value, n)[i..] == ToLe(rest, n - i)
    {
      DigitsFrom(value, n, i, rest);
      output[at + i] := rest % 256;
      rest := rest / 256;
    }
  }

  method EncodeHeader(payload: array<byte>, kind: Kind, sequence: u64, bodyLen: u16)
    requires payload.Length >= HEADER_LEN
    modifies payload
    ensures payload[..] == Header(kind, sequence, bodyLen) + old(payload[11..])
  {
    payload[0] := kind;
    WriteLe(payload, 1, sequence, 8);
    assert payload[..9] == [kind] + ToLe(sequence, 8) && payload[11..] == old(payload[11..]);
    WriteLe(payload, 9, bodyLen, 2);
  }

  /** Fills the first `len` bytes of the buffer, or leaves it alone. */
  method EncodePattern(payload: array<byte>, len: nat, kind: int, sequence: u64) returns (ok: bool)
    requires len <= payload.Length
    modifies payload
    ensures ok <==> KindIsValid(kind) && HEADER_LEN <= len <= HEADER_LEN + UINT16_MAX
    ensures ok ==> payload[..len] == Image(PatternMessage(kind, sequence, len))
    ensures payload[len..] == old(payload[len..]) && (!ok ==> payload[..] == old(payload[..]))
  {
    if !KindIsValid(kind) || len < HEADER_LEN {
      return false;
    }
    var bodyLen := len - HEADER_LEN;
    if bodyLen > UINT16_MAX {
      return false;
    }
    EncodeHeader(payload, kind, sequence, bodyLen);
    assert payload[..11] == Header(kind, sequence, bodyLen) && payload[len..] == old(payload[len..]);
    FillPattern(payload, kind, sequence, bodyLen);
    return true;
  }

  /** The loop after the header. */
  method FillPattern(payload: array<byte>, kind: Kind, sequence: u64, bodyLen: nat)
    requires HEADER_LEN + bodyLen <= payload.Length
    modifies payload
    ensures payload[..] == old(payload[..11]) + Pattern(kind, sequence, bodyLen) + old(payload[11 + bodyLen..])
  {
    for i := 0 to bodyLen
      invariant forall j :: 0 <= j < i ==> payload[11 + j] == PatternByte(kind, sequence, j)
      invariant forall j :: 0 <= j < payload.Length && !(11 <= j < 11 + i) ==> payload[j] == old(payload[j])
    {
      payload[HEADER_LEN + i] := PatternByte(kind, sequence, i);
    }
  }

  method EncodeText(payload: array<byte>, kind: int, sequence: u64, body: seq<byte>) returns (ok: bool, messageLen: nat)
    modifies payload
    ensures ok <==> KindIsValid(kind) && |body| <= UINT16_MAX && HEADER_LEN + |body| <= payload.Length
    ensures ok ==> messageLen == HEADER_LEN + |body| && payload[..messageLen] == Image(AppMessage(kind, sequence, body))
    ensures !ok ==> payload[..] == old(payload[..])
  {
    if !KindIsValid(kind) || |body| > UINT16_MAX {
      return false, 0;
    }
    var required := HEADER_LEN + |body|;
    if required > payload.Length {
      return false, 0;
    }
    EncodeHeader(payload, kind, sequence, |body|);
    for i := 0 to |body|
      invariant payload[..11] == Header(kind, sequence, |body|)
      invariant forall j :: 0 <= j < i ==> payload[11 + j] == body[j]
    {
      payload[HEADER_LEN + i] := body[i];
    }
    assert payload[11..required] == body;
    assert payload[..required] == payload[..11] + payload[11..required];
    return true, required;
  }

  method ValidatePattern(m: AppMessage, kind: Kind, sequence: u64, len: nat) returns (ok: bool)
    ensures ok <==> IsPattern(m, kind, sequence, len)
  {
    if m.kind != kind || m.sequence != sequence || len < HEADER_LEN || |m.body| != len - HEADER_LEN {
      return false;
    }
    for i := 0 to |m.body|
      invariant forall j :: 0 <= j < i ==> m.body[j] == PatternByte(kind, sequence, j)
    {
      if m.body[i] != PatternByte(kind, sequence, i) {
        return false;
      }
    }
    return true;
  }
}
