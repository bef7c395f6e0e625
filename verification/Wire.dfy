/** The AxVisor IV Message V1 frame codec (ivc/message.c). */
module Wire {
  import opened Machine

  const SLOT_SIZE := 256
  const HEADER_LEN := 24
  const FRAGMENT_CAPACITY := 232
  const VERSION_V1: byte := 1

  type Slot = s: seq<byte> | |s| == 256 witness seq(256, _ => 0)

  datatype Frame = Frame(id: u64, len: u64, first: bool, last: bool, abort: bool, payload: seq<byte>)

  datatype Decoded = Good(frame: Frame) | Malformed(error: int)

  // ----- Little-endian integers

  function Le16(v: u16): (s: seq<byte>)
    ensures |s| == 2
  {
    [v % 256, v / 256]
  }

  function Le32(v: u32): (s: seq<byte>)
    ensures |s| == 4
  {
    [v % 256, v / 256 % 256, v / 65536 % 256, v / 16777216]
  }

  function Le64(v: u64): (s: seq<byte>)
    ensures |s| == 8
  {
    Le32(v % U32_SPAN) + Le32(v / U32_SPAN)
  }

  function FromLe16(s: seq<byte>): (v: u16)
    requires |s| == 2
  {
    s[0] as int + 256 * s[1] as int
  }

  function FromLe32(s: seq<byte>): (v: u32)
    requires |s| == 4
  {
    s[0] as int + 256 * s[1] as int + 65536 * s[2] as int + 16777216 * s[3] as int
  }

  function FromLe64(s: seq<byte>): (v: u64)
    requires |s| == 8
  {
    FromLe32(s[..4]) as int + U32_SPAN * FromLe32(s[4..]) as int
  }

  lemma Le32RoundTrip(v: u32)
    ensures FromLe32(Le32(v)) == v
  {
    var q: int := v / 256;
    var r: int := v / 65536;
    assert q / 256 == r && r / 256 == v / 16777216;
  }

  lemma Le32Image(s: seq<byte>)
    requires |s| == 4
    ensures Le32(FromLe32(s)) == s
  {
    var w := FromLe32(s);
    var b1, b2, b3: int := s[1], s[2], s[3];
    assert w / 256 == b1 + 256 * b2 + 65536 * b3;
    assert w / 65536 == b2 + 256 * b3;
  }

  lemma Le32Inverse(v: u32, s: seq<byte>)
    requires |s| == 4
    ensures FromLe32(Le32(v)) == v
    ensures Le32(FromLe32(s)) == s
  {
    Le32RoundTrip(v);
    Le32Image(s);
  }

  lemma Le64Inverse(v: u64, s: seq<byte>)
    requires |s| == 8
    ensures FromLe64(Le64(v)) == v
    ensures Le64(FromLe64(s)) == s
  {
    Le32Inverse(v % U32_SPAN, s[..4]);
    Le32Inverse(v / U32_SPAN, s[4..]);
    assert Le64(v)[..4] == Le32(v % U32_SPAN) && Le64(v)[4..] == Le32(v / U32_SPAN);
    var w := FromLe64(s);
    assert w % U32_SPAN == FromLe32(s[..4]) && w / U32_SPAN == FromLe32(s[4..]);
    assert s == s[..4] + s[4..];
  }

  // ----- Shape rules shared by both directions

  function ShapeError(len: u64, fragmentLen: nat, first: bool, last: bool, abort: bool): int {
    if abort then
      if first || last || fragmentLen != 0 then -EPROTO else 0
    else if len == 0 then
      if !first || !last || fragmentLen != 0 then -EPROTO else 0
    else if fragmentLen == 0 then -EPROTO
    else 0
  }

  function EncodeError(f: Frame): int {
    if f.id == 0 || |f.payload| > FRAGMENT_CAPACITY then -EPROTO
    else ShapeError(f.len, |f.payload|, f.first, f.last, f.abort)
  }

  predicate Encodable(f: Frame) {
    EncodeError(f) == 0
  }

  // ----- Slot images

  function Flags(f: Frame): byte {
    (if f.first then 1 else 0) + (if f.last then 2 else 0) + (if f.abort then 4 else 0)
  }

  function Header(f: Frame): (h: seq<byte>)
    requires |f.payload| <= FRAGMENT_CAPACITY
    ensures |h| == HEADER_LEN
  {
    [VERSION_V1, Flags(f)] + Le16(HEADER_LEN) + Le32(|f.payload|) + Le64(f.id) + Le64(f.len)
  }

  function Zeros(n: nat): (z: seq<byte>)
    ensures |z| == n
  {
    seq(n, _ => 0)
  }

  /** The slot that carries `f`: header, payload, zero padding. */
  function SlotOf(f: Frame): Slot
    requires |f.payload| <= FRAGMENT_CAPACITY
  {
    Header(f) + f.payload + Zeros(FRAGMENT_CAPACITY - |f.payload|)
  }

  function Decode(slot: Slot): Decoded {
    if slot[0] != VERSION_V1 then Malformed(-EPROTONOSUPPORT)
    else if slot[1] >= 8 then Malformed(-EPROTO)   // a flag bit outside FIRST | LAST | ABORT
    else if FromLe16(slot[2..4]) != HEADER_LEN then Malformed(-EPROTO)
    else
      var n := FromLe32(slot[4..8]);
      var id := FromLe64(slot[8..16]);
      var len := FromLe64(slot[16..24]);
      var first := slot[1] % 2 == 1;
      var last := slot[1] / 2 % 2 == 1;
      var abort := slot[1] / 4 % 2 == 1;
      if n > FRAGMENT_CAPACITY then Malformed(-EPROTO)
      else if id == 0 then Malformed(-EPROTO)
      else if ShapeError(len, n, first, last, abort) != 0 then Malformed(-EPROTO)
      else Good(Frame(id, len, first, last, abort, slot[24..24 + n]))
  }

  // ----- The codec is exact

  lemma HeaderFields(f: Frame)
    requires |f.payload| <= FRAGMENT_CAPACITY
    ensures var h := Header(f);
            && h[0] == VERSION_V1 && h[1] == Flags(f) && h[2..4] == Le16(HEADER_LEN)
            && h[4..8] == Le32(|f.payload|) && h[8..16] == Le64(f.id) && h[16..24] == Le64(f.len)
  {
  }

  lemma SlotFields(f: Frame)
    requires |f.payload| <= FRAGMENT_CAPACITY
    ensures var s := SlotOf(f);
            && s[0] == VERSION_V1 && s[1] == Flags(f) && s[2..4] == Le16(HEADER_LEN)
            && s[4..8] == Le32(|f.payload|) && s[8..16] == Le64(f.id) && s[16..24] == Le64(f.len)
            && s[24..24 + |f.payload|] == f.payload
            && s[24 + |f.payload|..] == Zeros(FRAGMENT_CAPACITY - |f.payload|)
  {
    HeaderFields(f);
    var h, s := Header(f), SlotOf(f);
    assert s[..24] == h;
    assert s[2..4] == h[2..4] && s[4..8] == h[4..8] && s[8..16] == h[8..16] && s[16..24] == h[16..24];
  }

  /** Decoding what was encoded gives back every field and every payload byte. */
  lemma DecodeAfterEncode(f: Frame)
    requires Encodable(f)
    ensures Decode(SlotOf(f)) == Good(f)
  {
    SlotFields(f);
    Le32Inverse(|f.payload|, [0, 0, 0, 0]);
    Le64Inverse(f.id, Zeros(8));
    Le64Inverse(f.len, Zeros(8));
  }

  lemma FlagsInverse(flags: byte, f: Frame)
    requires flags < 8
    requires f.first == (flags % 2 == 1) && f.last == (flags / 2 % 2 == 1) && f.abort == (flags / 4 % 2 == 1)
    ensures Flags(f) == flags
  {
  }

  lemma SameHeader(a: seq<byte>, b: seq<byte>)
    requires |a| >= 24 && |b| >= 24
    requires a[0] == b[0] && a[1] == b[1] && a[2..4] == b[2..4]
    requires a[4..8] == b[4..8] && a[8..16] == b[8..16] && a[16..24] == b[16..24]
    ensures a[..24] == b[..24]
  {
    forall i | 0 <= i < 24
      ensures a[i] == b[i]
    {
      if 2 <= i < 4 {
        assert a[i] == a[2..4][i - 2];
      } else if 4 <= i < 8 {
        assert a[i] == a[4..8][i - 4];
      } else if 8 <= i < 16 {
        assert a[i] == a[8..16][i - 8];
      } else if 16 <= i {
        assert a[i] == a[16..24][i - 16];
      }
    }
  }

  /** Whatever bytes a peer left in a slot, if they decode then the frame can be
      encoded, and encoding it reproduces the slot up to the padding. */
  lemma EncodeAfterDecode(slot: Slot)
    requires Decode(slot).Good?
    ensures var f := Decode(slot).frame;
            && Encodable(f)
            && SlotOf(f)[..24 + |f.payload|] == slot[..24 + |f.payload|]
            && SlotOf(f)[24 + |f.payload|..] == Zeros(232 - |f.payload|)
  {
    var f := Decode(slot).frame;
    var s := SlotOf(f);
    SlotFields(f);
    assert s[..24] == slot[..24] by {
      FlagsInverse(slot[1], f);
      Le32Inverse(0, slot[4..8]);
      Le64Inverse(0, slot[8..16]);
      Le64Inverse(0, slot[16..24]);
      assert s[2..4] == slot[2..4];
      SameHeader(s, slot);
    }
    var n := 24 + |f.payload|;
    assert s[..n] == s[..24] + s[24..n] && slot[..n] == slot[..24] + slot[24..n];
  }

  /** Two slots that agree on the header and on the fragment it announces. */
  predicate SameUpTo(slot: Slot, f: Frame)
    requires |f.payload| <= FRAGMENT_CAPACITY
  {
    slot[..24 + |f.payload|] == SlotOf(f)[..24 + |f.payload|]
  }

  /** Padding is ignored: any slot that begins with a frame's header and payload
      decodes to that frame. */
  lemma DecodeIgnoresPadding(slot: Slot, f: Frame)
    requires Encodable(f) && SameUpTo(slot, f)
    ensures Decode(slot) == Good(f)
  {
    var s, n := SlotOf(f), 24 + |f.payload|;
    DecodeAfterEncode(f);
    SlotFields(f);
    Le32Inverse(|f.payload|, [0, 0, 0, 0]);
    assert slot[0] == slot[..n][0] && slot[1] == slot[..n][1];
    assert slot[2..4] == slot[..n][2..4] && slot[4..8] == slot[..n][4..8];
    assert slot[8..16] == slot[..n][8..16] && slot[16..24] == slot[..n][16..24];
    assert slot[24..n] == slot[..n][24..n];
    assert s[2..4] == s[..n][2..4] && s[4..8] == s[..n][4..8];
    assert s[8..16] == s[..n][8..16] && s[16..24] == s[..n][16..24];
    assert s[24..n] == s[..n][24..n] && s[0] == s[..n][0] && s[1] == s[..n][1];
  }

  /** What decode answers, for every slot: -EPROTONOSUPPORT exactly for another version,
      a frame exactly when the slot begins with that frame's image, and -EPROTO for
      every other slot of this version. */
  lemma DecodeAnswers(slot: Slot)
    ensures Decode(slot) == Malformed(-EPROTONOSUPPORT) <==> slot[0] != 1
    ensures forall f :: Decode(slot) == Good(f) <==> Encodable(f) && SameUpTo(slot, f)
    ensures Decode(slot) == Malformed(-EPROTO) <==> slot[0] == 1 && !exists f :: Encodable(f) && SameUpTo(slot, f)
  {
    forall f
      ensures Decode(slot) == Good(f) <==> Encodable(f) && SameUpTo(slot, f)
    {
      if Decode(slot) == Good(f) {
        EncodeAfterDecode(slot);
      } else if Encodable(f) && SameUpTo(slot, f) {
        DecodeIgnoresPadding(slot, f);
      }
    }
  }

  /** Encode accepts exactly the frames that decode can produce. */
  lemma EncodableIffDecodable(f: Frame)
    ensures Encodable(f) <==> exists slot: Slot :: Decode(slot) == Good(f)
  {
    if Encodable(f) {
      DecodeAfterEncode(f);
    }
    forall slot: Slot | Decode(slot) == Good(f)
      ensures Encodable(f)
    {
      EncodeAfterDecode(slot);
    }
  }

  /** Two encodable frames never share a slot image. */
  lemma SlotOfInjective(f: Frame, g: Frame)
    requires Encodable(f) && Encodable(g) && SlotOf(f) == SlotOf(g)
    ensures f == g
  {
    DecodeAfterEncode(f);
    DecodeAfterEncode(g);
  }

  // ----- The in-place encoder

  method WriteLe32(slot: array<byte>, at: nat, v: u32)
    requires at + 4 <= slot.Length
    modifies slot
    ensures slot[..] == old(slot[..at]) + Le32(v) + old(slot[at + 4..])
  {
    slot[at] := v % 256;
    slot[at + 1] := v / 256 % 256;
    slot[at + 2] := v / 65536 % 256;
    slot[at + 3] := v / 16777216;
  }

  method WriteLe64(slot: array<byte>, at: nat, v: u64)
    requires at + 8 <= slot.Length
    modifies slot
    ensures slot[..] == old(slot[..at]) + Le64(v) + old(slot[at + 8..])
  {
    WriteLe32(slot, at, v % U32_SPAN);
    assert slot[..at + 4] == old(slot[..at]) + Le32(v % U32_SPAN);
    assert slot[at + 8..] == old(slot[at + 8..]);
    WriteLe32(slot, at + 4, v / U32_SPAN);
  }

  /** The stores between memset and memcpy. */
  method WriteHeader(slot: array<byte>, f: Frame)
    requires slot.Length == SLOT_SIZE && |f.payload| <= FRAGMENT_CAPACITY
    modifies slot
    ensures slot[..] == Header(f) + old(slot[24..])
  {
    slot[0] := VERSION_V1;
    slot[1] := Flags(f);
    slot[2] := HEADER_LEN % 256;
    slot[3] := HEADER_LEN / 256;
    ghost var top := [VERSION_V1, Flags(f)] + Le16(HEADER_LEN);
    assert slot[..4] == top && slot[24..] == old(slot[24..]);
    WriteLe32(slot, 4, |f.payload|);
    assert slot[..8] == top + Le32(|f.payload|) && slot[24..] == old(slot[24..]);
    WriteLe64(slot, 8, f.id);
    assert slot[..16] == top + Le32(|f.payload|) + Le64(f.id) && slot[24..] == old(slot[24..]);
    WriteLe64(slot, 16, f.len);
    assert slot[24..] == old(slot[24..]);
  }

  method CopyIn(slot: array<byte>, at: nat, bytes: seq<byte>)
    requires at + |bytes| <= slot.Length
    modifies slot
    ensures slot[..] == old(slot[..at]) + bytes + old(slot[at + |bytes|..])
  {
    for k := 0 to |bytes|
      invariant forall j :: 0 <= j < k ==> slot[at + j] == bytes[j]
      invariant forall j :: 0 <= j < slot.Length && !(at <= j < at + k) ==> slot[j] == old(slot[j])
    {
      slot[at + k] := bytes[k];
    }
  }

  method EncodeFrame(slot: array<byte>, f: Frame) returns (err: int)
    requires slot.Length == SLOT_SIZE
    modifies slot
    ensures err == EncodeError(f)
    ensures err == 0 ==> slot[..] == SlotOf(f)
    ensures err != 0 ==> slot[..] == old(slot[..])
  {
    if f.id == 0 || |f.payload| > FRAGMENT_CAPACITY {
      return -EPROTO;
    }
    err := ShapeError(f.len, |f.payload|, f.first, f.last, f.abort);
    if err != 0 {
      return err;
    }
    forall i | 0 <= i < SLOT_SIZE {
      slot[i] := 0;
    }
    assert slot[24..] == Zeros(232);
    WriteHeader(slot, f);
    ghost var n := 24 + |f.payload|;
    assert slot[..24] == Header(f) && slot[n..] == Zeros(256 - n);
    CopyIn(slot, 24, f.payload);
  }
}
