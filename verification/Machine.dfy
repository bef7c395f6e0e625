/** Fixed-width integers and the kernel's errno numbers.  Every operation that
    can wrap in the C code spells its wrap-around out where it happens. */
module Machine {
  type byte = x: int | 0 <= x < 0x100
  type u16 = x: int | 0 <= x < 0x1_0000
  type u32 = x: int | 0 <= x < 0x1_0000_0000
  type u64 = x: int | 0 <= x < 0x1_0000_0000_0000_0000

  const U32_SPAN: int := 0x1_0000_0000
  const U64_MAX: u64 := 0xFFFF_FFFF_FFFF_FFFF

  const ENOENT := 2
  const EINTR := 4
  const EAGAIN := 11
  const EFAULT := 14
  const EBUSY := 16
  const ENODEV := 19
  const EINVAL := 22
  const ENOSPC := 28
  const EPIPE := 32
  const ENOMSG := 42
  const EPROTO := 71
  const EOVERFLOW := 75
  const EMSGSIZE := 90
  const EPROTONOSUPPORT := 93
  const EOPNOTSUPP := 95
  const ECONNRESET := 104
  const ETIMEDOUT := 110
  const ERESTARTSYS := 512

  /** The reasons to give a message up half way: a copy fault, a timeout, a signal. */
  predicate IsCancel(err: int) {
    err == -EFAULT || err == -ETIMEDOUT || err == -ERESTARTSYS
  }

  /** The parts of the model that keep an invariant folded away. */
  datatype Part = RingPart | SenderPart | SendingPart | ReplayPart | LoopPart | BatchPart | WindowPart | HeadPart | SessionPart

  /** Always true.  `forall n :: Inside(part, n) ==> P` is P, but a proof unfolds P
      only where it mentions Inside for that part. */
  predicate Inside(part: Part, n: nat) {
    true
  }

  function Min(a: nat, b: nat): (m: nat)
    ensures m <= a && m <= b && (m == a || m == b)
  {
    if a <= b then a else b
  }

  lemma DropDrop<T>(s: seq<T>, a: nat, b: nat)
    requires a + b <= |s|
    ensures s[a..][b..] == s[a + b..]
  {
  }

  lemma TakeOfSnoc<T>(s: seq<T>, x: T, k: nat)
    requires k <= |s|
    ensures (s + [x])[..k] == s[..k]
  {
  }

  /** `part` is what `whole` holds from position `at` on. */
  ghost predicate Window<T>(part: seq<T>, whole: seq<T>, at: nat) {
    at + |part| <= |whole| && forall n :: Inside(WindowPart, n) ==> part == whole[at..at + |part|]
  }

  lemma WindowIsSlice<T>(part: seq<T>, whole: seq<T>, at: nat)
    requires Window(part, whole, at)
    ensures part == whole[at..at + |part|]
  {
    assert Inside(WindowPart, 0);
  }

  lemma WindowSnoc<T>(part: seq<T>, whole: seq<T>, at: nat)
    requires Window(part, whole, at) && at + |part| < |whole|
    ensures Window(part + [whole[at + |part|]], whole, at)
  {
    WindowIsSlice(part, whole, at);
  }

  lemma WindowGrows<T>(part: seq<T>, whole: seq<T>, more: seq<T>, at: nat)
    requires Window(part, whole, at) && whole <= more
    ensures Window(part, more, at)
  {
    WindowIsSlice(part, whole, at);
  }

  /** Two windows from the same position: the longer begins with the shorter. */
  lemma WindowSplits<T>(first: seq<T>, part: seq<T>, whole: seq<T>, at: nat)
    requires Window(first, whole, at) && Window(part, whole, at) && |first| <= |part|
    ensures part == first + whole[at + |first|..][..|part| - |first|]
  {
    WindowIsSlice(first, whole, at);
    WindowIsSlice(part, whole, at);
  }
}
