/** The single-producer single-consumer ring (ivc/ring.c) as two programs that
    take atomic steps in any order: every load of a shared counter, every copied
    byte and every store of a counter is one step, so each side acts on a stale
    view of the other.  Steps are sequentially consistent. */
module RingSteps {
  import opened Machine
  import opened Wire

  const CAPACITY := 32

  /** Where the producer stands inside axivc_ring_try_push_slot. */
  datatype Producer =
    | Ready
    | TailLoaded(slot: Slot, tail: u32)
    | Copying(slot: Slot, tail: u32, done: nat)

  /** Where the consumer stands inside axivc_ring_try_peek_slot and axivc_ring_pop_slot. */
  datatype Consumer =
    | Resting
    | HeadLoaded(head: u32)
    | Reading(head: u32, bytes: seq<byte>)
    | Holding(slot: Slot)
    | Releasing(head: u32)

  /** `pushed` and `popped` are history: every slot ever published, and how many
      of them have been released.  No step's enabledness or effect on the shared
      words depends on them. */
  datatype State = State(
    head: u32, tail: u32, slots: seq<Slot>,
    producer: Producer, consumer: Consumer,
    pushed: seq<Slot>, popped: nat)

  datatype Action =
    | BeginPush(slot: Slot) | LoadHead | CopyByteIn | StoreTail
    | BeginPeek | LoadTail | CopyByteOut | EndPeek | DropPeek | BeginPop | StoreHead

  /** What a finished ring call tells its caller. */
  datatype Effect = Silent | Pushed(slot: Slot) | Refused | Peeked(slot: Slot) | SawEmpty | Popped

  const FRESH := State(0, 0, seq(CAPACITY, _ => Zeros(SLOT_SIZE)), Ready, Resting, [], 0)

  predicate WellFormed(s: State) {
    && |s.slots| == CAPACITY
    && (s.producer.Copying? ==> s.producer.done <= SLOT_SIZE)
    && (s.consumer.Reading? ==> |s.consumer.bytes| <= SLOT_SIZE)
  }

  predicate Enabled(s: State, a: Action) {
    match a
    case BeginPush(_) => s.producer.Ready?
    case LoadHead => s.producer.TailLoaded?
    case CopyByteIn => s.producer.Copying? && s.producer.done < SLOT_SIZE
    case StoreTail => s.producer.Copying? && s.producer.done == SLOT_SIZE
    case BeginPeek => s.consumer.Resting?
    case LoadTail => s.consumer.HeadLoaded?
    case CopyByteOut => s.consumer.Reading? && |s.consumer.bytes| < SLOT_SIZE
    case EndPeek => s.consumer.Reading? && |s.consumer.bytes| == SLOT_SIZE
    case DropPeek => s.consumer.Holding?
    case BeginPop => s.consumer.Holding?
    case StoreHead => s.consumer.Releasing?
  }

  function Step(s: State, a: Action): (t: State)
    requires WellFormed(s) && Enabled(s, a)
    ensures WellFormed(t)
  {
    match a
    case BeginPush(slot) => s.(producer := TailLoaded(slot, s.tail))
    case LoadHead =>
      if (s.producer.tail - s.head) % U32_SPAN >= CAPACITY
      then s.(producer := Ready)
      else s.(producer := Copying(s.producer.slot, s.producer.tail, 0))
    case CopyByteIn =>
      var i, k := s.producer.tail % CAPACITY, s.producer.done;
      s.(slots := s.slots[i := s.slots[i][k := s.producer.slot[k]]],
         producer := s.producer.(done := k + 1))
    case StoreTail =>
      s.(tail := (s.producer.tail + 1) % U32_SPAN, producer := Ready, pushed := s.pushed + [s.producer.slot])
    case BeginPeek => s.(consumer := HeadLoaded(s.head))
    case LoadTail =>
      if s.consumer.head == s.tail
      then s.(consumer := Resting)
      else s.(consumer := Reading(s.consumer.head, []))
    case CopyByteOut =>
      var i, k := s.consumer.head % CAPACITY, |s.consumer.bytes|;
      s.(consumer := s.consumer.(bytes := s.consumer.bytes + [s.slots[i][k]]))
    case EndPeek => s.(consumer := Holding(s.consumer.bytes))
    case DropPeek => s.(consumer := Resting)
    case BeginPop => s.(consumer := Releasing(s.head))
    case StoreHead => s.(head := (s.consumer.head + 1) % U32_SPAN, consumer := Resting, popped := s.popped + 1)
  }

  function EffectOf(s: State, a: Action): Effect
    requires WellFormed(s) && Enabled(s, a)
  {
    match a
    case LoadHead => if Step(s, a).producer.Ready? then Refused else Silent
    case StoreTail => Pushed(s.producer.slot)
    case LoadTail => if Step(s, a).consumer.Resting? then SawEmpty else Silent
    case EndPeek => Peeked(s.consumer.bytes)
    case StoreHead => Popped
    case _ => Silent
  }

  // ----- The specification: a queue of at most 32 slots with atomic operations

  function Contents(s: State): seq<Slot>
    requires s.popped <= |s.pushed|
  {
    s.pushed[s.popped..]
  }

  ghost predicate FifoStep(q: seq<Slot>, e: Effect, r: seq<Slot>) {
    match e
    case Silent => r == q
    case Pushed(x) => |q| < CAPACITY && r == q + [x]
    case Refused => |q| == CAPACITY && r == q
    case Peeked(x) => |q| > 0 && x == q[0] && r == q
    case SawEmpty => q == [] && r == q
    case Popped => |q| > 0 && r == q[1..]
  }

  // ----- Invariant

  /** The slots published and not yet released sit at their index modulo 32. */
  ghost predicate Stored(s: State)
    requires WellFormed(s)
  {
    forall k :: s.popped <= k < |s.pushed| ==> s.slots[k % CAPACITY] == s.pushed[k]
  }

  ghost predicate ProducerOk(s: State)
    requires WellFormed(s)
  {
    match s.producer
    case Ready => true
    case TailLoaded(_, t) => t == s.tail
    case Copying(slot, t, done) =>
      && t == s.tail
      && |s.pushed| - s.popped < CAPACITY
      && forall b :: 0 <= b < done ==> s.slots[t % CAPACITY][b] == slot[b]
  }

  ghost predicate ConsumerOk(s: State)
  {
    match s.consumer
    case Resting => true
    case HeadLoaded(h) => h == s.head
    case Reading(h, bytes) => h == s.head && s.popped < |s.pushed| && bytes <= s.pushed[s.popped]
    case Holding(slot) => s.popped < |s.pushed| && slot == s.pushed[s.popped]
    case Releasing(h) => h == s.head && s.popped < |s.pushed|
  }

  ghost predicate Counted(s: State) {
    && s.popped <= |s.pushed| <= s.popped + CAPACITY
    && s.head == s.popped % U32_SPAN
    && s.tail == |s.pushed| % U32_SPAN
  }

  ghost predicate Inv(s: State) {
    WellFormed(s) && Counted(s) && Stored(s) && ProducerOk(s) && ConsumerOk(s)
  }

  lemma WrappedDifference(a: nat, b: nat)
    requires b <= a < b + U32_SPAN
    ensures (a % U32_SPAN - b % U32_SPAN) % U32_SPAN == a - b
  {
    var qa, qb := a / U32_SPAN, b / U32_SPAN;
    assert a % U32_SPAN - b % U32_SPAN == a - b - U32_SPAN * (qa - qb);
    assert qa == qb || qa == qb + 1;
  }

  lemma WrappedSuccessor(a: nat)
    ensures (a % U32_SPAN + 1) % U32_SPAN == (a + 1) % U32_SPAN
  {
  }

  lemma WrappedIndex(a: nat)
    ensures a % U32_SPAN % CAPACITY == a % CAPACITY
  {
    var q := a / U32_SPAN;
    assert a == a % U32_SPAN + CAPACITY * (134217728 * q);
  }

  lemma DistinctIndices(k: nat, t: nat)
    requires k < t < k + CAPACITY
    ensures k % CAPACITY != t % CAPACITY
  {
  }

  /** The counters a caller computes with are exact: the difference of the two
      wrapped words is the true number of slots in flight, at most 32, and the
      words are equal exactly when the ring is empty. */
  lemma CounterTruth(s: State)
    requires Inv(s)
    ensures (s.tail - s.head) % U32_SPAN == |Contents(s)| <= CAPACITY
    ensures s.head == s.tail <==> Contents(s) == []
    ensures s.tail % CAPACITY == |s.pushed| % CAPACITY
    ensures s.head % CAPACITY == s.popped % CAPACITY
  {
    WrappedDifference(|s.pushed|, s.popped);
    WrappedIndex(|s.pushed|);
    WrappedIndex(s.popped);
  }

  /** A producer copy and a consumer copy in progress at the same time never
      touch the same slot, and no byte the producer writes lands in a slot that
      is published and not yet released. */
  lemma CopiesAreDisjoint(s: State, k: nat)
    requires Inv(s) && s.producer.Copying? && s.popped <= k < |s.pushed|
    ensures s.producer.tail % CAPACITY != k % CAPACITY
    ensures s.consumer.Reading? ==> s.producer.tail % CAPACITY != s.consumer.head % CAPACITY
  {
    CounterTruth(s);
    DistinctIndices(k, |s.pushed|);
    if s.consumer.Reading? {
      DistinctIndices(s.popped, |s.pushed|);
    }
  }

  lemma CopyInKeepsInv(s: State)
    requires Inv(s) && Enabled(s, CopyByteIn)
    ensures Inv(Step(s, CopyByteIn))
  {
    var t := Step(s, CopyByteIn);
    forall k | t.popped <= k < |t.pushed|
      ensures t.slots[k % CAPACITY] == t.pushed[k]
    {
      CopiesAreDisjoint(s, k);
    }
  }

  lemma StoreTailKeepsInv(s: State)
    requires Inv(s) && Enabled(s, StoreTail)
    ensures Inv(Step(s, StoreTail))
  {
    CounterTruth(s);
    WrappedSuccessor(|s.pushed|);
    var t := Step(s, StoreTail);
    assert s.slots[s.tail % CAPACITY] == s.producer.slot;
    forall k | t.popped <= k < |t.pushed|
      ensures t.slots[k % CAPACITY] == t.pushed[k]
    {
      if k < |s.pushed| {
        assert t.pushed[k] == s.pushed[k];
      }
    }
  }

  lemma ConsumerKeepsInv(s: State, a: Action)
    requires Inv(s) && Enabled(s, a)
    requires a.BeginPeek? || a.LoadTail? || a.CopyByteOut? || a.EndPeek? || a.DropPeek? || a.BeginPop? || a.StoreHead?
    ensures Inv(Step(s, a))
  {
    CounterTruth(s);
    WrappedSuccessor(s.popped);
  }

  lemma StepKeepsInv(s: State, a: Action)
    requires Inv(s) && Enabled(s, a)
    ensures Inv(Step(s, a))
  {
    match a
    case BeginPush(_) =>
    case LoadHead => CounterTruth(s);
    case CopyByteIn => CopyInKeepsInv(s);
    case StoreTail => StoreTailKeepsInv(s);
    case _ => ConsumerKeepsInv(s, a);
  }

  /** Every step is a step of the queue: its effect is what the atomic operation
      would have answered, in the very state where the step happens. */
  lemma StepRefinesFifo(s: State, a: Action)
    requires Inv(s) && Enabled(s, a)
    ensures FifoStep(Contents(s), EffectOf(s, a), Contents(Step(s, a)))
  {
    CounterTruth(s);
    StepKeepsInv(s, a);
  }

  // ----- Whole runs

  ghost predicate Possible(s: State, run: seq<Action>)
    requires WellFormed(s)
    decreases |run|
  {
    run != [] ==> Enabled(s, run[0]) && Possible(Step(s, run[0]), run[1..])
  }

  ghost function Final(s: State, run: seq<Action>): State
    requires WellFormed(s) && Possible(s, run)
    decreases |run|
  {
    if run == [] then s else Final(Step(s, run[0]), run[1..])
  }

  ghost function Effects(s: State, run: seq<Action>): seq<Effect>
    requires WellFormed(s) && Possible(s, run)
    decreases |run|
  {
    if run == [] then [] else [EffectOf(s, run[0])] + Effects(Step(s, run[0]), run[1..])
  }

  /** `trace` is a history of the atomic queue that starts at `q` and ends at `r`. */
  ghost predicate FifoHistory(q: seq<Slot>, trace: seq<Effect>, r: seq<Slot>)
    decreases |trace|
  {
    if trace == [] then r == q
    else exists m :: FifoStep(q, trace[0], m) && FifoHistory(m, trace[1..], r)
  }

  lemma {:induction false} RunRefinesFifo(s: State, run: seq<Action>)
    requires Inv(s) && Possible(s, run)
    ensures Inv(Final(s, run))
    ensures FifoHistory(Contents(s), Effects(s, run), Contents(Final(s, run)))
    decreases |run|
  {
    if run != [] {
      StepKeepsInv(s, run[0]);
      StepRefinesFifo(s, run[0]);
      var t := Step(s, run[0]);
      RunRefinesFifo(t, run[1..]);
      assert Effects(s, run)[1..] == Effects(t, run[1..]);
    }
  }

  /** Any interleaving of the two programs on a freshly initialised ring, however
      often the counters wrap, is a history of a queue of at most 32 slots. */
  lemma RingRefinesFifo(run: seq<Action>)
    requires Possible(FRESH, run)
    ensures Inv(Final(FRESH, run))
    ensures FifoHistory([], Effects(FRESH, run), Contents(Final(FRESH, run)))
  {
    assert Contents(FRESH) == [];
    RunRefinesFifo(FRESH, run);
  }
}
