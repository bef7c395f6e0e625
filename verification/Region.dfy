/** Publication of the shared region (ivc/region.c): the publisher's ordered stores
    against a subscriber's ordered loads, interleaved one word at a time on a region
    that may hold anything to begin with.  Steps are sequentially consistent. */
module Region {
  import opened Machine
  import RingSteps

  const REGION_MAGIC := 0x49564332
  const REGION_VERSION := 3
  const HEADER_SIZE := 32
  const REGION_SIZE := 17152
  const RING_SIZE := 8448
  const RING_CAPACITY := 32
  const SLOT_BYTES := 256

  /** The ring from publisher to subscriber, and the one back. */
  datatype Lane = Down | Up

  datatype Field =
    | PublisherId | Key
    | Magic | Version | HeaderSize | RegionSize | Features | DownOffset | UpOffset | RingSize
    | Direction(lane: Lane) | Capacity(lane: Lane) | SlotSize(lane: Lane)
    | Head(lane: Lane) | Tail(lane: Lane) | SlotByte(lane: Lane, at: nat)

  type Memory = Field -> int

  function Write(m: Memory, f: Field, v: int): Memory {
    g => if g == f then v else m(g)
  }

  // ----- axivc_region_init_publisher, store by store

  datatype Store = Store(field: Field, value: int)

  /** axivc_ring_initialize is 8197 stores: three layout words, head, every slot byte, tail. */
  const RING_STORES := 8197
  const HEADER_STORES := 3 + 2 * RING_STORES
  const STORES := HEADER_STORES + 8

  function DirectionOf(lane: Lane): int {
    if lane == Down then 1 else 2
  }

  function RingStore(lane: Lane, j: nat): Store {
    if j == 0 then Store(Direction(lane), DirectionOf(lane))
    else if j == 1 then Store(Capacity(lane), RING_CAPACITY)
    else if j == 2 then Store(SlotSize(lane), SLOT_BYTES)
    else if j == 3 then Store(Head(lane), 0)
    else if j < RING_STORES - 1 then Store(SlotByte(lane, j - 4), 0)
    else Store(Tail(lane), 0)
  }

  /** The k-th store; `id` and `key` are the values loaded from the region before the first. */
  function InitStore(k: nat, id: u64, key: u64): Store {
    if k == 0 then Store(Magic, 0)
    else if k == 1 then Store(PublisherId, id)
    else if k == 2 then Store(Key, key)
    else if k < 3 + RING_STORES then RingStore(Down, k - 3)
    else if k < HEADER_STORES then RingStore(Up, k - 3 - RING_STORES)
    else if k == HEADER_STORES then Store(HeaderSize, HEADER_SIZE)
    else if k == HEADER_STORES + 1 then Store(RegionSize, REGION_SIZE)
    else if k == HEADER_STORES + 2 then Store(Features, 1)
    else if k == HEADER_STORES + 3 then Store(DownOffset, 256)
    else if k == HEADER_STORES + 4 then Store(UpOffset, 8704)
    else if k == HEADER_STORES + 5 then Store(RingSize, RING_SIZE)
    else if k == HEADER_STORES + 6 then Store(Version, REGION_VERSION)
    else Store(Magic, REGION_MAGIC)
  }

  // ----- axivc_region_validate, load by load

  datatype Test = Equals(value: int) | AtLeast(value: int) | LowBitSet

  datatype Check = Check(field: Field, test: Test, error: int)

  const CHECKS := 16

  function CheckAt(k: nat, id: u64, key: u64): Check
    requires k < CHECKS
  {
    if k == 0 then Check(PublisherId, Equals(id), -EINVAL)
    else if k == 1 then Check(Key, Equals(key), -EINVAL)
    else if k == 2 then Check(Magic, Equals(REGION_MAGIC), -EAGAIN)
    else if k == 3 then Check(Version, Equals(REGION_VERSION), -EPROTO)
    else if k == 4 then Check(HeaderSize, Equals(HEADER_SIZE), -EPROTO)
    else if k == 5 then Check(RegionSize, AtLeast(REGION_SIZE), -EPROTO)
    else if k == 6 then Check(Features, LowBitSet, -EPROTO)
    else if k == 7 then Check(DownOffset, Equals(256), -EPROTO)
    else if k == 8 then Check(UpOffset, Equals(8704), -EPROTO)
    else if k == 9 then Check(RingSize, Equals(RING_SIZE), -EPROTO)
    else if k == 10 then Check(Direction(Down), Equals(1), -EPROTO)
    else if k == 11 then Check(Capacity(Down), Equals(RING_CAPACITY), -EPROTO)
    else if k == 12 then Check(SlotSize(Down), Equals(SLOT_BYTES), -EPROTO)
    else if k == 13 then Check(Direction(Up), Equals(2), -EPROTO)
    else if k == 14 then Check(Capacity(Up), Equals(RING_CAPACITY), -EPROTO)
    else Check(SlotSize(Up), Equals(SLOT_BYTES), -EPROTO)
  }

  predicate Passes(t: Test, v: int) {
    match t
    case Equals(x) => v == x
    case AtLeast(x) => v >= x
    case LowBitSet => v % 2 == 1
  }

  // ----- Both programs on one memory

  datatype Publisher = Waiting | Storing(next: nat, id: u64, key: u64) | Refused(error: int)

  /** `magicAt` is history: how many of the publisher's stores had been made when
      the magic word was loaded. */
  datatype Subscriber = Away | Checking(next: nat, id: u64, key: u64, magicAt: nat) | Returned(code: int, magicAt: nat)

  datatype World = World(mem: Memory, publisher: Publisher, subscriber: Subscriber)

  datatype Action =
    | BeginInit(shmSize: nat, channelKey: u64)
    | StoreNext
    | BeginValidate(shmSize: nat, id: u64, key: u64)
    | LoadNext
    | UseRing(field: Field, value: int)   // a push or pop by either side

  predicate IsRingUse(f: Field) {
    f.Head? || f.Tail? || f.SlotByte?
  }

  predicate Published(p: Publisher) {
    p.Storing? && p.next == STORES
  }

  function StoresDone(p: Publisher): nat {
    if p.Storing? then p.next else 0
  }

  predicate Enabled(w: World, a: Action) {
    match a
    case BeginInit(_, _) => w.publisher.Waiting? && 0 <= w.mem(PublisherId) <= U64_MAX && 0 <= w.mem(Key) <= U64_MAX
    case StoreNext => w.publisher.Storing? && w.publisher.next < STORES
    case BeginValidate(_, _, _) => w.subscriber.Away?
    case LoadNext => w.subscriber.Checking? && w.subscriber.next < CHECKS
    case UseRing(f, _) => IsRingUse(f) && Published(w.publisher)
  }

  function Step(w: World, a: Action): World
    requires Enabled(w, a)
  {
    match a
    case BeginInit(shmSize, channelKey) =>
      if shmSize < REGION_SIZE then w.(publisher := Refused(-EINVAL))
      else if w.mem(Key) != channelKey then w.(publisher := Refused(-EPROTO))
      else w.(publisher := Storing(0, w.mem(PublisherId), w.mem(Key)))
    case StoreNext =>
      var Storing(k, id, key) := w.publisher;
      var s := InitStore(k, id, key);
      w.(mem := Write(w.mem, s.field, s.value), publisher := Storing(k + 1, id, key))
    case BeginValidate(shmSize, id, key) =>
      w.(subscriber := if shmSize < REGION_SIZE then Returned(-EINVAL, 0) else Checking(0, id, key, 0))
    case LoadNext =>
      var Checking(k, id, key, at) := w.subscriber;
      var c := CheckAt(k, id, key);
      var magicAt := if c.field == Magic then StoresDone(w.publisher) else at;
      if !Passes(c.test, w.mem(c.field)) then w.(subscriber := Returned(c.error, magicAt))
      else if k + 1 == CHECKS then w.(subscriber := Returned(0, magicAt))
      else w.(subscriber := Checking(k + 1, id, key, magicAt))
    case UseRing(f, v) => w.(mem := Write(w.mem, f, v))
  }

  // ----- What the stores leave behind

  predicate IsLayout(f: Field) {
    !IsRingUse(f) && f != Magic
  }

  /** Which store writes a layout word, and what it writes. */
  function StoreOf(f: Field): nat
    requires IsLayout(f)
  {
    match f
    case PublisherId => 1
    case Key => 2
    case HeaderSize => HEADER_STORES
    case RegionSize => HEADER_STORES + 1
    case Features => HEADER_STORES + 2
    case DownOffset => HEADER_STORES + 3
    case UpOffset => HEADER_STORES + 4
    case RingSize => HEADER_STORES + 5
    case Version => HEADER_STORES + 6
    case Direction(lane) => if lane == Down then 3 else 3 + RING_STORES
    case Capacity(lane) => if lane == Down then 4 else 4 + RING_STORES
    case SlotSize(lane) => if lane == Down then 5 else 5 + RING_STORES
  }

  lemma LayoutStoredOnce(k: nat, f: Field, id: u64, key: u64)
    requires IsLayout(f) && k < STORES
    ensures InitStore(k, id, key).field == f <==> k == StoreOf(f)
    ensures InitStore(k, id, key).field == Magic <==> k == 0 || k == STORES - 1
  {
  }

  ghost predicate LayoutOk(w: World) {
    w.publisher.Storing? ==>
      var Storing(n, id, key) := w.publisher;
      && n <= STORES
      && (forall f | IsLayout(f) :: StoreOf(f) < n ==> w.mem(f) == InitStore(StoreOf(f), id, key).value)
      && w.mem(PublisherId) == id && w.mem(Key) == key
      && (n == STORES ==> w.mem(Magic) == REGION_MAGIC)
      && (0 < n < STORES ==> w.mem(Magic) == 0)
  }

  ghost predicate SubscriberOk(w: World) {
    match w.subscriber
    case Away => true
    case Checking(k, _, _, at) =>
      && k < CHECKS && at <= StoresDone(w.publisher)
      && (k > 2 && at > 0 ==> at == STORES)
      && (k <= 2 ==> at == 0)
    case Returned(code, at) =>
      && at <= StoresDone(w.publisher)
      && (code == 0 && at > 0 ==> at == STORES)
      && (0 < at < STORES ==> code == -EAGAIN)
      && (code == -EAGAIN ==> at < STORES)
      && (code == -EINVAL ==> at == 0)
  }

  ghost predicate Inv(w: World) {
    LayoutOk(w) && SubscriberOk(w)
  }

  lemma StoreKeepsLayout(w: World)
    requires LayoutOk(w) && Enabled(w, StoreNext)
    ensures LayoutOk(Step(w, StoreNext))
  {
    var Storing(k, id, key) := w.publisher;
    var t := Step(w, StoreNext);
    forall f | IsLayout(f)
      ensures StoreOf(f) < k + 1 ==> t.mem(f) == InitStore(StoreOf(f), id, key).value
    {
      LayoutStoredOnce(k, f, id, key);
    }
    LayoutStoredOnce(k, PublisherId, id, key);
    LayoutStoredOnce(k, Key, id, key);
  }

  lemma StepKeepsInv(w: World, a: Action)
    requires Inv(w) && Enabled(w, a)
    ensures Inv(Step(w, a))
  {
    if a.StoreNext? {
      StoreKeepsLayout(w);
    }
  }

  // ----- Whole runs

  ghost predicate Possible(w: World, run: seq<Action>)
    decreases |run|
  {
    run != [] ==> Enabled(w, run[0]) && Possible(Step(w, run[0]), run[1..])
  }

  ghost function Final(w: World, run: seq<Action>): World
    requires Possible(w, run)
    decreases |run|
  {
    if run == [] then w else Final(Step(w, run[0]), run[1..])
  }

  lemma {:induction false} RunKeepsInv(w: World, run: seq<Action>)
    requires Inv(w) && Possible(w, run)
    ensures Inv(Final(w, run))
    decreases |run|
  {
    if run != [] {
      StepKeepsInv(w, run[0]);
      RunKeepsInv(Step(w, run[0]), run[1..]);
    }
  }

  /** Every layout word of the header and of both rings is as initialised. */
  ghost predicate Initialised(w: World) {
    && Published(w.publisher)
    && w.mem(Magic) == REGION_MAGIC
    && forall f | IsLayout(f) :: w.mem(f) == InitStore(StoreOf(f), w.publisher.id, w.publisher.key).value
  }

  /** Whatever stale bytes the region held: a validate that loaded the magic word
      after it was cleared, and that accepts, loaded it after the publisher's very
      last store, so both rings and every header field were already initialised. */
  lemma AcceptedMeansInitialised(mem: Memory, run: seq<Action>)
    requires Possible(World(mem, Waiting, Away), run)
    ensures var w := Final(World(mem, Waiting, Away), run);
            w.subscriber.Returned? && w.subscriber.code == 0 && w.subscriber.magicAt > 0 ==>
              w.subscriber.magicAt == STORES && Initialised(w)
  {
    RunKeepsInv(World(mem, Waiting, Away), run);
    var w := Final(World(mem, Waiting, Away), run);
    if Published(w.publisher) {
      AllStoredIsInitialised(w);
    }
  }

  /** A validate that gets as far as the magic word while the publisher is storing is
      told to try again, which is the one answer on which a subscriber does; and it
      is never told so once it loaded magic after the last store. */
  lemma RacingValidateRetries(mem: Memory, run: seq<Action>)
    requires Possible(World(mem, Waiting, Away), run)
    ensures var w := Final(World(mem, Waiting, Away), run);
            w.subscriber.Returned? ==>
              && (0 < w.subscriber.magicAt < STORES ==> w.subscriber.code == -EAGAIN)
              && (w.subscriber.magicAt == STORES ==> w.subscriber.code != -EAGAIN && w.subscriber.code != -EINVAL)
  {
    RunKeepsInv(World(mem, Waiting, Away), run);
  }

  /** A subscriber about to load magic between the clear and the last store. */
  lemma RacingLoadRetries(w: World)
    requires Inv(w) && w.publisher.Storing? && 0 < w.publisher.next < STORES
    requires w.subscriber.Checking? && w.subscriber.next == 2
    ensures Step(w, LoadNext).subscriber == Returned(-EAGAIN, w.publisher.next)
  {
  }

  lemma AllStoredIsInitialised(w: World)
    requires Inv(w) && Published(w.publisher)
    ensures Initialised(w)
  {
  }

  /** A published region passes every check, for its own publisher and key. */
  lemma InitialisedPasses(w: World, k: nat)
    requires Initialised(w) && k < CHECKS && w.mem(PublisherId) == w.publisher.id && w.mem(Key) == w.publisher.key
    ensures var c := CheckAt(k, w.publisher.id, w.publisher.key); Passes(c.test, w.mem(c.field))
  {
    var c := CheckAt(k, w.publisher.id, w.publisher.key);
    if c.field != Magic {
      assert IsLayout(c.field);
    }
  }

  predicate ForThisPublisher(w: World)
    requires w.publisher.Storing?
  {
    match w.subscriber
    case Away => true
    case Checking(_, id, key, _) => id == w.publisher.id && key == w.publisher.key
    case Returned(code, _) => code == 0
  }

  /** Once init has finished, a validate of a large enough region for the preserved
      publisher id and key never fails, however the rings are used meanwhile. */
  lemma {:induction false} PublishedStaysValid(w: World, run: seq<Action>)
    requires Inv(w) && Published(w.publisher) && Possible(w, run) && ForThisPublisher(w)
    requires forall i :: 0 <= i < |run| && run[i].BeginValidate? ==>
               run[i].shmSize >= REGION_SIZE && run[i].id == w.publisher.id && run[i].key == w.publisher.key
    ensures var t := Final(w, run);
            t.publisher == w.publisher && (t.subscriber.Returned? ==> t.subscriber.code == 0)
    decreases |run|
  {
    if run != [] {
      StepKeepsInv(w, run[0]);
      if run[0].LoadNext? {
        AllStoredIsInitialised(w);
        InitialisedPasses(w, w.subscriber.next);
      }
      PublishedStaysValid(Step(w, run[0]), run[1..]);
    }
  }

  function Loads(n: nat): seq<Action> {
    seq(n, _ => LoadNext)
  }

  /** A subscriber left alone finishes, and accepts if every remaining check passes. */
  lemma {:induction false} LoadsFinish(w: World)
    requires w.subscriber.Checking? && w.subscriber.next < CHECKS
    requires forall j :: w.subscriber.next <= j < CHECKS ==>
               var c := CheckAt(j, w.subscriber.id, w.subscriber.key); Passes(c.test, w.mem(c.field))
    ensures var rest := Loads(CHECKS - w.subscriber.next);
            && Possible(w, rest)
            && Final(w, rest) == w.(subscriber := Returned(0, if w.subscriber.next <= 2 then StoresDone(w.publisher) else w.subscriber.magicAt))
    decreases CHECKS - w.subscriber.next
  {
    var rest := Loads(CHECKS - w.subscriber.next);
    var t := Step(w, LoadNext);
    if w.subscriber.next + 1 < CHECKS {
      LoadsFinish(t);
      assert rest[1..] == Loads(CHECKS - t.subscriber.next);
    } else {
      assert rest[1..] == [];
    }
  }

  /** The published region is accepted by a fresh validate after its 16 loads. */
  lemma PublishedIsAccepted(w: World, shmSize: nat)
    requires Inv(w) && Published(w.publisher) && w.subscriber.Away? && shmSize >= REGION_SIZE
    ensures var begun := Step(w, BeginValidate(shmSize, w.publisher.id, w.publisher.key));
            Possible(begun, Loads(CHECKS)) && Final(begun, Loads(CHECKS)).subscriber == Returned(0, STORES)
  {
    var begun := Step(w, BeginValidate(shmSize, w.publisher.id, w.publisher.key));
    AllStoredIsInitialised(begun);
    forall j | 0 <= j < CHECKS
      ensures var c := CheckAt(j, begun.subscriber.id, begun.subscriber.key); Passes(c.test, begun.mem(c.field))
    {
      InitialisedPasses(begun, j);
    }
    LoadsFinish(begun);
  }

  /** The condition on the magic load is needed: on a region left valid by an earlier
      session, a validate that loads magic before the publisher clears it is accepted
      although the publisher has only just begun to reset the rings. */
  lemma StaleRegionIsAccepted(mem: Memory, id: u64, key: u64, shmSize: nat)
    requires shmSize >= REGION_SIZE
    requires forall j :: 0 <= j < CHECKS ==> var c := CheckAt(j, id, key); Passes(c.test, mem(c.field))
    ensures var w := Step(Step(Step(Step(World(mem, Waiting, Away), BeginValidate(shmSize, id, key)), LoadNext), LoadNext), LoadNext);
            && Enabled(w, BeginInit(shmSize, key))
            && var cleared := Step(Step(w, BeginInit(shmSize, key)), StoreNext);
            && Possible(cleared, Loads(13))
            && Final(cleared, Loads(13)).subscriber == Returned(0, 0)
            && Final(cleared, Loads(13)).publisher == Storing(1, id, key)
            && Final(cleared, Loads(13)).mem(Magic) == 0
  {
    assert forall j :: 0 <= j < 3 ==> Passes(CheckAt(j, id, key).test, mem(CheckAt(j, id, key).field));
    assert Passes(CheckAt(0, id, key).test, mem(PublisherId));
    assert Passes(CheckAt(1, id, key).test, mem(Key));
    assert Passes(CheckAt(2, id, key).test, mem(Magic));
    var w := World(mem, Waiting, Checking(3, id, key, 0));
    var cleared := Step(Step(w, BeginInit(shmSize, key)), StoreNext);
    forall j | 3 <= j < CHECKS
      ensures var c := CheckAt(j, id, key); Passes(c.test, cleared.mem(c.field))
    {
      assert Passes(CheckAt(j, id, key).test, mem(CheckAt(j, id, key).field));
    }
    LoadsFinish(cleared);
  }

  // ----- The rings start empty

  /** Before any ring use, every store but the first clear is still in place. */
  ghost predicate Pristine(w: World) {
    w.publisher.Storing? ==>
      var Storing(n, id, key) := w.publisher;
      n <= STORES && forall k :: 1 <= k < n ==> w.mem(InitStore(k, id, key).field) == InitStore(k, id, key).value
  }

  lemma StoresAreDistinct(j: nat, k: nat, id: u64, key: u64)
    requires 1 <= j < k < STORES
    ensures InitStore(j, id, key).field != InitStore(k, id, key).field
  {
  }

  lemma {:induction false} RingsStartEmpty(w: World, run: seq<Action>)
    requires Pristine(w) && Possible(w, run)
    requires forall i :: 0 <= i < |run| ==> !run[i].UseRing?
    ensures Pristine(Final(w, run))
    ensures Published(Final(w, run).publisher) ==>
              forall lane :: Final(w, run).mem(Head(lane)) == 0 == Final(w, run).mem(Tail(lane))
    ensures Published(Final(w, run).publisher) ==>
              forall lane, i: nat :: i < RING_CAPACITY * SLOT_BYTES ==> Final(w, run).mem(SlotByte(lane, i)) == 0
    decreases |run|
  {
    if run == [] {
      if Published(w.publisher) {
        PublishedRingsAreEmpty(w);
      }
    } else {
      StepKeepsPristine(w, run[0]);
      RingsStartEmpty(Step(w, run[0]), run[1..]);
    }
  }

  lemma StepKeepsPristine(w: World, a: Action)
    requires Pristine(w) && Enabled(w, a) && !a.UseRing?
    ensures Pristine(Step(w, a))
  {
    if a.StoreNext? {
      var Storing(n, id, key) := w.publisher;
      forall k | 1 <= k < n
        ensures InitStore(k, id, key).field != InitStore(n, id, key).field
      {
        StoresAreDistinct(k, n, id, key);
      }
    }
  }

  lemma PublishedRingsAreEmpty(w: World)
    requires Pristine(w) && Published(w.publisher)
    ensures forall lane :: w.mem(Head(lane)) == 0 == w.mem(Tail(lane))
    ensures forall lane, i: nat :: i < RING_CAPACITY * SLOT_BYTES ==> w.mem(SlotByte(lane, i)) == 0
  {
    var Storing(_, id, key) := w.publisher;
    forall lane: Lane
      ensures w.mem(Head(lane)) == 0 == w.mem(Tail(lane))
    {
      var base := if lane == Down then 3 else 3 + RING_STORES;
      assert InitStore(base + 3, id, key) == Store(Head(lane), 0);
      assert InitStore(base + RING_STORES - 1, id, key) == Store(Tail(lane), 0);
    }
    forall lane: Lane, i: nat | i < RING_CAPACITY * SLOT_BYTES
      ensures w.mem(SlotByte(lane, i)) == 0
    {
      var base := if lane == Down then 3 else 3 + RING_STORES;
      assert InitStore(base + 4 + i, id, key) == Store(SlotByte(lane, i), 0);
    }
  }

  /** The words of a lane are those of the ring state `s`. */
  ghost predicate Holding(m: Memory, lane: Lane, s: RingSteps.State) {
    && m(Head(lane)) == s.head && m(Tail(lane)) == s.tail
    && |s.slots| == RING_CAPACITY
    && forall i, j :: 0 <= i < RING_CAPACITY && 0 <= j < SLOT_BYTES ==> m(SlotByte(lane, SLOT_BYTES * i + j)) == s.slots[i][j]
  }

  /** A session starts from publication: both lanes of a region that has just been
      published hold a ring in its fresh state, and no other state of a ring that
      nobody has used. */
  lemma PublishedRingIsFresh(w: World, lane: Lane)
    requires Pristine(w) && Published(w.publisher)
    ensures Holding(w.mem, lane, RingSteps.FRESH)
    ensures forall s: RingSteps.State :: Holding(w.mem, lane, s) ==>
              s.(producer := RingSteps.Ready, consumer := RingSteps.Resting, pushed := [], popped := 0) == RingSteps.FRESH
  {
    PublishedRingsAreEmpty(w);
    forall s: RingSteps.State | Holding(w.mem, lane, s)
      ensures s.slots == RingSteps.FRESH.slots
    {
      forall i | 0 <= i < RING_CAPACITY
        ensures s.slots[i] == RingSteps.FRESH.slots[i]
      {
        SlotIsZero(w, lane, s, i);
      }
    }
  }

  lemma SlotIsZero(w: World, lane: Lane, s: RingSteps.State, i: nat)
    requires i < RING_CAPACITY && Holding(w.mem, lane, s)
    requires forall k: nat :: k < RING_CAPACITY * SLOT_BYTES ==> w.mem(SlotByte(lane, k)) == 0
    ensures s.slots[i] == RingSteps.FRESH.slots[i]
  {
    forall j | 0 <= j < SLOT_BYTES
      ensures s.slots[i][j] == 0
    {
      assert w.mem(SlotByte(lane, SLOT_BYTES * i + j)) == s.slots[i][j];
    }
  }

  // ----- The two calls as each runs alone

  class SharedRegion {
    var mem: Memory

    constructor (mem: Memory)
      ensures this.mem == mem
    {
      this.mem := mem;
    }

    /** Leaves the region alone or resets it completely, keeping the channel identity. */
    method InitPublisher(shmSize: nat, channelKey: u64) returns (err: int)
      requires 0 <= mem(PublisherId) <= U64_MAX && 0 <= mem(Key) <= U64_MAX
      modifies this
      ensures err == if shmSize < REGION_SIZE then -EINVAL else if old(mem(Key)) != channelKey then -EPROTO else 0
      ensures err != 0 ==> mem == old(mem)
      ensures err == 0 ==>
                && Initialised(World(mem, Storing(STORES, old(mem(PublisherId)), channelKey), Away))
                && mem(PublisherId) == old(mem(PublisherId)) && mem(Key) == old(mem(Key))
      ensures err == 0 ==> mem(Magic) == 0x49564332 && Compatible(mem) && mem(RegionSize) == 17152 && mem(Features) == 1
      ensures err == 0 ==> Holding(mem, Down, RingSteps.FRESH) && Holding(mem, Up, RingSteps.FRESH)
    {
      if shmSize < REGION_SIZE {
        return -EINVAL;
      }
      var id, key := mem(PublisherId), mem(Key);
      if key != channelKey {
        return -EPROTO;
      }
      var k := 0;
      while k < STORES
        invariant 0 <= k <= STORES
        invariant var w := World(mem, Storing(k, id, key), Away); LayoutOk(w) && Pristine(w)
      {
        ghost var w := World(mem, Storing(k, id, key), Away);
        StoreKeepsLayout(w);
        StepKeepsPristine(w, StoreNext);
        var s := InitStore(k, id, key);
        mem := Write(mem, s.field, s.value);
        k := k + 1;
      }
      ghost var done := World(mem, Storing(STORES, id, key), Away);
      AllStoredIsInitialised(done);
      InitialisedIsCompatible(done);
      PublishedRingIsFresh(done, Down);
      PublishedRingIsFresh(done, Up);
      return 0;
    }

    /** -EINVAL for the wrong region, -EAGAIN for one that is not published, -EPROTO for
        one that another version published; the error of the first check that fails. */
    method Validate(shmSize: nat, id: u64, key: u64) returns (code: int)
      ensures code == if shmSize < 17152 || mem(PublisherId) != id || mem(Key) != key then -EINVAL
                      else if mem(Magic) != 0x49564332 then -EAGAIN
                      else if !Compatible(mem) then -EPROTO
                      else 0
      ensures shmSize >= REGION_SIZE ==>
                if code == 0 then forall j :: 0 <= j < CHECKS ==> Holds(mem, j, id, key)
                else exists k :: 0 <= k < CHECKS && FailsFirst(mem, k, id, key) && code == CheckAt(k, id, key).error
    {
      if shmSize < REGION_SIZE {
        return -EINVAL;
      }
      for k := 0 to CHECKS
        invariant forall j :: 0 <= j < k ==> Holds(mem, j, id, key)
      {
        if !Holds(mem, k, id, key) {
          assert FailsFirst(mem, k, id, key);
          FirstFailure(mem, k, id, key);
          return CheckAt(k, id, key).error;
        }
      }
      AllHold(mem, id, key);
      return 0;
    }
  }

  /** The layout a subscriber can work with, word by word. */
  predicate Compatible(m: Memory) {
    && m(Version) == 3 && m(HeaderSize) == 32 && m(RegionSize) >= 17152 && m(Features) % 2 == 1
    && m(DownOffset) == 256 && m(UpOffset) == 8704 && m(RingSize) == 8448
    && m(Direction(Down)) == 1 && m(Capacity(Down)) == 32 && m(SlotSize(Down)) == 256
    && m(Direction(Up)) == 2 && m(Capacity(Up)) == 32 && m(SlotSize(Up)) == 256
  }

  /** What each layout word is set to. */
  function Setting(f: Field): int
    requires IsLayout(f) && f != PublisherId && f != Key
  {
    match f
    case Version => 3
    case HeaderSize => 32
    case RegionSize => 17152
    case Features => 1
    case DownOffset => 256
    case UpOffset => 8704
    case RingSize => 8448
    case Direction(lane) => if lane == Down then 1 else 2
    case Capacity(_) => 32
    case SlotSize(_) => 256
  }

  lemma WordIsSet(w: World, f: Field)
    requires Initialised(w) && IsLayout(f) && f != PublisherId && f != Key
    ensures w.mem(f) == Setting(f)
  {
  }

  lemma InitialisedIsCompatible(w: World)
    requires Initialised(w)
    ensures w.mem(Magic) == 0x49564332 && Compatible(w.mem) && w.mem(RegionSize) == 17152 && w.mem(Features) == 1
  {
    forall f | IsLayout(f) && f != PublisherId && f != Key
      ensures w.mem(f) == Setting(f)
    {
      WordIsSet(w, f);
    }
    SetIsCompatible(w.mem);
  }

  lemma SetIsCompatible(m: Memory)
    requires forall f | IsLayout(f) && f != PublisherId && f != Key :: m(f) == Setting(f)
    ensures Compatible(m) && m(RegionSize) == 17152 && m(Features) == 1
  {
    forall lane: Lane
      ensures m(Direction(lane)) == (if lane == Down then 1 else 2) && m(Capacity(lane)) == 32 && m(SlotSize(lane)) == 256
    {
      assert m(Direction(lane)) == Setting(Direction(lane));
      assert m(Capacity(lane)) == Setting(Capacity(lane));
      assert m(SlotSize(lane)) == Setting(SlotSize(lane));
    }
  }

  lemma AllHold(m: Memory, id: u64, key: u64)
    requires forall j :: 0 <= j < CHECKS ==> Holds(m, j, id, key)
    ensures m(PublisherId) == id && m(Key) == key && m(Magic) == 0x49564332 && Compatible(m)
  {
    assert Holds(m, 0, id, key) && Holds(m, 1, id, key) && Holds(m, 2, id, key) && Holds(m, 3, id, key);
    assert Holds(m, 4, id, key) && Holds(m, 5, id, key) && Holds(m, 6, id, key) && Holds(m, 7, id, key);
    assert Holds(m, 8, id, key) && Holds(m, 9, id, key) && Holds(m, 10, id, key) && Holds(m, 11, id, key);
    assert Holds(m, 12, id, key) && Holds(m, 13, id, key) && Holds(m, 14, id, key) && Holds(m, 15, id, key);
  }

  lemma FirstFailure(m: Memory, k: nat, id: u64, key: u64)
    requires k < CHECKS && FailsFirst(m, k, id, key)
    ensures CheckAt(k, id, key).error == if m(PublisherId) != id || m(Key) != key then -EINVAL
                                         else if m(Magic) != 0x49564332 then -EAGAIN
                                         else -EPROTO
    ensures m(PublisherId) == id && m(Key) == key && m(Magic) == 0x49564332 ==> !Compatible(m)
  {
    if k > 0 {
      assert Holds(m, 0, id, key);
    }
    if k > 1 {
      assert Holds(m, 1, id, key);
    }
    if k > 2 {
      assert Holds(m, 2, id, key);
    }
  }

  predicate Holds(m: Memory, k: nat, id: u64, key: u64)
    requires k < CHECKS
  {
    Passes(CheckAt(k, id, key).test, m(CheckAt(k, id, key).field))
  }

  predicate FailsFirst(m: Memory, k: nat, id: u64, key: u64)
    requires k < CHECKS
  {
    !Holds(m, k, id, key) && forall j :: 0 <= j < k ==> Holds(m, j, id, key)
  }
}
