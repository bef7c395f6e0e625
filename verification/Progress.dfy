/** That calls succeed: from any state at rest, a message that fits its reader's buffer
    has a run that writes it, reads it and comes back to rest. */
module Progress {
  import opened Machine
  import opened Wire
  import opened Stream
  import opened Sender
  import opened Receiver
  import opened Adapters
  import opened Channel
  import R = RingSteps
  import S = Session

  // ----- Runs put together

  ghost predicate Reaches(c: Link, d: Link) {
    exists run :: Possible(c, run) && Final(c, run) == d
  }

  lemma ReachesItself(c: Link)
    ensures Reaches(c, c)
  {
    assert Possible(c, []) && Final(c, []) == c;
  }

  lemma {:induction false} RunsInTurn(c: Link, first: seq<Action>, second: seq<Action>)
    requires Possible(c, first) && Possible(Final(c, first), second)
    ensures Possible(c, first + second) && Final(c, first + second) == Final(Final(c, first), second)
    decreases |first|
  {
    if first == [] {
      assert first + second == second;
    } else {
      var rest := first[1..] + second;
      RunsInTurn(Step(c, first[0]), first[1..], second);
      StepFirst(c, first[0], rest);
      assert [first[0]] + rest == first + second;
    }
  }

  lemma StepFirst(c: Link, a: Action, rest: seq<Action>)
    requires Enabled(c, a) && Allowed(c.world, MoveOf(c, a)) && Possible(Step(c, a), rest)
    ensures Possible(c, [a] + rest) && Final(c, [a] + rest) == Final(Step(c, a), rest)
  {
    assert ([a] + rest)[1..] == rest;
  }

  lemma ReachesOn(c: Link, d: Link, e: Link)
    requires Reaches(c, d) && Reaches(d, e)
    ensures Reaches(c, e)
  {
    var first :| Possible(c, first) && Final(c, first) == d;
    var second :| Possible(d, second) && Final(d, second) == e;
    RunsInTurn(c, first, second);
  }

  lemma OneStep(c: Link, a: Action) returns (d: Link)
    requires Channel.Inv(c) && Enabled(c, a)
    ensures Allowed(c.world, MoveOf(c, a)) && d == Step(c, a) && Channel.Inv(d) && Reaches(c, d)
  {
    StepKeepsInv(c, a);
    d := Step(c, a);
    assert Possible(d, []) && Final(d, []) == d;
    assert [a][1..] == [];
    assert Possible(c, [a]) && Final(c, [a]) == d;
  }

  // ----- One chunk into the ring

  function WithRing(c: Link, ring: R.State): Link {
    c.(world := c.world.(ring := ring))
  }

  /** The ring but for the slot being filled and where the producer stands. */
  ghost predicate SameQueue(r: R.State, s: R.State) {
    s.pushed == r.pushed && s.popped == r.popped && s.consumer == r.consumer && s.head == r.head && s.tail == r.tail
  }

  lemma OfferOne(c: Link) returns (d: Link)
    requires Channel.Inv(c) && c.writer.Writing? && !c.writer.full && c.world.offer == S.NoOffer
    ensures Channel.Inv(d) && Reaches(c, d)
    ensures var chunk := ChunkFrom(c.writer.buf, c.writer.sent);
            && CanSend(c.world.snd.tx, chunk) && |chunk| <= FRAGMENT_CAPACITY
            && d == c.(world := c.world.(ring := d.world.ring, offer := S.OfFragment(chunk)))
            && d.world.ring == c.world.ring.(producer := d.world.ring.producer)
            && d.world.ring.producer == R.TailLoaded(SlotOf(FragmentFrame(c.world.snd.tx, chunk)), c.world.ring.tail)
  {
    SenderFromSession(c.world);
    d := OneStep(c, ByWriter(OfferChunk(false)));
  }

  lemma RoomIsSeen(w: S.World)
    requires Sound(w) && w.ring.producer.TailLoaded? && |w.ring.pushed| < w.ring.popped + R.CAPACITY
    ensures (w.ring.producer.tail - w.ring.head) % U32_SPAN < R.CAPACITY
  {
    assert Inside(SessionPart, 0);
    R.CounterTruth(w.ring);
  }

  lemma RoomLetsCopy(w: S.World)
    requires Sound(w) && w.ring.producer.TailLoaded? && |w.ring.pushed| < w.ring.popped + R.CAPACITY
    ensures var p := w.ring.producer;
            && R.Step(w.ring, R.LoadHead) == w.ring.(producer := R.Copying(p.slot, p.tail, 0))
            && R.EffectOf(w.ring, R.LoadHead) == R.Silent
  {
    RoomIsSeen(w);
  }

  lemma BeginCopy(c: Link) returns (d: Link)
    requires Channel.Inv(c) && c.writer.Writing? && c.world.offer != S.NoOffer
    requires c.world.ring.producer.TailLoaded? && |c.world.ring.pushed| < c.world.ring.popped + R.CAPACITY
    ensures Channel.Inv(d) && Reaches(c, d)
    ensures var p := c.world.ring.producer; d == WithRing(c, c.world.ring.(producer := R.Copying(p.slot, p.tail, 0)))
  {
    RoomLetsCopy(c.world);
    d := OneStep(c, ByWriter(PushStep(R.LoadHead)));
  }

  lemma CopyByte(c: Link) returns (d: Link)
    requires Channel.Inv(c) && c.writer.Writing? && c.world.offer != S.NoOffer
    requires c.world.ring.producer.Copying? && c.world.ring.producer.done < SLOT_SIZE
    ensures Channel.Inv(d) && Reaches(c, d) && d == WithRing(c, d.world.ring) && SameQueue(c.world.ring, d.world.ring)
    ensures d.world.ring.producer == c.world.ring.producer.(done := c.world.ring.producer.done + 1)
  {
    d := OneStep(c, ByWriter(PushStep(R.CopyByteIn)));
  }

  lemma {:induction false} CopyAll(c: Link) returns (d: Link)
    requires Channel.Inv(c) && c.writer.Writing? && c.world.offer != S.NoOffer
    requires c.world.ring.producer.Copying? && c.world.ring.producer.done <= SLOT_SIZE
    ensures Channel.Inv(d) && Reaches(c, d) && d == WithRing(c, d.world.ring) && SameQueue(c.world.ring, d.world.ring)
    ensures d.world.ring.producer == c.world.ring.producer.(done := SLOT_SIZE)
    decreases SLOT_SIZE - c.world.ring.producer.done
  {
    if c.world.ring.producer.done == SLOT_SIZE {
      d := c;
      ReachesItself(c);
    } else {
      var b := CopyByte(c);
      d := CopyAll(b);
      ReachesOn(c, b, d);
    }
  }

  /** The writer after a chunk has gone out. */
  function SentOn(w: WriteCall): WriteCall
    requires w.Writing?
  {
    var sent := w.sent + |ChunkFrom(w.buf, w.sent)|;
    if sent == |w.buf| then WriteDone(WriteReturn(w.buf, |w.buf|, false)) else Writing(w.buf, sent, w.full)
  }

  lemma Publish(c: Link) returns (d: Link)
    requires Channel.Inv(c) && c.writer.Writing? && c.world.offer.OfFragment?
    requires c.world.ring.producer.Copying? && c.world.ring.producer.done == SLOT_SIZE
    ensures Channel.Inv(d) && Reaches(c, d) && CanSend(c.world.snd.tx, c.world.offer.bytes)
    ensures d.world.snd == AfterFragment(c.world.snd, c.world.offer.bytes) && d.world.offer == S.NoOffer
    ensures d.world.reader == c.world.reader && d.world.ring.consumer == c.world.ring.consumer
    ensures d.world.ring.popped == c.world.ring.popped
    ensures d.world.ring.pushed == c.world.ring.pushed + [c.world.ring.producer.slot]
    ensures d == c.(world := d.world, writer := SentOn(c.writer))
  {
    SenderFromSession(c.world);
    d := OneStep(c, ByWriter(PushStep(R.StoreTail)));
  }

  /** With room in the ring, the next chunk of a write goes out. */
  lemma SendOne(c: Link) returns (d: Link)
    requires Channel.Inv(c) && c.writer.Writing? && !c.writer.full && c.world.offer == S.NoOffer
    requires |c.world.ring.pushed| < c.world.ring.popped + R.CAPACITY
    ensures Channel.Inv(d) && Reaches(c, d)
    ensures d == c.(world := d.world, writer := SentOn(c.writer)) && d.world.offer == S.NoOffer
    ensures d.world.reader == c.world.reader && d.world.ring.consumer == c.world.ring.consumer
    ensures d.world.ring.popped == c.world.ring.popped
    ensures var chunk := ChunkFrom(c.writer.buf, c.writer.sent);
            && CanSend(c.world.snd.tx, chunk)
            && d.world.snd == AfterFragment(c.world.snd, chunk)
            && d.world.ring.pushed == c.world.ring.pushed + [SlotOf(FragmentFrame(c.world.snd.tx, chunk))]
  {
    var c1 := OfferOne(c);
    assert c1.world.ring.producer.TailLoaded?;
    var c2 := BeginCopy(c1);
    var c3 := CopyAll(c2);
    d := Publish(c3);
    ReachesOn(c, c1, c2);
    ReachesOn(c, c2, c3);
    ReachesOn(c, c3, d);
  }

  // ----- One slot out of the ring

  predicate MayPeek(c: Link) {
    c.reading.PeekingMeta? || c.reading.Filling?
  }

  function WithConsumer(c: Link, s: R.Consumer): Link {
    WithRing(c, c.world.ring.(consumer := s))
  }

  lemma BeginPeek(c: Link) returns (d: Link)
    requires Channel.Inv(c) && MayPeek(c) && c.world.ring.consumer.Resting?
    ensures Channel.Inv(d) && Reaches(c, d) && d == WithConsumer(c, R.HeadLoaded(c.world.ring.head))
  {
    d := OneStep(c, ByReader(PeekStep(R.BeginPeek)));
  }

  lemma TailIsSeen(w: S.World)
    requires Sound(w) && w.ring.consumer.HeadLoaded?
    ensures w.ring.consumer.head == w.ring.tail <==> w.ring.popped == |w.ring.pushed|
  {
    assert Inside(SessionPart, 0);
    R.CounterTruth(w.ring);
  }

  lemma SeeSlot(c: Link) returns (d: Link)
    requires Channel.Inv(c) && MayPeek(c) && c.world.ring.consumer.HeadLoaded? && c.world.ring.popped < |c.world.ring.pushed|
    ensures Channel.Inv(d) && Reaches(c, d) && d == WithConsumer(c, R.Reading(c.world.ring.consumer.head, []))
  {
    TailIsSeen(c.world);
    d := OneStep(c, ByReader(PeekStep(R.LoadTail)));
  }

  lemma NothingIsSeen(w: S.World)
    requires Sound(w) && w.ring.consumer.HeadLoaded? && w.ring.popped == |w.ring.pushed|
    ensures R.Step(w.ring, R.LoadTail) == w.ring.(consumer := R.Resting)
    ensures R.EffectOf(w.ring, R.LoadTail) == R.SawEmpty
  {
    TailIsSeen(w);
  }

  lemma NothingMoves(w: S.World)
    requires Sound(w) && w.ring.consumer.HeadLoaded? && w.ring.popped == |w.ring.pushed|
    ensures S.Enabled(w, S.Consume(R.LoadTail))
    ensures S.Step(w, S.Consume(R.LoadTail)) == w.(ring := w.ring.(consumer := R.Resting))
    ensures R.EffectOf(w.ring, R.LoadTail) == R.SawEmpty
  {
    NothingIsSeen(w);
  }

  lemma SeeNothing(c: Link) returns (d: Link)
    requires Channel.Inv(c) && c.reading.Filling? && c.world.ring.consumer.HeadLoaded?
    requires c.world.ring.popped == |c.world.ring.pushed|
    ensures Channel.Inv(d) && Reaches(c, d)
    ensures d == WithConsumer(c, R.Resting).(reading := Filled(c.reading.job, c.reading.slots, c.reading.fragment, false))
  {
    NothingMoves(c.world);
    d := OneStep(c, ByReader(PeekStep(R.LoadTail)));
  }

  lemma TakeByte(c: Link) returns (d: Link)
    requires Channel.Inv(c) && MayPeek(c) && c.world.ring.consumer.Reading? && |c.world.ring.consumer.bytes| < SLOT_SIZE
    ensures Channel.Inv(d) && Reaches(c, d) && d == WithConsumer(c, d.world.ring.consumer)
    ensures d.world.ring.consumer.Reading? && |d.world.ring.consumer.bytes| == |c.world.ring.consumer.bytes| + 1
  {
    d := OneStep(c, ByReader(PeekStep(R.CopyByteOut)));
  }

  lemma {:induction false} TakeBytes(c: Link) returns (d: Link)
    requires Channel.Inv(c) && MayPeek(c) && c.world.ring.consumer.Reading? && |c.world.ring.consumer.bytes| <= SLOT_SIZE
    ensures Channel.Inv(d) && Reaches(c, d) && d == WithConsumer(c, d.world.ring.consumer)
    ensures d.world.ring.consumer.Reading? && |d.world.ring.consumer.bytes| == SLOT_SIZE
    decreases SLOT_SIZE - |c.world.ring.consumer.bytes|
  {
    if |c.world.ring.consumer.bytes| == SLOT_SIZE {
      d := c;
      ReachesItself(c);
    } else {
      var b := TakeByte(c);
      d := TakeBytes(b);
      ReachesOn(c, b, d);
    }
  }

  lemma HoldSlot(c: Link) returns (d: Link)
    requires Channel.Inv(c) && MayPeek(c) && c.world.ring.consumer.Reading? && |c.world.ring.consumer.bytes| == SLOT_SIZE
    ensures Channel.Inv(d) && Reaches(c, d) && d == WithConsumer(c, d.world.ring.consumer)
    ensures c.world.ring.popped < |c.world.ring.pushed|
    ensures d.world.ring.consumer == R.Holding(c.world.ring.pushed[c.world.ring.popped])
  {
    d := OneStep(c, ByReader(PeekStep(R.EndPeek)));
    var v := ReaderFromSession(d.world);
  }

  /** With a slot in the ring, a peek ends holding it. */
  lemma PeekOne(c: Link) returns (d: Link)
    requires Channel.Inv(c) && MayPeek(c) && c.world.ring.consumer.Resting? && c.world.ring.popped < |c.world.ring.pushed|
    ensures Channel.Inv(d) && Reaches(c, d)
    ensures d == WithConsumer(c, R.Holding(c.world.ring.pushed[c.world.ring.popped]))
  {
    var c1 := BeginPeek(c);
    var c2 := SeeSlot(c1);
    var c3 := TakeBytes(c2);
    d := HoldSlot(c3);
    ReachesOn(c, c1, c2);
    ReachesOn(c, c2, c3);
    ReachesOn(c, c3, d);
  }

  /** With none, a try_read ends with what it has. */
  lemma PeekNone(c: Link) returns (d: Link)
    requires Channel.Inv(c) && c.reading.Filling? && c.world.ring.consumer.Resting? && c.world.ring.popped == |c.world.ring.pushed|
    ensures Channel.Inv(d) && Reaches(c, d)
    ensures d == c.(reading := Filled(c.reading.job, c.reading.slots, c.reading.fragment, false))
  {
    var c1 := BeginPeek(c);
    d := SeeNothing(c1);
    ReachesOn(c, c1, d);
  }

  // ----- The other steps of a read

  lemma BeginReading(c: Link, count: nat) returns (d: Link)
    requires Channel.Inv(c) && c.reading.NotReading? && c.world.reader.rx.state == Idle && count > 0
    ensures Channel.Inv(d) && Reaches(c, d) && d == c.(reading := PeekingMeta(count))
  {
    d := OneStep(c, ByReader(BeginRead(count, false)));
  }

  /** A look at the slot held, when `choice` is what the code decides. */
  lemma LookOnce(c: Link, choice: Choice) returns (d: Link)
    requires Channel.Inv(c) && MayPeek(c) && c.world.ring.consumer.Holding?
    requires choice == ChoiceOf(c.world.reader.rx, c.world.ring.consumer.slot, c.reading)
    ensures Channel.Inv(d) && Reaches(c, d)
    ensures Allowed(c.world, ReadMove(c.reading, Look(choice)))
    ensures d == c.(world := WorldAfter(c.world, ReadMove(c.reading, Look(choice))),
                    reading := if choice.Take? then c.reading else choice.next)
  {
    d := OneStep(c, ByReader(Look(choice)));
  }

  lemma MetaFits(slot: Slot, count: nat, f: Frame)
    requires Decode(slot) == Good(f) && f.first && !f.abort && f.len <= count
    ensures MetaChoice(slot, count) == Drop(Filling(Job(count, f.len, []), 0, []))
  {
  }

  /** peek_meta on the first frame of a message that fits. */
  lemma TakeMeta(c: Link, f: Frame) returns (d: Link)
    requires Channel.Inv(c) && c.reading.PeekingMeta? && c.world.ring.consumer.Holding?
    requires Decode(c.world.ring.consumer.slot) == Good(f) && f.first && !f.abort && f.len <= c.reading.count
    ensures Channel.Inv(d) && Reaches(c, d)
    ensures d == WithConsumer(c, R.Resting).(reading := Filling(Job(c.reading.count, f.len, []), 0, []))
  {
    MetaFits(c.world.ring.consumer.slot, c.reading.count, f);
    DropMoves(c.world);
    d := LookOnce(c, Drop(Filling(Job(c.reading.count, f.len, []), 0, [])));
  }

  lemma HeldIsTaken(c: Link, f: Frame)
    requires Channel.Inv(c) && c.reading.Filling? && c.world.ring.consumer.Holding?
    requires Decode(c.world.ring.consumer.slot) == Good(f) && !f.abort && c.reading.slots == 0 && c.reading.fragment == []
    ensures var v := Judge(c.world.reader.rx, c.world.ring.consumer.slot);
            && v.Accept? && v.frame == f && v.next.Next? && v.next.complete == f.last && !v.next.aborted
            && SlotChoice(c.world.reader.rx, c.world.ring.consumer.slot, c.reading.job, 0, []) == Take
  {
    var v := ReaderFromSession(c.world);
    FragmentFits(c.world.ring.consumer.slot);
  }

  lemma TakeHeld(c: Link, f: Frame) returns (d: Link)
    requires Channel.Inv(c) && c.reading.Filling? && c.world.ring.consumer.Holding?
    requires Decode(c.world.ring.consumer.slot) == Good(f) && !f.abort && c.reading.slots == 0 && c.reading.fragment == []
    ensures Channel.Inv(d) && Reaches(c, d)
    ensures d == c.(world := c.world.(ring := d.world.ring, reader := d.world.reader))
    ensures d.world.ring == c.world.ring.(consumer := d.world.ring.consumer) && d.world.ring.consumer.Releasing?
    ensures var v := d.world.reader.verdict; v.Accept? && v.frame == f && v.next.Next? && v.next.complete == f.last && !v.next.aborted
  {
    HeldIsTaken(c, f);
    var v := ReaderFromSession(c.world);
    d := LookOnce(c, Take);
    TakeMoves(c.world);
  }

  lemma ReleaseHeld(c: Link) returns (d: Link)
    requires Channel.Inv(c) && c.reading.Filling? && c.world.ring.consumer.Releasing?
    ensures Channel.Inv(d) && Reaches(c, d)
    ensures d == c.(world := d.world, reading := AfterRelease(c.reading, c.world.reader.verdict))
    ensures d.world.snd == c.world.snd && d.world.offer == c.world.offer
    ensures d.world.ring.pushed == c.world.ring.pushed && d.world.ring.popped == c.world.ring.popped + 1
    ensures d.world.ring.consumer.Resting?
  {
    d := OneStep(c, ByReader(Release));
  }

  /** One slot of the message at hand, from the ring into the fragment. */
  lemma ReceiveOne(c: Link, f: Frame) returns (d: Link)
    requires Channel.Inv(c) && c.reading.Filling? && c.reading.slots == 0 && c.reading.fragment == []
    requires c.world.ring.consumer.Resting? && c.world.ring.popped < |c.world.ring.pushed|
    requires Decode(c.world.ring.pushed[c.world.ring.popped]) == Good(f) && !f.abort
    ensures Channel.Inv(d) && Reaches(c, d)
    ensures d == c.(world := d.world, reading := d.reading)
    ensures d.reading == if f.last then Filled(c.reading.job, 1, f.payload, true) else Filling(c.reading.job, 1, f.payload)
    ensures d.world.snd == c.world.snd && d.world.offer == c.world.offer
    ensures d.world.ring.pushed == c.world.ring.pushed && d.world.ring.popped == c.world.ring.popped + 1
    ensures d.world.ring.consumer.Resting?
  {
    var c1 := PeekOne(c);
    var c2 := TakeHeld(c1, f);
    d := ReleaseHeld(c2);
    assert [] + f.payload == f.payload;
    ReachesOn(c, c1, c2);
    ReachesOn(c, c2, d);
  }

  lemma HandOn(c: Link) returns (d: Link)
    requires Channel.Inv(c) && c.reading.Filled?
    ensures Channel.Inv(d) && Reaches(c, d) && d == c.(reading := AfterHandOver(c.reading, false))
  {
    d := OneStep(c, ByReader(HandOver(false)));
  }

  lemma ReturnIt(c: Link) returns (d: Link)
    requires Channel.Inv(c) && c.reading.ReadDone?
    ensures Channel.Inv(d) && Reaches(c, d)
    ensures d == c.(world := d.world, reading := NotReading, got := c.got + [c.reading.result])
    ensures d.world.snd == c.world.snd && d.world.offer == c.world.offer && d.world.ring == c.world.ring
    ensures d.world.reader.rx == c.world.reader.rx
  {
    d := OneStep(c, ByReader(ReturnRead));
  }

  // ----- The other steps of a write

  lemma BeginWriting(c: Link, buf: seq<byte>) returns (d: Link)
    requires Channel.Inv(c) && c.writer.NotWriting? && c.txError == 0 && c.world.snd.tx.nextId != 0 && 0 < |buf| <= U64_MAX
    ensures Channel.Inv(d) && Reaches(c, d)
    ensures d == c.(world := d.world, writer := Writing(buf, 0, false))
    ensures d.world == c.world.(snd := d.world.snd) && d.world.offer == S.NoOffer
  {
    d := OneStep(c, ByWriter(BeginWrite(buf, false)));
  }

  lemma ReturnWritten(c: Link) returns (d: Link)
    requires Channel.Inv(c) && c.writer.WriteDone?
    ensures Channel.Inv(d) && Reaches(c, d)
    ensures d == c.(writer := NotWriting, wrote := c.wrote + [c.writer.result])
  {
    d := OneStep(c, ByWriter(ReturnWrite));
  }

  // ----- A whole message

  /** `sent` bytes of a write have gone out, been read and handed over. */
  ghost predicate Between(c: Link, buf: seq<byte>, sent: nat, count: nat) {
    && Channel.Inv(c) && c.writer == Writing(buf, sent, false) && c.world.offer == S.NoOffer
    && sent < |buf| <= count
    && c.world.ring.consumer.Resting? && c.world.ring.popped == |c.world.ring.pushed|
    && (if sent == 0 then c.reading.NotReading? && c.world.reader.rx.state == Idle
        else c.reading == Filling(Job(count, |buf|, buf[..sent]), 0, []))
  }

  /** Both calls are about to return, the reader with the writer's bytes. */
  ghost predicate Passed(c: Link, buf: seq<byte>, count: nat) {
    && Channel.Inv(c) && c.writer == WriteDone(WriteReturn(buf, |buf|, false))
    && |buf| <= U64_MAX && c.reading == ReadDone(ReadReturn(count, |buf|, buf, |buf|, false))
    && c.world.ring.popped == |c.world.ring.pushed|
  }

  lemma ChunkFrame(c: Link, buf: seq<byte>, sent: nat)
    requires Channel.Inv(c) && c.writer == Writing(buf, sent, false)
    requires CanSend(c.world.snd.tx, ChunkFrom(buf, sent))
    ensures var chunk := ChunkFrom(buf, sent);
            var f := FragmentFrame(c.world.snd.tx, chunk);
            && sent < |buf| && |chunk| > 0 && sent + |chunk| <= |buf| && |chunk| <= FRAGMENT_CAPACITY
            && f == Frame(f.id, |buf|, sent == 0, sent + |chunk| == |buf|, false, chunk)
            && Encodable(f) && Decode(SlotOf(f)) == Good(f)
            && buf[..sent] + chunk == buf[..sent + |chunk|]
  {
    SenderFromSession(c.world);
    FragmentAccepted(c.world.snd, ChunkFrom(buf, sent));
    DecodeAfterEncode(FragmentFrame(c.world.snd.tx, ChunkFrom(buf, sent)));
  }

  /** The reader gets to the point of reading the slot that holds `f`. */
  lemma OpenRead(c: Link, buf: seq<byte>, sent: nat, count: nat, f: Frame) returns (d: Link)
    requires Channel.Inv(c) && c.world.ring.consumer.Resting? && sent < |buf| <= count && |buf| <= U64_MAX
    requires c.world.ring.popped < |c.world.ring.pushed| && Decode(c.world.ring.pushed[c.world.ring.popped]) == Good(f)
    requires f.first == (sent == 0) && !f.abort && f.len == |buf|
    requires if sent == 0 then c.reading.NotReading? && c.world.reader.rx.state == Idle
             else c.reading == Filling(Job(count, |buf|, buf[..sent]), 0, [])
    ensures Channel.Inv(d) && Reaches(c, d)
    ensures d == c.(reading := Filling(Job(count, |buf|, buf[..sent]), 0, []))
  {
    if sent == 0 {
      var c1 := BeginReading(c, count);
      var c2 := PeekOne(c1);
      d := TakeMeta(c2, f);
      assert buf[..0] == [];
      ReachesOn(c, c1, c2);
      ReachesOn(c, c2, d);
    } else {
      d := c;
      ReachesItself(c);
    }
  }

  /** The last fragment ends both calls; any other leaves the reader waiting for more. */
  lemma FinishChunk(c: Link, buf: seq<byte>, sent: nat, count: nat, chunk: seq<byte>) returns (d: Link)
    requires Channel.Inv(c) && sent + |chunk| <= |buf| <= count && 0 < |buf| <= U64_MAX
    requires buf[..sent] + chunk == buf[..sent + |chunk|]
    requires c.world.ring.consumer.Resting? && c.world.ring.popped == |c.world.ring.pushed|
    requires var job := Job(count, |buf|, buf[..sent]);
             c.reading == if sent + |chunk| == |buf| then Filled(job, 1, chunk, true) else Filling(job, 1, chunk)
    ensures Channel.Inv(d) && Reaches(c, d) && d == c.(reading := d.reading)
    ensures d.reading == if sent + |chunk| == |buf| then ReadDone(ReadReturn(count, |buf|, buf, |buf|, false))
                         else Filling(Job(count, |buf|, buf[..sent + |chunk|]), 0, [])
  {
    if sent + |chunk| == |buf| {
      d := HandOn(c);
      assert buf[..|buf|] == buf;
    } else {
      var c1 := PeekNone(c);
      d := HandOn(c1);
      ReachesOn(c, c1, d);
    }
  }

  /** A chunk goes out and arrives in the reader's fragment buffer. */
  lemma ChunkArrives(c: Link, buf: seq<byte>, sent: nat, count: nat) returns (d: Link)
    requires Between(c, buf, sent, count) && |buf| <= U64_MAX
    ensures Channel.Inv(d) && Reaches(c, d)
    ensures d == c.(world := d.world, writer := SentOn(c.writer), reading := d.reading)
    ensures d.world.offer == S.NoOffer && d.world.ring.consumer.Resting? && d.world.ring.popped == |d.world.ring.pushed|
    ensures var chunk, job := ChunkFrom(buf, sent), Job(count, |buf|, buf[..sent]);
            && |chunk| > 0 && sent + |chunk| <= |buf| && buf[..sent] + chunk == buf[..sent + |chunk|]
            && d.reading == if sent + |chunk| == |buf| then Filled(job, 1, chunk, true) else Filling(job, 1, chunk)
  {
    var c1 := SendOne(c);
    ChunkFrame(c, buf, sent);
    var f := FragmentFrame(c.world.snd.tx, ChunkFrom(buf, sent));
    var c2 := OpenRead(c1, buf, sent, count, f);
    d := ReceiveOne(c2, f);
    ReachesOn(c, c1, c2);
    ReachesOn(c, c2, d);
  }

  lemma OneChunk(c: Link, buf: seq<byte>, sent: nat, count: nat) returns (d: Link, total: nat)
    requires Between(c, buf, sent, count) && |buf| <= U64_MAX
    ensures Reaches(c, d) && d.wrote == c.wrote && d.got == c.got && d.txError == c.txError && sent < total <= |buf|
    ensures if total == |buf| then Passed(d, buf, count) else Between(d, buf, total, count)
  {
    var chunk := ChunkFrom(buf, sent);
    total := sent + |chunk|;
    var c1 := ChunkArrives(c, buf, sent, count);
    d := FinishChunk(c1, buf, sent, count, chunk);
    ReachesOn(c, c1, d);
  }

  lemma {:induction false} AllChunks(c: Link, buf: seq<byte>, sent: nat, count: nat) returns (d: Link)
    requires Between(c, buf, sent, count) && |buf| <= U64_MAX
    ensures Reaches(c, d) && d.wrote == c.wrote && d.got == c.got && d.txError == c.txError && Passed(d, buf, count)
    decreases |buf| - sent
  {
    var total;
    d, total := OneChunk(c, buf, sent, count);
    if total < |buf| {
      var b := d;
      d := AllChunks(b, buf, total, count);
      ReachesOn(c, b, d);
    }
  }

  /** No call is under way, nothing has gone wrong, and nothing is in the ring. */
  ghost predicate AtEase(c: Link) {
    && Channel.Inv(c) && c.writer.NotWriting? && c.reading.NotReading?
    && c.txError == 0 && c.world.reader.rx.state == Idle && c.world.ring.popped == |c.world.ring.pushed|
  }

  lemma ReturnBoth(c: Link, buf: seq<byte>, count: nat) returns (d: Link)
    requires Passed(c, buf, count) && buf != [] && c.txError == 0
    ensures Reaches(c, d) && AtEase(d)
    ensures d.wrote == c.wrote + [WriteReturn(buf, |buf|, false)]
    ensures d.got == c.got + [ReadReturn(count, |buf|, buf, |buf|, false)]
  {
    var c1 := ReturnWritten(c);
    d := ReturnIt(c1);
    ReachesOn(c, c1, d);
  }

  lemma RestingAtEase(c: Link)
    requires AtEase(c)
    ensures c.world.ring.consumer.Resting? && c.world.offer == S.NoOffer
  {
  }

  /** From any state at rest, for every message and every buffer it fits, however long
      and whatever the length of its last fragment: a run exists in which one write
      returns the message's length, one read returns the same length with the same
      bytes, and all is at rest again, ready for the next message. */
  lemma MessageGetsThrough(c: Link, buf: seq<byte>, count: nat) returns (d: Link)
    requires AtEase(c) && c.world.snd.tx.nextId != 0
    requires 0 < |buf| <= U64_MAX && |buf| <= count
    ensures Reaches(c, d) && AtEase(d)
    ensures d.wrote == c.wrote + [WriteReturn(buf, |buf|, false)]
    ensures d.got == c.got + [ReadReturn(count, |buf|, buf, |buf|, false)]
  {
    RestingAtEase(c);
    var c1 := BeginWriting(c, buf);
    var c2 := AllChunks(c1, buf, 0, count);
    d := ReturnBoth(c2, buf, count);
    ReachesOn(c, c1, c2);
    ReachesOn(c, c2, d);
  }

  /** The start of a session is such a state. */
  lemma StartIsAtEase()
    ensures AtEase(START) && START.world.snd.tx.nextId != 0
  {
    StartIsOk();
  }
}
