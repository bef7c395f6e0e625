/** One direction of a session as two threads: the sender's calls and the
    receiver's calls, each broken into the ring's atomic steps and interleaved
    freely, with cancellations, timeouts, signals and copy faults at any point. */
module Session {
  import opened Machine
  import opened Wire
  import opened Stream
  import opened Sender
  import opened Receiver
  import opened Delivery
  import R = RingSteps

  /** What the producer is pushing, if its ring program is under way. */
  datatype Offer = NoOffer | OfFragment(bytes: seq<byte>) | OfAbort

  /** The reader's thread: the receiver, what it made of the slot it is releasing,
      the bytes copied out for the message under way, the finished message a read is
      about to return, and everything reads have returned so far. */
  datatype Reader = Reader(rx: Rx, verdict: Verdict, copied: seq<byte>, finished: seq<Outcome>, delivered: seq<Outcome>)

  datatype World = World(ring: R.State, snd: SendSide, offer: Offer, reader: Reader)

  const FRESH := World(R.FRESH, INITIAL_SIDE, NoOffer, Reader(INITIAL_RECV.rx, Reject(0), [], [], []))

  datatype Action =
    | Start(len: u64)                 // axivc_message_start
    | OfferFragment(bytes: seq<byte>) // try_write encodes a fragment of any size and enters the push
    | OfferAbort                      // try_abort encodes ABORT and enters the push
    | Cancel                          // try_abort with nothing published
    | Produce(a: R.Action)            // the producer's next ring step
    | Consume(a: R.Action)            // the consumer's next ring step, up to holding or dropping a slot
    | BeginRelease                    // the slot held is validated, its payload copied, and is about to be popped
    | EndRelease                      // the popped slot's transition takes effect
    | Refuse                          // the held slot fails validation
    | Poison(error: int)              // timeout, signal or copy fault in the middle of a message
    | Report                          // a read returns one finished message to its caller

  function OfferedFrame(w: World): Frame {
    match w.offer
    case OfFragment(bytes) => FragmentFrame(w.snd.tx, bytes)
    case _ => AbortFrame(w.snd.tx)
  }

  function Accepted(w: World): SendSide
    requires w.offer.OfFragment? ==> CanSend(w.snd.tx, w.offer.bytes)
  {
    match w.offer
    case OfFragment(bytes) => AfterFragment(w.snd, bytes)
    case _ => AfterAbort(w.snd)
  }

  predicate Enabled(w: World, a: Action) {
    match a
    case Start(_) => w.offer == NoOffer
    case OfferFragment(bytes) =>
      w.offer == NoOffer && CanSend(w.snd.tx, bytes) && Encodable(FragmentFrame(w.snd.tx, bytes)) && w.ring.producer.Ready?
    case OfferAbort =>
      w.offer == NoOffer && w.snd.tx.sending && w.snd.tx.published && Encodable(AbortFrame(w.snd.tx)) && w.ring.producer.Ready?
    case Cancel => w.offer == NoOffer && w.snd.tx.sending && !w.snd.tx.published
    case Produce(r) => (r.LoadHead? || r.CopyByteIn? || r.StoreTail?) && R.Enabled(w.ring, r)
                       && (w.offer.OfFragment? ==> CanSend(w.snd.tx, w.offer.bytes))
    case Consume(r) => (r.BeginPeek? || r.LoadTail? || r.CopyByteOut? || r.EndPeek? || r.DropPeek?) && R.Enabled(w.ring, r)
    case BeginRelease =>
      w.ring.consumer.Holding? && Judge(w.reader.rx, w.ring.consumer.slot).Accept? && w.reader.finished == []
    case EndRelease => w.ring.consumer.Releasing? && w.reader.verdict.Accept? && w.reader.verdict.next.Next?
    case Refuse => w.ring.consumer.Holding? && Judge(w.reader.rx, w.ring.consumer.slot).Reject?
    case Poison(e) => e != 0 && !w.ring.consumer.Releasing?
    case Report => w.reader.rx.state != Failed && w.reader.finished != []
  }

  function Released(r: Reader): Reader
    requires r.verdict.Accept? && r.verdict.next.Next?
  {
    var Accept(f, n) := r.verdict;
    var bytes := r.copied + f.payload;
    r.(rx := Moved(r.rx, n),
       copied := if n.complete || n.aborted then [] else bytes,
       finished := if n.complete then [Whole(bytes)] else if n.aborted then [Reset] else [])
  }

  function Failing(r: Reader, error: int): Reader {
    r.(rx := Fail(r.rx, error))
  }

  function Step(w: World, a: Action): World
    requires R.WellFormed(w.ring) && Enabled(w, a)
  {
    match a
    case Start(len) => w.(snd := Started(w.snd, len))
    case OfferFragment(bytes) =>
      w.(offer := OfFragment(bytes), ring := R.Step(w.ring, R.BeginPush(SlotOf(FragmentFrame(w.snd.tx, bytes)))))
    case OfferAbort => w.(offer := OfAbort, ring := R.Step(w.ring, R.BeginPush(SlotOf(AbortFrame(w.snd.tx)))))
    case Cancel => w.(snd := AfterCancel(w.snd))
    case Produce(r) =>
      var ring := R.Step(w.ring, r);
      (match R.EffectOf(w.ring, r)
       case Pushed(_) => w.(ring := ring, offer := NoOffer, snd := Accepted(w))
       case Refused => w.(ring := ring, offer := NoOffer)
       case _ => w.(ring := ring))
    case Consume(r) => w.(ring := R.Step(w.ring, r))
    case BeginRelease =>
      w.(ring := R.Step(w.ring, R.BeginPop), reader := w.reader.(verdict := Judge(w.reader.rx, w.ring.consumer.slot)))
    case EndRelease => w.(ring := R.Step(w.ring, R.StoreHead), reader := Released(w.reader))
    case Refuse =>
      w.(ring := R.Step(w.ring, R.DropPeek), reader := Failing(w.reader, Judge(w.reader.rx, w.ring.consumer.slot).error))
    case Poison(e) => w.(reader := Failing(w.reader, e))
    case Report => w.(reader := w.reader.(delivered := w.reader.delivered + w.reader.finished, finished := []))
  }

  // ----- Invariant

  ghost predicate SendOk(w: World) {
    && Inv(w.snd)
    && Carries(w.ring.pushed, 0, Published(w.snd))
    && (w.offer == NoOffer <==> w.ring.producer.Ready?)
    && (w.offer != NoOffer ==> Encodable(OfferedFrame(w)) && w.ring.producer.slot == SlotOf(OfferedFrame(w)))
    && (w.offer.OfFragment? ==> CanSend(w.snd.tx, w.offer.bytes))
    && (w.offer.OfAbort? ==> w.snd.tx.sending && w.snd.tx.published)
  }

  /** The reader against the reference machine after the slots released. */
  ghost predicate Follows(r: Reader, v: RecvSide) {
    && r.delivered <= v.log
    && (r.rx.state != Failed ==> r.rx == v.rx && r.delivered + r.finished == v.log && r.copied == Payload(v.current))
  }

  ghost predicate RecvOk(w: World)
    requires w.ring.popped <= |w.ring.pushed|
  {
    var at := Replay(w.ring.pushed[..w.ring.popped]);
    && at.At? && Follows(w.reader, at.side)
    && (w.ring.consumer.Releasing? ==>
          && w.ring.popped < |w.ring.pushed| && w.reader.rx.state != Failed && w.reader.finished == []
          && w.reader.verdict == Judge(w.reader.rx, w.ring.pushed[w.ring.popped]) && w.reader.verdict.Accept?)
  }

  ghost predicate WorldInv(w: World) {
    R.Inv(w.ring) && SendOk(w) && RecvOk(w)
  }

  /** At any moment what was consumed is a prefix of what was closed, and the slot
      the receiver would look at next is one it accepts. */
  lemma NextIsAccepted(w: World)
    requires WorldInv(w)
    ensures var v := Replay(w.ring.pushed[..w.ring.popped]).side;
            && v.log <= Outcomes(w.snd.groups)
            && (w.ring.popped == |w.ring.pushed| ==> v.log == Outcomes(w.snd.groups))
            && (w.ring.popped < |w.ring.pushed| ==> Judge(v.rx, w.ring.pushed[w.ring.popped]).Accept?)
  {
    DeliveredIsPrefix(w.ring.pushed, w.snd, w.ring.popped);
  }

  lemma SenderStepKeepsInv(w: World, a: Action)
    requires WorldInv(w) && Enabled(w, a)
    requires a.Start? || a.Cancel?
    ensures WorldInv(Step(w, a))
  {
    if a.Start? {
      StartedKeepsInv(w.snd, a.len);
    }
  }

  lemma OfferKeepsInv(w: World, a: Action)
    requires WorldInv(w) && Enabled(w, a)
    requires a.OfferFragment? || a.OfferAbort?
    ensures WorldInv(Step(w, a))
  {
    var slot := SlotOf(if a.OfferFragment? then FragmentFrame(w.snd.tx, a.bytes) else AbortFrame(w.snd.tx));
    R.StepKeepsInv(w.ring, R.BeginPush(slot));
  }

  lemma PushIsPublication(w: World)
    requires WorldInv(w) && R.Enabled(w.ring, R.StoreTail)
    ensures var next := Accepted(w);
            Inv(next) && Carries(w.ring.pushed + [w.ring.producer.slot], 0, Published(next))
  {
    if w.offer.OfFragment? {
      FragmentKeepsInv(w.snd, w.offer.bytes);
    } else {
      AbortKeepsInv(w.snd);
    }
    CarriesSnoc(w.ring.pushed, 0, Published(w.snd), OfferedFrame(w));
  }

  lemma PublishKeepsInv(w: World)
    requires WorldInv(w) && Enabled(w, Produce(R.StoreTail))
    ensures WorldInv(Step(w, Produce(R.StoreTail)))
  {
    R.StepKeepsInv(w.ring, R.StoreTail);
    PushIsPublication(w);
    TakeOfSnoc(w.ring.pushed, w.ring.producer.slot, w.ring.popped);
  }

  lemma ProduceKeepsInv(w: World, r: R.Action)
    requires WorldInv(w) && Enabled(w, Produce(r)) && !r.StoreTail?
    ensures WorldInv(Step(w, Produce(r)))
  {
    R.StepKeepsInv(w.ring, r);
  }

  lemma ConsumeKeepsInv(w: World, r: R.Action)
    requires WorldInv(w) && Enabled(w, Consume(r))
    ensures WorldInv(Step(w, Consume(r)))
  {
    R.StepKeepsInv(w.ring, r);
  }

  lemma ReleasedFollows(r: Reader, v: RecvSide, slot: Slot)
    requires Follows(r, v) && r.rx.state != Failed && r.finished == []
    requires r.verdict == Judge(v.rx, slot) && r.verdict.Accept?
    ensures Follows(Released(r), Taken(v, slot))
  {
    var Accept(f, n) := r.verdict;
    PayloadSnoc(v.current, f);
    assert r.delivered + [] == r.delivered;
  }

  lemma EndReleaseKeepsInv(w: World)
    requires WorldInv(w) && Enabled(w, EndRelease)
    ensures WorldInv(Step(w, EndRelease))
  {
    R.StepKeepsInv(w.ring, R.StoreHead);
    var v := Replay(w.ring.pushed[..w.ring.popped]).side;
    ReplayNext(w.ring.pushed, w.ring.popped, v);
    ReleasedFollows(w.reader, v, w.ring.pushed[w.ring.popped]);
  }

  lemma ReplayNext(slots: seq<Slot>, k: nat, v: RecvSide)
    requires k < |slots| && Replay(slots[..k]) == At(v) && Judge(v.rx, slots[k]).Accept?
    ensures Replay(slots[..k + 1]) == At(Taken(v, slots[k]))
  {
    ReplaySnoc(slots[..k], slots[k]);
    assert slots[..k] + [slots[k]] == slots[..k + 1];
  }

  lemma VerdictKeepsInv(w: World, a: Action)
    requires WorldInv(w) && Enabled(w, a)
    requires a.BeginRelease? || a.Refuse?
    ensures WorldInv(Step(w, a))
  {
    R.StepKeepsInv(w.ring, if a.BeginRelease? then R.BeginPop else R.DropPeek);
  }

  lemma ReaderStepKeepsInv(w: World, a: Action)
    requires WorldInv(w) && Enabled(w, a)
    requires a.Poison? || a.Report?
    ensures WorldInv(Step(w, a))
  {
  }

  lemma StepKeepsInv(w: World, a: Action)
    requires WorldInv(w) && Enabled(w, a)
    ensures WorldInv(Step(w, a))
  {
    match a
    case Start(_) => SenderStepKeepsInv(w, a);
    case Cancel => SenderStepKeepsInv(w, a);
    case OfferFragment(_) => OfferKeepsInv(w, a);
    case OfferAbort => OfferKeepsInv(w, a);
    case Produce(r) =>
      if r.StoreTail? {
        PublishKeepsInv(w);
      } else {
        ProduceKeepsInv(w, r);
      }
    case Consume(r) => ConsumeKeepsInv(w, r);
    case EndRelease => EndReleaseKeepsInv(w);
    case BeginRelease => VerdictKeepsInv(w, a);
    case Refuse => VerdictKeepsInv(w, a);
    case Poison(_) => ReaderStepKeepsInv(w, a);
    case Report => ReaderStepKeepsInv(w, a);
  }

  // ----- Whole runs

  ghost predicate Possible(w: World, run: seq<Action>)
    requires R.WellFormed(w.ring)
    decreases |run|
  {
    run != [] ==> Enabled(w, run[0]) && R.WellFormed(Step(w, run[0]).ring) && Possible(Step(w, run[0]), run[1..])
  }

  ghost function Final(w: World, run: seq<Action>): World
    requires R.WellFormed(w.ring) && Possible(w, run)
    decreases |run|
  {
    if run == [] then w else Final(Step(w, run[0]), run[1..])
  }

  lemma {:induction false} RunKeepsInv(w: World, run: seq<Action>)
    requires WorldInv(w) && Possible(w, run)
    ensures WorldInv(Final(w, run))
    decreases |run|
  {
    if run != [] {
      StepKeepsInv(w, run[0]);
      RunKeepsInv(Step(w, run[0]), run[1..]);
    }
  }

  lemma FreshIsOk()
    ensures WorldInv(FRESH)
  {
    assert Carries([], 0, Published(INITIAL_SIDE));
    assert FRESH.ring.pushed[..0] == [];
  }

  lemma ReachableIsOk(run: seq<Action>)
    requires Possible(FRESH, run)
    ensures WorldInv(Final(FRESH, run))
  {
    FreshIsOk();
    RunKeepsInv(FRESH, run);
  }

  lemma DeliveredOfOk(w: World)
    requires WorldInv(w)
    ensures w.reader.delivered <= Outcomes(w.snd.groups) && IsHistory(w.snd.groups)
    ensures AllDelivered(w) ==> w.reader.delivered == Outcomes(w.snd.groups)
  {
    NextIsAccepted(w);
    assert w.reader.delivered + [] == w.reader.delivered;
  }

  /** The reader never failed, has emptied the ring and holds nothing back. */
  predicate AllDelivered(w: World) {
    w.reader.rx.state != Failed && w.ring.popped == |w.ring.pushed| && w.reader.finished == []
  }

  /** End-to-end delivery.  In one session, over every interleaving of the two
      sides' atomic ring steps and every choice of message, chunking, abort,
      cancellation and poisoning: the messages and resets that reads have returned,
      put together from the payload bytes copied out of the peeked slots, are a
      prefix of the messages the sender closed, with their exact bytes and in order;
      and a reader that never failed and has emptied the ring has returned all. */
  lemma EndToEndDelivery(run: seq<Action>)
    requires Possible(FRESH, run)
    ensures var w := Final(FRESH, run);
            && w.reader.delivered <= Outcomes(w.snd.groups)
            && IsHistory(w.snd.groups)
            && (AllDelivered(w) ==> w.reader.delivered == Outcomes(w.snd.groups))
  {
    ReachableIsOk(run);
    DeliveredOfOk(Final(FRESH, run));
  }

  lemma RefusalMeansFailed(w: World)
    requires WorldInv(w) && Enabled(w, Refuse)
    ensures w.reader.rx.state == Failed
  {
    NextIsAccepted(w);
  }

  /** A receiver fed by this sender never fails by itself: no reachable state lets
      decoding or a transition check refuse a slot, unless it was poisoned before. */
  lemma NeverRefused(run: seq<Action>)
    requires Possible(FRESH, run)
    ensures var w := Final(FRESH, run); Enabled(w, Refuse) ==> w.reader.rx.state == Failed
  {
    ReachableIsOk(run);
    var w := Final(FRESH, run);
    if Enabled(w, Refuse) {
      RefusalMeansFailed(w);
    }
  }

  /** Whatever the ring allows, the session allows, every fragment or ABORT the
      sender may publish encodes without error, and a slot being released is one
      that takes effect. */
  ghost predicate Unblocked(w: World) {
    && (forall r: R.Action :: (r.LoadHead? || r.CopyByteIn? || r.StoreTail?) && R.Enabled(w.ring, r) ==> Enabled(w, Produce(r)))
    && (w.ring.consumer.Releasing? ==> Enabled(w, EndRelease))
    && (forall bytes :: CanSend(w.snd.tx, bytes) ==> Encodable(FragmentFrame(w.snd.tx, bytes)))
    && (w.snd.tx.sending && w.snd.tx.published ==> Encodable(AbortFrame(w.snd.tx)))
    && (w.offer == NoOffer ==> w.ring.producer.Ready?)
  }

  lemma OkIsUnblocked(w: World)
    requires WorldInv(w)
    ensures Unblocked(w)
  {
    NextIsAccepted(w);
  }

  /** The guards that mention history never hold a thread back. */
  lemma GuardsNeverBlock(run: seq<Action>)
    requires Possible(FRESH, run)
    ensures Unblocked(Final(FRESH, run))
  {
    ReachableIsOk(run);
    OkIsUnblocked(Final(FRESH, run));
  }
}
