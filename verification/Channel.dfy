/** End-to-end delivery in terms of what the calls returned: over every interleaving
    of write calls and read calls, with any timeout, signal, copy fault and buffer
    size, what reads returned is a prefix of what writes closed. */
module Channel {
  import opened Machine
  import opened Wire
  import opened Stream
  import opened Sender
  import opened Receiver
  import opened Adapters
  import R = RingSteps
  import S = Session

  // ----- What returned calls amount to

  /** A write that returned its count closed its message; one that failed closed
      nothing, or one reset. */
  function Effect(w: WriteReturn): seq<Outcome> {
    if w.ret > 0 then [Whole(w.buf)] else if w.aborted then [Reset] else []
  }

  function WriteLog(wrote: seq<WriteReturn>): seq<Outcome> {
    if wrote == [] then [] else WriteLog(wrote[..|wrote| - 1]) + Effect(wrote[|wrote| - 1])
  }

  function Told(r: ReadReturn): seq<Outcome> {
    Ending(r.ret, r.user)
  }

  function ReadLog(got: seq<ReadReturn>): seq<Outcome> {
    if got == [] then [] else ReadLog(got[..|got| - 1]) + Told(got[|got| - 1])
  }

  lemma WriteLogSnoc(wrote: seq<WriteReturn>, w: WriteReturn)
    ensures WriteLog(wrote + [w]) == WriteLog(wrote) + Effect(w)
  {
    assert (wrote + [w])[..|wrote|] == wrote;
  }

  lemma ReadLogSnoc(got: seq<ReadReturn>, r: ReadReturn)
    ensures ReadLog(got + [r]) == ReadLog(got) + Told(r)
  {
    assert (got + [r])[..|got|] == got;
  }

  /** The write that has closed its message and is about to return. */
  function Closing(w: WriteCall): seq<Outcome> {
    if w.WriteDone? then Effect(w.result) else []
  }

  /** A write returns its whole count or one of these errors, and cancels only for
      reasons of its own. */
  predicate WriteOk(w: WriteReturn) {
    && (w.ret == |w.buf| > 0 || w.ret == -EINTR || w.ret == -EPIPE || w.ret == -EOVERFLOW || IsCancel(w.ret)
        || (w.ret == -EOPNOTSUPP && w.buf == []))
    && (w.buf == [] ==> w.ret == -EOPNOTSUPP)
    && (w.aborted ==> IsCancel(w.ret))
  }

  /** A read never stores more than `count` bytes, and a positive result counts them: it
      is the declared length.  Only a message longer than the buffer is refused, only
      an empty ring or an empty buffer is answered with 0, and no read ever fails but
      for a reason of the reader's own. */
  predicate ReadOk(r: ReadReturn) {
    && |r.user| <= r.count
    && (r.ret > 0 ==> r.ret == |r.user| == r.declared)
    && (r.ret == -EMSGSIZE ==> r.declared > r.count)
    && (r.ret == 0 ==> r.count == 0 || r.empty)
    && (r.ret < 0 ==> IsCancel(r.ret) || r.ret == -EINTR || r.ret == -EMSGSIZE || r.ret == -ECONNRESET || r.ret == -EOPNOTSUPP)
  }

  // ----- Invariant

  ghost predicate Sound(w: S.World) {
    R.WellFormed(w.ring) && forall n :: Inside(SessionPart, n) ==> S.WorldInv(w)
  }

  /** The sender has published exactly the first `sent` bytes of `buf`. */
  ghost predicate Sent(s: SendSide, buf: seq<byte>, sent: nat) {
    && s.tx.sending && s.tx.len == |buf| && s.tx.sent == sent < |buf|
    && Payload(s.open) == buf[..sent]
  }

  predicate AtRest(s: SendSide, txError: int) {
    if txError == 0 then !s.tx.sending else txError == -EPIPE
  }

  ghost predicate WriterOk(s: SendSide, offer: S.Offer, w: WriteCall, txError: int) {
    match w
    case NotWriting => offer == S.NoOffer && AtRest(s, txError)
    case Writing(buf, sent, full) =>
      && txError == 0 && Sent(s, buf, sent)
      && (offer == S.NoOffer || (!full && offer == S.OfFragment(ChunkFrom(buf, sent))))
    case Cancelling(buf, err, full) =>
      && txError == 0 && s.tx.sending && IsCancel(err) && buf != []
      && (offer == S.NoOffer || (!full && offer == S.OfAbort))
    case WriteDone(result) => offer == S.NoOffer && AtRest(s, txError) && WriteOk(result)
  }

  ghost predicate WritesOk(c: Link) {
    && WriterOk(c.world.snd, c.world.offer, c.writer, c.txError)
    && Outcomes(c.world.snd.groups) == WriteLog(c.wrote) + Closing(c.writer)
    && forall i :: 0 <= i < |c.wrote| ==> WriteOk(c.wrote[i])
  }

  /** The slot at the head opens a message of this length. */
  predicate Declares(ring: R.State, len: u64) {
    && ring.popped < |ring.pushed|
    && Decode(ring.pushed[ring.popped]).Good? && Decode(ring.pushed[ring.popped]).frame.len == len
  }

  /** A read is under way for a message that fits, of which `bytes` have been copied out. */
  ghost predicate Underway(w: S.World, job: Job, bytes: seq<byte>) {
    && job.metaLen <= job.count && |bytes| <= job.metaLen
    && w.reader.rx.state != Failed && w.reader.finished == [] && w.reader.copied == bytes
    && (if w.reader.rx.state == Receiving then w.reader.rx.len == job.metaLen
        else bytes == [] && Declares(w.ring, job.metaLen))
  }

  /** A receiver fed by this sender fails only when its own reader gives up. */
  ghost predicate FailureOk(r: S.Reader) {
    r.rx.state == Failed ==> IsCancel(r.rx.error)
  }

  ghost predicate Quiet(r: S.Reader) {
    r.rx.state == Idle && r.finished == [] && r.copied == []
  }

  ghost predicate ReaderOk(w: S.World, call: ReadCall) {
    match call
    case NotReading => w.ring.consumer.Resting? && (w.reader.rx.state == Failed || Quiet(w.reader))
    case PeekingMeta(_) => !w.ring.consumer.Releasing? && Quiet(w.reader)
    case Filling(job, slots, fragment) =>
      && Underway(w, job, job.user + fragment)
      && (slots > 0 ==> w.reader.rx.state == Receiving)
      && (slots == 0 ==> fragment == [])
    case Filled(job, slots, fragment, complete) =>
      && w.ring.consumer.Resting?
      && (if complete then
            && w.reader.rx.state == Idle && w.reader.copied == [] && w.reader.finished == [Whole(job.user + fragment)]
            && |job.user + fragment| == job.metaLen <= job.count
          else Underway(w, job, job.user + fragment))
    case Pausing(job) => w.ring.consumer.Resting? && Underway(w, job, job.user)
    case ReadDone(result) =>
      && w.ring.consumer.Resting? && ReadOk(result)
      && (result.ret == -EMSGSIZE ==> Declares(w.ring, result.declared))
      && (if w.reader.rx.state == Failed then Told(result) == []
          else w.reader.rx.state == Idle && w.reader.copied == [] && w.reader.finished == Told(result))
  }

  ghost predicate ReadsOk(c: Link) {
    && ReaderOk(c.world, c.reading)
    && FailureOk(c.world.reader)
    && ReadLog(c.got) == c.world.reader.delivered
    && forall i :: 0 <= i < |c.got| ==> ReadOk(c.got[i])
  }

  ghost predicate Inv(c: Link) {
    Sound(c.world) && WritesOk(c) && ReadsOk(c)
  }

  // ----- What the session's invariant gives

  ghost predicate SenderFacts(w: S.World) {
    && TxOk(w.snd.tx)
    && (w.snd.tx.sending ==> (w.snd.open != [] <==> w.snd.tx.published))
    && (!w.snd.tx.sending ==> w.snd.open == [])
    && (w.offer == S.NoOffer <==> w.ring.producer.Ready?)
    && (w.offer.OfFragment? ==> CanSend(w.snd.tx, w.offer.bytes))
    && (w.offer.OfAbort? ==> w.snd.tx.sending && w.snd.tx.published)
  }

  lemma SenderFromSession(w: S.World)
    requires Sound(w)
    ensures SenderFacts(w)
  {
    assert Inside(SessionPart, 0);
  }

  lemma SoundStep(w: S.World, a: S.Action)
    requires Sound(w) && S.Enabled(w, a)
    ensures Sound(S.Step(w, a))
  {
    assert Inside(SessionPart, 0);
    S.StepKeepsInv(w, a);
  }

  /** `v` is the reference machine after the slots released. */
  ghost predicate ReaderFacts(w: S.World, v: RecvSide) {
    && SideInv(v)
    && S.Follows(w.reader, v)
    && (w.ring.consumer.Holding? ==> w.ring.popped < |w.ring.pushed| && w.ring.consumer.slot == w.ring.pushed[w.ring.popped])
    && (w.ring.consumer.Releasing? ==>
          && w.ring.popped < |w.ring.pushed| && w.reader.rx.state != Failed
          && w.reader.verdict == Judge(v.rx, w.ring.pushed[w.ring.popped]) && w.reader.verdict.Accept?)
    && (w.ring.popped < |w.ring.pushed| ==> Judge(v.rx, w.ring.pushed[w.ring.popped]).Accept?)
  }

  lemma ReaderFromSession(w: S.World) returns (v: RecvSide)
    requires Sound(w)
    ensures ReaderFacts(w, v)
  {
    assert Inside(SessionPart, 0);
    ReplayInv(w.ring.pushed[..w.ring.popped]);
    S.NextIsAccepted(w);
    v := Replay(w.ring.pushed[..w.ring.popped]).side;
  }

  // ----- Steps of the write call

  /** The outcome log the session must show when the call stands at `call`. */
  ghost predicate Shows(s: SendSide, log: seq<Outcome>, call: WriteCall) {
    Outcomes(s.groups) == log + Closing(call)
  }

  lemma OfferAllowed(w: S.World, call: WriteCall, txError: int, a: WriteStep)
    requires Sound(w) && WriterOk(w.snd, w.offer, call, txError) && WriteEnabled(w, call, a)
    ensures Allowed(w, WriteMove(w, call, txError, a))
  {
    SenderFromSession(w);
    if a.OfferChunk? {
      FragmentAccepted(w.snd, ChunkFrom(call.buf, call.sent));
    } else if a.TryAbort? && w.snd.tx.sending && w.snd.tx.published {
      AbortAccepted(w.snd);
    }
  }

  lemma ChunkExtends(s: SendSide, buf: seq<byte>, sent: nat)
    requires Sent(s, buf, sent) && CanSend(s.tx, ChunkFrom(buf, sent))
    ensures var t, total := AfterFragment(s, ChunkFrom(buf, sent)), sent + |ChunkFrom(buf, sent)|;
            if total == |buf| then !t.tx.sending && Outcomes(t.groups) == Outcomes(s.groups) + [Whole(buf)]
            else Sent(t, buf, total) && t.groups == s.groups
  {
    var chunk := ChunkFrom(buf, sent);
    FragmentEffect(s, chunk);
    assert buf[..sent] + chunk == buf[..sent + |chunk|];
    if sent + |chunk| == |buf| {
      assert buf[..|buf|] == buf;
    }
  }

  lemma AbortResets(s: SendSide)
    ensures !AfterAbort(s).tx.sending && Outcomes(AfterAbort(s).groups) == Outcomes(s.groups) + [Reset]
  {
    OutcomesSnoc(s.groups, Group(s.tx.id, s.open + [AbortFrame(s.tx)], Reset));
  }

  lemma PushKeepsWriter(w: S.World, call: WriteCall, txError: int, r: R.Action, log: seq<Outcome>)
    requires Sound(w) && WriterOk(w.snd, w.offer, call, txError) && Shows(w.snd, log, call)
    requires WriteEnabled(w, call, PushStep(r)) && S.Enabled(w, S.Produce(r))
    ensures var x, next := S.Step(w, S.Produce(r)), AfterPush(call, R.EffectOf(w.ring, r));
            WriterOk(x.snd, x.offer, next, txError) && Shows(x.snd, log, next)
  {
    SenderFromSession(w);
    if r.StoreTail? {
      if call.Writing? {
        ChunkExtends(w.snd, call.buf, call.sent);
      } else {
        AbortResets(w.snd);
      }
    }
  }

  lemma WriteStepKeepsWriter(w: S.World, call: WriteCall, txError: int, a: WriteStep, log: seq<Outcome>)
    requires Sound(w) && WriterOk(w.snd, w.offer, call, txError) && Shows(w.snd, log, call)
    requires WriteEnabled(w, call, a) && Allowed(w, WriteMove(w, call, txError, a)) && !a.ReturnWrite?
    ensures var x, next := WorldAfter(w, WriteMove(w, call, txError, a)), WriteNext(w, call, txError, a);
            WriterOk(x.snd, x.offer, next, WriteMark(txError, a)) && Shows(x.snd, log, next)
  {
    if a.PushStep? {
      PushKeepsWriter(w, call, txError, a.r, log);
    } else {
      SenderFromSession(w);
    }
  }

  // ----- Steps of the read call

  /** The session after a look at the slot held, which is never refused. */
  function Looked(w: S.World, choice: Choice): S.World
    requires w.ring.consumer.Holding?
  {
    match choice
    case Drop(_) => w.(ring := w.ring.(consumer := R.Resting))
    case Refuse(_) => w
    case Take =>
      w.(ring := w.ring.(consumer := R.Releasing(w.ring.head)),
         reader := w.reader.(verdict := Judge(w.reader.rx, w.ring.consumer.slot)))
  }

  ghost predicate LookOk(w: S.World, call: ReadCall, choice: Choice)
    requires w.ring.consumer.Holding?
  {
    var verdict := Judge(w.reader.rx, w.ring.consumer.slot);
    && !choice.Refuse?
    && (choice.Take? ==> verdict.Accept? && w.reader.finished == [])
    && ReaderOk(Looked(w, choice), if choice.Take? then call else choice.next)
  }

  ghost predicate HoldsHead(ring: R.State) {
    ring.consumer.Holding? && ring.popped < |ring.pushed| && ring.consumer.slot == ring.pushed[ring.popped]
  }

  /** peek_meta refuses only what the transition rules refuse, with the same error. */
  lemma MetaRefusesAsJudge(rx: Rx, slot: Slot, count: nat)
    requires rx.state == Idle && MetaChoice(slot, count).Refuse?
    ensures Judge(rx, slot) == Reject(MetaChoice(slot, count).next.result.ret)
  {
  }

  lemma MetaIsOk(w: S.World, count: nat)
    requires HoldsHead(w.ring) && ReaderOk(w, PeekingMeta(count)) && Judge(w.reader.rx, w.ring.consumer.slot).Accept?
    ensures LookOk(w, PeekingMeta(count), MetaChoice(w.ring.consumer.slot, count))
  {
    if MetaChoice(w.ring.consumer.slot, count).Refuse? {
      MetaRefusesAsJudge(w.reader.rx, w.ring.consumer.slot, count);
    }
  }

  lemma FragmentFits(slot: Slot)
    ensures Decode(slot).Good? ==> |Decode(slot).frame.payload| <= FRAGMENT_CAPACITY
  {
  }

  lemma SlotIsOk(w: S.World, v: RecvSide, job: Job, slots: nat, fragment: seq<byte>)
    requires ReaderFacts(w, v) && w.ring.consumer.Holding? && ReaderOk(w, Filling(job, slots, fragment))
    ensures LookOk(w, Filling(job, slots, fragment), SlotChoice(w.reader.rx, w.ring.consumer.slot, job, slots, fragment))
  {
    FragmentFits(w.ring.consumer.slot);
  }

  /** The session's step is the one Looked describes. */
  lemma LookMoves(w: S.World, call: ReadCall, choice: Choice)
    requires R.WellFormed(w.ring) && w.ring.consumer.Holding? && LookOk(w, call, choice)
    ensures Allowed(w, ReadMove(call, Look(choice))) && WorldAfter(w, ReadMove(call, Look(choice))) == Looked(w, choice)
  {
    match choice
    case Drop(_) => DropMoves(w);
    case Take => TakeMoves(w);
  }

  lemma DropMoves(w: S.World)
    requires R.WellFormed(w.ring) && w.ring.consumer.Holding?
    ensures S.Enabled(w, S.Consume(R.DropPeek))
    ensures S.Step(w, S.Consume(R.DropPeek)) == w.(ring := w.ring.(consumer := R.Resting))
  {
  }

  lemma TakeMoves(w: S.World)
    requires R.WellFormed(w.ring) && w.ring.consumer.Holding? && w.reader.finished == []
    requires Judge(w.reader.rx, w.ring.consumer.slot).Accept?
    ensures S.Enabled(w, S.BeginRelease)
    ensures var verdict := Judge(w.reader.rx, w.ring.consumer.slot);
            S.Step(w, S.BeginRelease) ==
            w.(ring := w.ring.(consumer := R.Releasing(w.ring.head)), reader := w.reader.(verdict := verdict))
  {
  }

  /** What a step of the read call owes. */
  ghost predicate ReadStepOk(w: S.World, call: ReadCall, a: ReadStep)
    requires R.WellFormed(w.ring) && ReadEnabled(w, call, a)
  {
    var m := ReadMove(call, a);
    && Allowed(w, m)
    && ReaderOk(WorldAfter(w, m), ReadNext(w, call, a)) && FailureOk(WorldAfter(w, m).reader)
    && WorldAfter(w, m).reader.delivered == w.reader.delivered + (if a.ReturnRead? then Told(call.result) else [])
  }

  lemma LookIsOk(w: S.World, call: ReadCall, choice: Choice)
    requires Sound(w) && ReaderOk(w, call) && FailureOk(w.reader)
    requires ReadEnabled(w, call, Look(choice)) && Decides(w, call, Look(choice))
    ensures ReadStepOk(w, call, Look(choice))
  {
    var v := ReaderFromSession(w);
    if call.PeekingMeta? {
      MetaIsOk(w, call.count);
    } else {
      SlotIsOk(w, v, call.job, call.slots, call.fragment);
    }
    LookMoves(w, call, choice);
  }

  /** The session after the slot was popped. */
  function Freed(w: S.World): S.World
    requires w.reader.verdict.Accept? && w.reader.verdict.next.Next? && w.ring.consumer.Releasing?
  {
    w.(ring := w.ring.(head := (w.ring.consumer.head + 1) % U32_SPAN, consumer := R.Resting, popped := w.ring.popped + 1),
       reader := S.Released(w.reader))
  }

  /** The reader after a slot of a message of length `metaLen`. */
  ghost predicate Grows(r: S.Reader, q: S.Reader, f: Frame, n: Transition, metaLen: u64)
    requires n.Next?
  {
    var bytes := r.copied + f.payload;
    if n.aborted then q.rx.state == Idle && q.copied == [] && q.finished == [Reset]
    else if n.complete then q.rx.state == Idle && q.copied == [] && q.finished == [Whole(bytes)] && |bytes| == metaLen
    else q.rx.state == Receiving && q.rx.len == metaLen && q.copied == bytes && q.finished == [] && |bytes| <= metaLen
  }

  lemma ReleasedGrows(r: S.Reader, v: RecvSide, slot: Slot)
    requires SideInv(v) && S.Follows(r, v) && r.rx.state != Failed
    requires r.verdict == Judge(v.rx, slot) && r.verdict.Accept?
    ensures Grows(r, S.Released(r), r.verdict.frame, r.verdict.next, Declared(v, [slot]))
  {
    TakenMeaning(v, slot);
  }

  lemma GrownIsOk(w: S.World, x: S.World, call: ReadCall, f: Frame, n: Transition)
    requires call.Filling? && ReaderOk(w, call) && n.Next?
    requires x.ring.consumer.Resting? && Grows(w.reader, x.reader, f, n, call.job.metaLen)
    ensures ReaderOk(x, AfterRelease(call, Accept(f, n)))
  {
    var job, fragment := call.job, call.fragment;
    assert job.user + fragment + f.payload == job.user + (fragment + f.payload);
  }

  lemma DeclaredAtHand(w: S.World, v: RecvSide, call: ReadCall)
    requires ReaderFacts(w, v) && w.ring.consumer.Releasing? && call.Filling? && ReaderOk(w, call)
    ensures Declared(v, [w.ring.pushed[w.ring.popped]]) == call.job.metaLen
  {
  }

  lemma FreedIsOk(w: S.World, v: RecvSide, call: ReadCall)
    requires ReaderFacts(w, v) && w.ring.consumer.Releasing? && call.Filling? && ReaderOk(w, call)
    ensures w.reader.verdict.next.Next? && ReaderOk(Freed(w), AfterRelease(call, w.reader.verdict))
    ensures Freed(w).reader.rx.state != Failed
  {
    DeclaredAtHand(w, v, call);
    ReleasedGrows(w.reader, v, w.ring.pushed[w.ring.popped]);
    GrownIsOk(w, Freed(w), call, w.reader.verdict.frame, w.reader.verdict.next);
  }

  lemma ReleaseIsOk(w: S.World, call: ReadCall)
    requires Sound(w) && ReaderOk(w, call) && ReadEnabled(w, call, Release)
    ensures ReadStepOk(w, call, Release)
  {
    var v := ReaderFromSession(w);
    FreedIsOk(w, v, call);
    assert S.Step(w, S.EndRelease) == Freed(w);
  }

  lemma PeekIsOk(w: S.World, call: ReadCall, r: R.Action)
    requires Sound(w) && ReaderOk(w, call) && FailureOk(w.reader) && ReadEnabled(w, call, PeekStep(r))
    ensures ReadStepOk(w, call, PeekStep(r))
  {
  }

  lemma HandOverIsOk(w: S.World, call: ReadCall, a: ReadStep)
    requires Sound(w) && ReaderOk(w, call) && FailureOk(w.reader) && ReadEnabled(w, call, a)
    requires a.HandOver? || a.PauseRead?
    ensures ReadStepOk(w, call, a)
  {
  }

  lemma EndsAreOk(w: S.World, call: ReadCall, a: ReadStep)
    requires Sound(w) && ReaderOk(w, call) && FailureOk(w.reader) && ReadEnabled(w, call, a)
    requires a.BeginRead? || a.ReturnRead?
    ensures ReadStepOk(w, call, a)
  {
  }

  lemma ReadStepIsOk(w: S.World, call: ReadCall, a: ReadStep)
    requires Sound(w) && ReaderOk(w, call) && FailureOk(w.reader) && ReadEnabled(w, call, a) && Decides(w, call, a)
    ensures ReadStepOk(w, call, a)
  {
    match a
    case BeginRead(_, _) => EndsAreOk(w, call, a);
    case PeekStep(r) => PeekIsOk(w, call, r);
    case Look(choice) => LookIsOk(w, call, choice);
    case Release => ReleaseIsOk(w, call);
    case HandOver(_) => HandOverIsOk(w, call, a);
    case PauseRead(_) => HandOverIsOk(w, call, a);
    case ReturnRead => EndsAreOk(w, call, a);
  }

  // ----- Neither thread disturbs the other

  /** What the reader can tell of the session is as before; slots may have been added. */
  ghost predicate SameForReader(w: S.World, x: S.World) {
    && x.reader == w.reader && x.ring.consumer == w.ring.consumer
    && x.ring.popped == w.ring.popped && w.ring.pushed <= x.ring.pushed
  }

  lemma SameKeepsReader(w: S.World, x: S.World, call: ReadCall)
    requires SameForReader(w, x) && ReaderOk(w, call)
    ensures ReaderOk(x, call)
  {
  }

  lemma WriterLeavesReader(w: S.World, call: WriteCall, txError: int, a: WriteStep)
    requires WriteEnabled(w, call, a) && Allowed(w, WriteMove(w, call, txError, a))
    ensures SameForReader(w, WorldAfter(w, WriteMove(w, call, txError, a)))
  {
  }

  lemma ReaderLeavesWriter(w: S.World, call: ReadCall, a: ReadStep)
    requires Allowed(w, ReadMove(call, a))
    ensures var x := WorldAfter(w, ReadMove(call, a)); x.snd == w.snd && x.offer == w.offer
  {
  }

  lemma SoundAfter(w: S.World, m: Move)
    requires Sound(w) && Allowed(w, m)
    ensures Sound(WorldAfter(w, m))
  {
    if m.Does? {
      SoundStep(w, m.action);
    }
  }

  // ----- Steps of the link

  lemma WriterKeepsWrites(c: Link, a: WriteStep)
    requires Inv(c) && Enabled(c, ByWriter(a)) && Allowed(c.world, MoveOf(c, ByWriter(a)))
    ensures WritesOk(Step(c, ByWriter(a)))
  {
    if a.ReturnWrite? {
      WriteLogSnoc(c.wrote, c.writer.result);
    } else {
      WriteStepKeepsWriter(c.world, c.writer, c.txError, a, WriteLog(c.wrote));
    }
  }

  lemma WriterStepKeepsInv(c: Link, a: WriteStep)
    requires Inv(c) && Enabled(c, ByWriter(a))
    ensures Allowed(c.world, MoveOf(c, ByWriter(a))) && Inv(Step(c, ByWriter(a)))
  {
    OfferAllowed(c.world, c.writer, c.txError, a);
    SoundAfter(c.world, MoveOf(c, ByWriter(a)));
    WriterKeepsWrites(c, a);
    WriterLeavesReader(c.world, c.writer, c.txError, a);
    SameKeepsReader(c.world, Step(c, ByWriter(a)).world, c.reading);
  }

  lemma ReaderStepKeepsInv(c: Link, a: ReadStep)
    requires Inv(c) && Enabled(c, ByReader(a))
    ensures Allowed(c.world, MoveOf(c, ByReader(a))) && Inv(Step(c, ByReader(a)))
  {
    ReadStepIsOk(c.world, c.reading, a);
    SoundAfter(c.world, MoveOf(c, ByReader(a)));
    ReaderLeavesWriter(c.world, c.reading, a);
    if a.ReturnRead? {
      ReadLogSnoc(c.got, c.reading.result);
    }
  }

  /** Every step of either call is a step the session allows, or none, and keeps
      the invariant. */
  lemma StepKeepsInv(c: Link, a: Action)
    requires Inv(c) && Enabled(c, a)
    ensures Allowed(c.world, MoveOf(c, a)) && Inv(Step(c, a))
  {
    match a
    case ByWriter(w) => WriterStepKeepsInv(c, w);
    case ByReader(r) => ReaderStepKeepsInv(c, r);
  }

  // ----- Whole runs

  ghost predicate Possible(c: Link, run: seq<Action>)
    decreases |run|
  {
    run != [] ==>
      && Enabled(c, run[0]) && Allowed(c.world, MoveOf(c, run[0]))
      && Possible(Step(c, run[0]), run[1..])
  }

  ghost function Final(c: Link, run: seq<Action>): Link
    requires Possible(c, run)
    decreases |run|
  {
    if run == [] then c else Final(Step(c, run[0]), run[1..])
  }

  lemma {:induction false} RunKeepsInv(c: Link, run: seq<Action>)
    requires Inv(c) && Possible(c, run)
    ensures Inv(Final(c, run))
    decreases |run|
  {
    if run != [] {
      StepKeepsInv(c, run[0]);
      RunKeepsInv(Step(c, run[0]), run[1..]);
    }
  }

  lemma StartIsOk()
    ensures Inv(START)
  {
    S.FreshIsOk();
  }

  /** The session's part of a run: its steps without the stutters. */
  ghost function SessionRun(c: Link, run: seq<Action>): seq<S.Action>
    requires Possible(c, run)
    decreases |run|
  {
    if run == [] then []
    else
      (match MoveOf(c, run[0])
       case Stutter => []
       case Does(a) => [a]) + SessionRun(Step(c, run[0]), run[1..])
  }

  lemma SessionCons(w: S.World, a: S.Action, rest: seq<S.Action>)
    requires R.WellFormed(w.ring) && S.Enabled(w, a) && R.WellFormed(S.Step(w, a).ring)
    requires S.Possible(S.Step(w, a), rest)
    ensures S.Possible(w, [a] + rest) && S.Final(w, [a] + rest) == S.Final(S.Step(w, a), rest)
  {
    assert ([a] + rest)[1..] == rest;
  }

  lemma StepIsWellFormed(w: S.World, a: S.Action)
    requires R.WellFormed(w.ring) && S.Enabled(w, a)
    ensures R.WellFormed(S.Step(w, a).ring)
  {
  }

  /** Every run of the calls is a run of the session. */
  lemma {:induction false} RunRefinesSession(c: Link, run: seq<Action>)
    requires R.WellFormed(c.world.ring) && Possible(c, run)
    ensures S.Possible(c.world, SessionRun(c, run)) && S.Final(c.world, SessionRun(c, run)) == Final(c, run).world
    decreases |run|
  {
    if run != [] {
      var m, rest := MoveOf(c, run[0]), SessionRun(Step(c, run[0]), run[1..]);
      if m.Does? {
        StepIsWellFormed(c.world, m.action);
        RunRefinesSession(Step(c, run[0]), run[1..]);
        SessionCons(c.world, m.action, rest);
      } else {
        RunRefinesSession(Step(c, run[0]), run[1..]);
        assert [] + rest == rest;
      }
    }
  }

  /** Nothing a call may do next is ever held back by the session's own guards. */
  lemma NeverBlocked(run: seq<Action>, a: Action)
    requires Possible(START, run) && Enabled(Final(START, run), a)
    ensures Allowed(Final(START, run).world, MoveOf(Final(START, run), a))
  {
    StartIsOk();
    RunKeepsInv(START, run);
    StepKeepsInv(Final(START, run), a);
  }

  /** No read is under way, the receiver never failed, and the ring is empty. */
  predicate Drained(c: Link) {
    c.reading.NotReading? && c.world.reader.rx.state != Failed && c.world.ring.popped == |c.world.ring.pushed|
  }

  /** End-to-end delivery through both calls.  Over every interleaving of their atomic
      steps, with every timeout, signal, copy fault and buffer size: the messages and
      resets that reads have returned, bytes as stored in the callers' buffers, are a
      prefix of what the writes have closed, where a write that returned its count
      closed exactly its buffer and one that failed closed nothing or one reset; a
      reader that never failed and has emptied the ring has returned all of it.
      Between calls no send is active unless the endpoint is marked, and no message
      is half read. */
  lemma EndToEndDelivery(run: seq<Action>)
    requires Possible(START, run)
    ensures var c := Final(START, run);
            && ReadLog(c.got) <= WriteLog(c.wrote) + Closing(c.writer)
            && (Drained(c) ==> ReadLog(c.got) == WriteLog(c.wrote) + Closing(c.writer))
            && (forall i :: 0 <= i < |c.wrote| ==> WriteOk(c.wrote[i]))
            && (forall i :: 0 <= i < |c.got| ==> ReadOk(c.got[i]))
            && (c.writer.NotWriting? && c.txError == 0 ==> !c.world.snd.tx.sending)
            && (c.reading.NotReading? ==> c.world.reader.rx.state != Receiving)
  {
    StartIsOk();
    RunKeepsInv(START, run);
    DeliveredFromSession(Final(START, run));
  }

  lemma DeliveredFromSession(c: Link)
    requires Inv(c)
    ensures ReadLog(c.got) <= Outcomes(c.world.snd.groups)
    ensures Drained(c) ==> ReadLog(c.got) == Outcomes(c.world.snd.groups)
  {
    assert Inside(SessionPart, 0);
    S.DeliveredOfOk(c.world);
  }

  /** A write that could not even close its message with ABORT marks the endpoint for
      good: whatever is called later, nothing more is ever sent or closed. */
  lemma {:induction false} MarkIsForever(c: Link, run: seq<Action>)
    requires Inv(c) && c.txError != 0 && Possible(c, run)
    ensures var d := Final(c, run);
            && d.txError == c.txError && d.world.snd == c.world.snd
            && WriteLog(d.wrote) + Closing(d.writer) == WriteLog(c.wrote) + Closing(c.writer)
    decreases |run|
  {
    if run != [] {
      StepKeepsInv(c, run[0]);
      MarkedStep(c, run[0]);
      MarkIsForever(Step(c, run[0]), run[1..]);
    }
  }

  lemma MarkedStep(c: Link, a: Action)
    requires Inv(c) && c.txError != 0 && Enabled(c, a) && Allowed(c.world, MoveOf(c, a))
    ensures Step(c, a).txError == c.txError && Step(c, a).world.snd == c.world.snd
  {
    if a.ByReader? {
      ReaderLeavesWriter(c.world, c.reading, a.r);
    }
  }
}
