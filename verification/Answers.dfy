/** Why a call answers what it does: each result of a write or a read against the state
    of the session in which it is decided. */
module Answers {
  import opened Machine
  import opened Wire
  import opened Stream
  import opened Sender
  import opened Receiver
  import opened Adapters
  import opened Channel
  import R = RingSteps
  import S = Session

  /** The step `a` makes the read return `result`. */
  ghost predicate ReadDue(c: Link, a: ReadStep, result: ReadReturn)
    requires R.WellFormed(c.world.ring)
  {
    var ring, rx := c.world.ring, c.world.reader.rx;
    match a
    case BeginRead(count, signalled) =>
      result.ret == if count == 0 then 0 else if signalled then -EINTR else rx.error
    case PeekStep(_) => c.reading.PeekingMeta? && result.ret == 0 && ring.popped == |ring.pushed|
    case Look(_) =>
      c.reading.PeekingMeta? && result.ret == -EMSGSIZE && Declares(ring, result.declared) && result.declared > c.reading.count
    case Release => result.ret == -ECONNRESET && HeadAborts(ring)
    case HandOver(fault) =>
      && c.reading.Filled?
      && (if fault && c.reading.fragment != [] then result.ret == -EFAULT
          else
            && c.reading.complete
            && result.ret == (if c.reading.job.metaLen == 0 then -EOPNOTSUPP else c.reading.job.metaLen))
    case PauseRead(p) => result.ret == if p == TimedOut then -ETIMEDOUT else -ERESTARTSYS
    case ReturnRead => false
  }

  predicate HeadAborts(ring: R.State) {
    && ring.popped < |ring.pushed|
    && Decode(ring.pushed[ring.popped]).Good? && Decode(ring.pushed[ring.popped]).frame.abort
  }

  lemma PeekDue(c: Link, r: R.Action)
    requires Channel.Inv(c) && ReadEnabled(c.world, c.reading, PeekStep(r))
    requires ReadNext(c.world, c.reading, PeekStep(r)).ReadDone?
    ensures ReadDue(c, PeekStep(r), ReadNext(c.world, c.reading, PeekStep(r)).result)
  {
    EmptyIsEmpty(c.world, r);
  }

  /** A counter comparison that finds the ring empty, or full, finds the truth. */
  lemma EmptyIsEmpty(w: S.World, r: R.Action)
    requires Sound(w) && R.Enabled(w.ring, r)
    ensures R.EffectOf(w.ring, r) == R.SawEmpty ==> w.ring.popped == |w.ring.pushed|
    ensures R.EffectOf(w.ring, r) == R.Refused ==> |w.ring.pushed| == w.ring.popped + R.CAPACITY
  {
    assert Inside(SessionPart, 0);
    R.StepRefinesFifo(w.ring, r);
  }

  lemma LookDue(c: Link, choice: Choice)
    requires Channel.Inv(c) && ReadEnabled(c.world, c.reading, Look(choice)) && Decides(c.world, c.reading, Look(choice))
    requires ReadNext(c.world, c.reading, Look(choice)).ReadDone?
    ensures ReadDue(c, Look(choice), ReadNext(c.world, c.reading, Look(choice)).result)
  {
    ReadStepIsOk(c.world, c.reading, Look(choice));
    var v := ReaderFromSession(c.world);
    FragmentFits(c.world.ring.consumer.slot);
    if c.reading.PeekingMeta? {
      MetaIsOk(c.world, c.reading.count);
    }
  }

  lemma ReleaseDue(c: Link)
    requires Channel.Inv(c) && ReadEnabled(c.world, c.reading, Release)
    requires ReadNext(c.world, c.reading, Release).ReadDone?
    ensures ReadDue(c, Release, ReadNext(c.world, c.reading, Release).result)
  {
    var v := ReaderFromSession(c.world);
    TakenMeaning(v, c.world.ring.pushed[c.world.ring.popped]);
  }

  /** Every answer of a read has its cause in the state that decides it.  In particular
      a message that fits is never refused, a failed receiver answers with its own
      error, a visible message is never mistaken for an empty ring, and no slot that
      this sender published ever fails a read. */
  lemma ReadAnswers(run: seq<Action>, a: ReadStep)
    requires Possible(START, run) && Enabled(Final(START, run), ByReader(a))
    ensures var c := Final(START, run);
            && R.WellFormed(c.world.ring)
            && (ReadNext(c.world, c.reading, a).ReadDone? && !c.reading.ReadDone? ==>
                  ReadDue(c, a, ReadNext(c.world, c.reading, a).result))
  {
    StartIsOk();
    RunKeepsInv(START, run);
    var c := Final(START, run);
    if ReadNext(c.world, c.reading, a).ReadDone? && !c.reading.ReadDone? {
      match a
      case PeekStep(r) => PeekDue(c, r);
      case Look(choice) => LookDue(c, choice);
      case Release => ReleaseDue(c);
      case _ =>
    }
  }

  /** The step `a` makes the write return `result`. */
  ghost predicate WriteDue(c: Link, a: WriteStep, result: WriteReturn) {
    var tx := c.world.snd.tx;
    match a
    case BeginWrite(buf, signalled) =>
      && result.buf == buf && !result.aborted
      && result.ret == (if buf == [] then -EOPNOTSUPP else if signalled then -EINTR else if c.txError != 0 then c.txError else -EOVERFLOW)
      && (result.ret == -EOVERFLOW ==> tx.nextId == 0)
    case PushStep(r) =>
      && r.StoreTail?
      && (if c.writer.Cancelling? then result == WriteReturn(c.writer.buf, c.writer.err, true) && tx.published
          else c.writer.Writing? && result == WriteReturn(c.writer.buf, |c.writer.buf|, false))
    case TryAbort => c.writer.Cancelling? && result == WriteReturn(c.writer.buf, c.writer.err, false) && !tx.published
    case RetryAbort(late) => late && c.writer.Cancelling? && result == WriteReturn(c.writer.buf, c.writer.err, false)
    case _ => false
  }

  /** The step `a` makes the write give its message up with `err`. */
  predicate CancelDue(c: Link, a: WriteStep, err: int) {
    match a
    case OfferChunk(fault) => fault && err == -EFAULT
    case PauseWrite(p) => c.writer.Writing? && c.writer.full && p != Slept && err == PauseError(p)
    case _ => false
  }

  /** Every answer of a write has its cause, and so has every message given up: a copy
      fault, or a timeout or signal in a wait that a full ring brought about. */
  lemma WriteAnswers(run: seq<Action>, a: WriteStep)
    requires Possible(START, run) && Enabled(Final(START, run), ByWriter(a))
    ensures var c := Final(START, run);
            && R.WellFormed(c.world.ring)
            && var next := WriteNext(c.world, c.writer, c.txError, a);
            && (next.WriteDone? && !c.writer.WriteDone? ==> WriteDue(c, a, next.result))
            && (next.Cancelling? && !c.writer.Cancelling? ==> CancelDue(c, a, next.err))
            && (next.Writing? && next.full && !(c.writer.Writing? && c.writer.full) ==> a.PushStep? && |c.world.ring.pushed| == c.world.ring.popped + R.CAPACITY)
  {
    StartIsOk();
    RunKeepsInv(START, run);
    var c := Final(START, run);
    SenderFromSession(c.world);
    if a.PushStep? {
      EmptyIsEmpty(c.world, a.r);
    }
  }
}
