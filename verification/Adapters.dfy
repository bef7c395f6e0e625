/** One direction of a channel as the two calls that use it: a thread of write
    calls and a thread of read calls (ivc/ivc.c) over one session, taking atomic
    steps in any order.  Every step is a step of the session or leaves it alone. */
module Adapters {
  import opened Machine
  import opened Wire
  import opened Stream
  import opened Sender
  import opened Receiver
  import R = RingSteps
  import S = Session

  /** How a wait ends: the sleep is over, the deadline has passed, a signal came. */
  datatype Pause = Slept | TimedOut | Signalled

  function PauseError(p: Pause): int {
    match p
    case Slept => 0
    case TimedOut => -ETIMEDOUT
    case Signalled => -ERESTARTSYS
  }

  // ----- axivc_send_message

  /** What a write returned; `aborted` when it closed its message with ABORT. */
  datatype WriteReturn = WriteReturn(buf: seq<byte>, ret: int, aborted: bool)

  /** `full` when the last push was refused. */
  datatype WriteCall =
    | NotWriting
    | Writing(buf: seq<byte>, sent: nat, full: bool)
    | Cancelling(buf: seq<byte>, err: int, full: bool)
    | WriteDone(result: WriteReturn)

  // ----- axivc_recv_message

  /** What a read returned, and the bytes it stored in the caller's buffer of size
      `count`.  As history: the length that the message at hand declared, and whether
      the ring was seen empty in its place. */
  datatype ReadReturn = ReadReturn(count: nat, ret: int, user: seq<byte>, declared: u64, empty: bool)

  datatype Job = Job(count: nat, metaLen: u64, user: seq<byte>)

  /** Filling: inside try_read, with the fragment so far and the slots consumed.
      Filled: try_read has returned 0. */
  datatype ReadCall =
    | NotReading
    | PeekingMeta(count: nat)
    | Filling(job: Job, slots: nat, fragment: seq<byte>)
    | Filled(job: Job, slots: nat, fragment: seq<byte>, complete: bool)
    | Pausing(job: Job)
    | ReadDone(result: ReadReturn)

  /** The session, the two threads, and the results of all finished calls. */
  datatype Link = Link(
    world: S.World,
    writer: WriteCall, txError: int, wrote: seq<WriteReturn>,
    reading: ReadCall, got: seq<ReadReturn>)

  const START := Link(S.FRESH, NotWriting, 0, [], NotReading, [])

  datatype WriteStep =
    | BeginWrite(buf: seq<byte>, signalled: bool)
    | OfferChunk(fault: bool)          // copy_from_user, then try_write up to the push
    | PushStep(r: R.Action)
    | PauseWrite(pause: Pause)
    | TryAbort
    | RetryAbort(late: bool)
    | ReturnWrite

  datatype ReadStep =
    | BeginRead(count: nat, signalled: bool)
    | PeekStep(r: R.Action)
    | Look(choice: Choice)             // what the code decides about the slot it holds
    | Release
    | HandOver(fault: bool)            // copy_to_user
    | PauseRead(pause: Pause)
    | ReturnRead

  datatype Action = ByWriter(w: WriteStep) | ByReader(r: ReadStep)

  /** How to go on with the slot held: put it back and go on elsewhere, fail the
      receiver and return, or consume it. */
  datatype Choice = Drop(next: ReadCall) | Refuse(next: ReadCall) | Take

  predicate IsPushStep(r: R.Action) {
    r.LoadHead? || r.CopyByteIn? || r.StoreTail?
  }

  predicate IsPeekStep(r: R.Action) {
    r.BeginPeek? || r.LoadTail? || r.CopyByteOut? || r.EndPeek?
  }

  // ----- Decisions of the write call

  function BeginError(tx: Tx, txError: int, buf: seq<byte>, signalled: bool): int {
    if buf == [] then -EOPNOTSUPP
    else if signalled then -EINTR
    else if txError != 0 then txError
    else StartError(tx)
  }

  function ChunkFrom(buf: seq<byte>, sent: nat): seq<byte> {
    buf[Min(sent, |buf|)..Min(sent + FRAGMENT_CAPACITY, |buf|)]
  }

  /** The writer after its ring step: the push went through, was refused, or goes on. */
  function AfterPush(call: WriteCall, e: R.Effect): WriteCall
    requires call.Writing? || call.Cancelling?
  {
    match e
    case Pushed(_) =>
      if call.Cancelling? then WriteDone(WriteReturn(call.buf, call.err, true))
      else
        var sent := call.sent + |ChunkFrom(call.buf, call.sent)|;
        if sent == |call.buf| then WriteDone(WriteReturn(call.buf, |call.buf|, false))
        else call.(sent := sent)
    case Refused => call.(full := true)
    case _ => call
  }

  // ----- Decisions of the read call

  function Returns(job: Job, ret: int): ReadCall {
    ReadDone(ReadReturn(job.count, ret, job.user, job.metaLen, false))
  }

  function AfterBegin(rx: Rx, count: nat, signalled: bool): ReadCall {
    var job := Job(count, rx.len, []);
    if count == 0 then Returns(job, 0)
    else if signalled then Returns(job, -EINTR)
    else
      match rx.state
      case Failed => Returns(job, rx.error)
      case Receiving => if rx.len > count then Returns(job, -EMSGSIZE) else Filling(job, 0, [])
      case Idle => PeekingMeta(count)
  }

  /** The reader after a ring step that may have found the ring empty. */
  function AfterPeek(call: ReadCall, e: R.Effect): ReadCall
    requires call.PeekingMeta? || call.Filling?
  {
    if e != R.SawEmpty then call
    else if call.PeekingMeta? then ReadDone(ReadReturn(call.count, 0, [], 0, true))
    else Filled(call.job, call.slots, call.fragment, false)
  }

  /** peek_meta on the slot at the head, then the size test. */
  function MetaChoice(slot: Slot, count: nat): Choice {
    match Decode(slot)
    case Malformed(e) => Refuse(Returns(Job(count, 0, []), e))
    case Good(f) =>
      var job := Job(count, f.len, []);
      if f.abort || !f.first then Refuse(Returns(job, -EPROTO))
      else if f.len > count then Drop(Returns(job, -EMSGSIZE))
      else Drop(Filling(job, 0, []))
  }

  /** The loop body of try_read on the slot at the head. */
  function SlotChoice(rx: Rx, slot: Slot, job: Job, slots: nat, fragment: seq<byte>): Choice {
    match Judge(rx, slot)
    case Reject(e) => if slots > 0 then Drop(Filled(job, slots, fragment, false)) else Refuse(Returns(job, e))
    case Accept(f, n) =>
      if n.aborted && slots > 0 then Drop(Filled(job, slots, fragment, false))
      else if |fragment| + |f.payload| > FRAGMENT_CAPACITY then
        Drop(if slots > 0 then Filled(job, slots, fragment, false) else Returns(job, -EMSGSIZE))
      else Take
  }

  /** What the code decides about the slot it holds. */
  function ChoiceOf(rx: Rx, slot: Slot, call: ReadCall): Choice
    requires call.PeekingMeta? || call.Filling?
  {
    if call.PeekingMeta? then MetaChoice(slot, call.count)
    else SlotChoice(rx, slot, call.job, call.slots, call.fragment)
  }

  function AfterRelease(r: ReadCall, v: Verdict): ReadCall
    requires r.Filling?
  {
    if !v.Accept? || !v.next.Next? then r
    else if v.next.aborted then Returns(r.job, -ECONNRESET)
    else if v.next.complete then Filled(r.job, r.slots + 1, r.fragment + v.frame.payload, true)
    else Filling(r.job, r.slots + 1, r.fragment + v.frame.payload)
  }

  predicate Faults(r: ReadCall, fault: bool)
    requires r.Filled?
  {
    fault && r.fragment != []
  }

  function AfterHandOver(r: ReadCall, fault: bool): ReadCall
    requires r.Filled?
  {
    var job := r.job.(user := r.job.user + r.fragment);
    if Faults(r, fault) then Returns(r.job, -EFAULT)
    else if r.complete then Returns(job, if job.metaLen == 0 then -EOPNOTSUPP else |job.user|)
    else if r.slots > 0 then Filling(job, 0, [])
    else Pausing(job)
  }

  // ----- Steps of the write call

  datatype Move = Stutter | Does(action: S.Action)

  predicate WriteEnabled(w: S.World, call: WriteCall, a: WriteStep) {
    match a
    case BeginWrite(buf, _) => call.NotWriting? && |buf| <= U64_MAX
    case OfferChunk(_) => call.Writing? && !call.full && w.offer == S.NoOffer
    case PushStep(r) => (call.Writing? || call.Cancelling?) && w.offer != S.NoOffer && IsPushStep(r) && R.Enabled(w.ring, r)
    case PauseWrite(_) => call.Writing? && call.full
    case TryAbort => call.Cancelling? && !call.full && w.offer == S.NoOffer
    case RetryAbort(_) => call.Cancelling? && call.full
    case ReturnWrite => call.WriteDone?
  }

  /** What the step does to the session. */
  function WriteMove(w: S.World, call: WriteCall, txError: int, a: WriteStep): Move
    requires WriteEnabled(w, call, a)
  {
    match a
    case BeginWrite(buf, signalled) =>
      if BeginError(w.snd.tx, txError, buf, signalled) != 0 then Stutter else Does(S.Start(|buf|))
    case OfferChunk(fault) => if fault then Stutter else Does(S.OfferFragment(ChunkFrom(call.buf, call.sent)))
    case PushStep(r) => Does(S.Produce(r))
    case TryAbort =>
      if !w.snd.tx.sending then Stutter
      else if !w.snd.tx.published then Does(S.Cancel)
      else Does(S.OfferAbort)
    case _ => Stutter
  }

  function WriteNext(w: S.World, call: WriteCall, txError: int, a: WriteStep): WriteCall
    requires R.WellFormed(w.ring) && WriteEnabled(w, call, a)
  {
    match a
    case BeginWrite(buf, signalled) =>
      var err := BeginError(w.snd.tx, txError, buf, signalled);
      if err != 0 then WriteDone(WriteReturn(buf, err, false)) else Writing(buf, 0, false)
    case OfferChunk(fault) => if fault then Cancelling(call.buf, -EFAULT, false) else call
    case PushStep(r) => AfterPush(call, R.EffectOf(w.ring, r))
    case PauseWrite(p) => if p == Slept then call.(full := false) else Cancelling(call.buf, PauseError(p), false)
    case TryAbort =>
      if w.snd.tx.sending && w.snd.tx.published then call else WriteDone(WriteReturn(call.buf, call.err, false))
    case RetryAbort(late) =>
      if late then WriteDone(WriteReturn(call.buf, call.err, false)) else call.(full := false)
    case ReturnWrite => NotWriting
  }

  /** axivc_abort_send gives up. */
  function WriteMark(txError: int, a: WriteStep): int {
    if a.RetryAbort? && a.late then -EPIPE else txError
  }

  // ----- Steps of the read call

  predicate ReadEnabled(w: S.World, call: ReadCall, a: ReadStep) {
    match a
    case BeginRead(_, _) => call.NotReading?
    case PeekStep(r) => (call.PeekingMeta? || call.Filling?) && IsPeekStep(r) && R.Enabled(w.ring, r)
    case Look(_) => (call.PeekingMeta? || call.Filling?) && w.ring.consumer.Holding?
    case Release => call.Filling? && w.ring.consumer.Releasing?
    case HandOver(_) => call.Filled?
    case PauseRead(_) => call.Pausing?
    case ReturnRead => call.ReadDone?
  }

  /** A look decides what the code decides. */
  predicate Decides(w: S.World, call: ReadCall, a: ReadStep)
    requires ReadEnabled(w, call, a)
  {
    a.Look? ==> a.choice == ChoiceOf(w.reader.rx, w.ring.consumer.slot, call)
  }

  function ReadMove(call: ReadCall, a: ReadStep): Move {
    match a
    case PeekStep(r) => Does(S.Consume(r))
    case Look(Drop(_)) => Does(S.Consume(R.DropPeek))
    case Look(Refuse(_)) => Does(S.Refuse)
    case Look(Take) => Does(S.BeginRelease)
    case Release => Does(S.EndRelease)
    case HandOver(fault) => if call.Filled? && Faults(call, fault) then Does(S.Poison(-EFAULT)) else Stutter
    case PauseRead(p) => if p == Slept then Stutter else Does(S.Poison(PauseError(p)))
    case ReturnRead => if call.ReadDone? && Settles(call.result.ret) then Does(S.Report) else Stutter
    case _ => Stutter
  }

  function ReadNext(w: S.World, call: ReadCall, a: ReadStep): ReadCall
    requires R.WellFormed(w.ring) && ReadEnabled(w, call, a)
  {
    match a
    case BeginRead(count, signalled) => AfterBegin(w.reader.rx, count, signalled)
    case PeekStep(r) => AfterPeek(call, R.EffectOf(w.ring, r))
    case Look(choice) => if choice.Take? then call else choice.next
    case Release => AfterRelease(call, w.reader.verdict)
    case HandOver(fault) => AfterHandOver(call, fault)
    case PauseRead(p) => if p == Slept then Filling(call.job, 0, []) else Returns(call.job, PauseError(p))
    case ReturnRead => NotReading
  }

  // ----- Steps of the link

  predicate Enabled(c: Link, a: Action) {
    match a
    case ByWriter(w) => WriteEnabled(c.world, c.writer, w)
    case ByReader(r) => ReadEnabled(c.world, c.reading, r) && Decides(c.world, c.reading, r)
  }

  function MoveOf(c: Link, a: Action): Move
    requires Enabled(c, a)
  {
    match a
    case ByWriter(w) => WriteMove(c.world, c.writer, c.txError, w)
    case ByReader(r) => ReadMove(c.reading, r)
  }

  /** The session lets the move happen.  It always does: see Channel.NeverBlocked. */
  predicate Allowed(w: S.World, m: Move) {
    R.WellFormed(w.ring) && (m.Does? ==> S.Enabled(w, m.action))
  }

  function WorldAfter(w: S.World, m: Move): S.World
    requires Allowed(w, m)
  {
    if m.Does? then S.Step(w, m.action) else w
  }

  function Step(c: Link, a: Action): Link
    requires Enabled(c, a) && Allowed(c.world, MoveOf(c, a))
  {
    var world := WorldAfter(c.world, MoveOf(c, a));
    match a
    case ByWriter(w) =>
      c.(world := world,
         writer := WriteNext(c.world, c.writer, c.txError, w),
         txError := WriteMark(c.txError, w),
         wrote := if w.ReturnWrite? then c.wrote + [c.writer.result] else c.wrote)
    case ByReader(r) =>
      c.(world := world,
         reading := ReadNext(c.world, c.reading, r),
         got := if r.ReturnRead? then c.got + [c.reading.result] else c.got)
  }
}
