/** The read/write adapters of ivc/ivc.c: loops that turn slot-level progress into
    one write = one message and one read = one message, under timeouts, signals and
    copy faults chosen by the environment. */
module Endpoint {
  import opened Machine
  import opened Wire
  import opened Stream
  import opened Ring
  import opened Sender
  import opened Receiver
  import opened Reception

  /** Milliseconds; the clock below counts them. */
  const TRANSFER_TIMEOUT := 30000
  const POLL_INTERVAL := 10

  /** The kernel services the adapters lean on, each free to go either way.
      `faults` and `signals` count the copies that failed and the waits that a signal
      cut short. */
  class Kernel {
    var clock: nat
    ghost var faults: nat
    ghost var signals: nat

    constructor () {
      clock, faults, signals := 0, 0, 0;
    }

    method Now() returns (t: nat)
      modifies this`clock
      ensures old(clock) <= clock == t
    {
      var passed: nat :| 0 <= passed;
      clock := clock + passed;
      return clock;
    }

    method Sleep(ms: nat)
      modifies this`clock
      ensures old(clock) + ms <= clock
    {
      var extra: nat :| 0 <= extra;
      clock := clock + ms + extra;
    }

    /** A signal may cut the sleep short. */
    method SleepInterruptible(ms: nat) returns (interrupted: bool)
      modifies this`clock, this`signals
      ensures old(clock) <= clock
      ensures !interrupted ==> old(clock) + ms <= clock
      ensures signals == old(signals) + (if interrupted then 1 else 0)
    {
      interrupted := *;
      if interrupted {
        signals := signals + 1;
      } else {
        Sleep(ms);
      }
    }

    /** The end of a polling turn without progress: give up at the deadline or on a
        signal, otherwise sleep. */
    method WaitUntil(deadline: nat) returns (err: int)
      modifies this`clock, this`signals
      ensures old(clock) <= clock && old(signals) <= signals
      ensures err == 0 ==> Left(deadline, clock) < Left(deadline, old(clock))
      ensures err == 0 || err == -ETIMEDOUT || err == -ERESTARTSYS
      ensures err == -ETIMEDOUT ==> deadline <= clock
      ensures err == -ERESTARTSYS <==> old(signals) < signals
    {
      var now := Now();
      if now >= deadline {
        return -ETIMEDOUT;
      }
      var interrupted := SleepInterruptible(POLL_INTERVAL);
      err := if interrupted then -ERESTARTSYS else 0;
    }

    method LockInterruptible() returns (err: int)
      modifies this`signals
      ensures err == if signals == old(signals) then 0 else -EINTR
      ensures old(signals) <= signals
    {
      var signalled: bool := *;
      if signalled {
        signals := signals + 1;
        return -EINTR;
      }
      return 0;
    }

    method CopyFromUser(source: seq<byte>) returns (fault: bool, bytes: seq<byte>)
      modifies this`faults
      ensures faults == old(faults) + (if fault then 1 else 0)
      ensures !fault ==> bytes == source
    {
      fault := *;
      if fault {
        faults := faults + 1;
      }
      bytes := if fault then [] else source;
    }

    /** A faulting copy may have stored any prefix. */
    method CopyToUser(user: array<byte>, at: nat, bytes: seq<byte>) returns (fault: bool)
      requires at + |bytes| <= user.Length
      modifies this`faults, user
      ensures faults == old(faults) + (if fault then 1 else 0)
      ensures user[..at] == old(user[..at]) && user[at + |bytes|..] == old(user[at + |bytes|..])
      ensures !fault ==> user[at..at + |bytes|] == bytes
    {
      fault := *;
      if fault {
        faults := faults + 1;
      }
      var stored: nat :| stored <= |bytes| && (!fault ==> stored == |bytes|);
      CopyIn(user, at, bytes[..stored]);
    }
  }

  /** `if (written && copy_to_user(...))`. */
  method HandOver(kernel: Kernel, user: array<byte>, at: nat, bytes: seq<byte>) returns (fault: bool)
    requires at + |bytes| <= user.Length
    modifies kernel`faults, user
    ensures kernel.faults == old(kernel.faults) + (if fault then 1 else 0)
    ensures !fault ==> user[..at + |bytes|] == old(user[..at]) + bytes
  {
    fault := false;
    if |bytes| > 0 {
      fault := kernel.CopyToUser(user, at, bytes);
      assert user[..at + |bytes|] == user[..at] + user[at..at + |bytes|];
    }
  }

  function Left(deadline: nat, clock: nat): nat {
    if clock < deadline then deadline - clock else 0
  }

  // ----- What a write does to the sender's history

  /** The sender once the first `k` fragments of `buf` have gone out as a new message. */
  function Sending(s: SendSide, buf: seq<byte>, k: nat): SendSide
    requires StartError(s.tx) == 0 && 0 < |buf| <= U64_MAX && k <= ChunkCount(|buf|)
  {
    AfterChunks(Started(s, |buf|), buf, k)
  }

  /** `s` is the sender `before` once `k` fragments of `buf` have gone out. */
  ghost predicate HasSent(s: SendSide, before: SendSide, buf: seq<byte>, k: nat) {
    && StartError(before.tx) == 0 && 0 < |buf| <= U64_MAX && k <= ChunkCount(|buf|)
    && forall n :: Inside(SendingPart, n) ==> s == Sending(before, buf, k)
  }

  lemma HasSentMeans(s: SendSide, before: SendSide, buf: seq<byte>, k: nat)
    requires HasSent(s, before, buf, k)
    ensures s == Sending(before, buf, k)
  {
    assert Inside(SendingPart, 0);
  }

  lemma NothingSent(before: SendSide, buf: seq<byte>)
    requires StartError(before.tx) == 0 && 0 < |buf| <= U64_MAX
    ensures HasSent(Started(before, |buf|), before, buf, 0)
  {
  }

  /** The next chunk may be written: no error, one slot at most. */
  lemma NextChunkFits(s: SendSide, before: SendSide, buf: seq<byte>, k: nat)
    requires HasSent(s, before, buf, k) && k < ChunkCount(|buf|)
    ensures var chunk := Chunk(buf, k);
            WriteError(s.tx, chunk) == 0 && TxOk(s.tx) && s.tx.len > 0 && s.tx.sending && ChunkCount(|chunk|) == 1
    ensures FRAGMENT_CAPACITY * k < |buf|
    ensures var at := FRAGMENT_CAPACITY * k; Chunk(buf, k) == buf[at..at + Min(FRAGMENT_CAPACITY, |buf| - at)]
  {
    assert Inside(SendingPart, 0);
  }

  /** Writing it moves the message on by the slots it took. */
  lemma ChunkMoves(s: SendSide, before: SendSide, buf: seq<byte>, k: nat, slots: nat)
    requires HasSent(s, before, buf, k) && k < ChunkCount(|buf|) && slots <= 1 && TxOk(s.tx)
    ensures HasSent(Written(s, Chunk(buf, k), slots), before, buf, k + slots)
    ensures Written(s, Chunk(buf, k), slots).tx.sending == (k + slots < ChunkCount(|buf|))
    ensures Min(FRAGMENT_CAPACITY * slots, |Chunk(buf, k)|) == Min(FRAGMENT_CAPACITY * (k + slots), |buf|) - FRAGMENT_CAPACITY * k
  {
    assert Inside(SendingPart, 0);
    var chunk := Chunk(buf, k);
    assert ChunkCount(|chunk|) == 1;
    assert Chunk(chunk, 0) == chunk;
    assert AfterChunks(s, chunk, 0) == s;
    assert AfterChunks(s, chunk, 1) == AfterFragment(s, chunk);
  }

  /** The bytes that have gone out are exactly the user's, in order. */
  lemma SendingCarries(s: SendSide, buf: seq<byte>, k: nat)
    requires s.open == [] && StartError(s.tx) == 0 && 0 < |buf| <= U64_MAX && k <= ChunkCount(|buf|)
    ensures var t := Sending(s, buf, k);
            if k < ChunkCount(|buf|) then
              FRAGMENT_CAPACITY * k < |buf| && t.groups == s.groups && Payload(t.open) == buf[..FRAGMENT_CAPACITY * k]
            else Outcomes(t.groups) == Outcomes(s.groups) + [Whole(buf)]
  {
    ChunksCarry(Started(s, |buf|), buf, k);
    if k == ChunkCount(|buf|) {
      assert Payload(s.open) + Covered(buf, k) == buf;
    }
  }

  /** Cancelling after `k` fragments leaves nothing behind if none went out, and
      exactly one more outcome, a reset, otherwise. */
  lemma CancelledSend(s: SendSide, buf: seq<byte>, k: nat)
    requires Inv(s) && StartError(s.tx) == 0 && 0 < |buf| <= U64_MAX && k < ChunkCount(|buf|)
    ensures var t := Aborted(Sending(s, buf, k), true);
            && !t.tx.sending
            && Outcomes(t.groups) == Outcomes(s.groups) + (if k == 0 then [] else [Reset])
  {
    StartedKeepsInv(s, |buf|);
    ChunksKeepInv(Started(s, |buf|), buf, k);
    SendingCarries(s, buf, k);
    var t := Sending(s, buf, k);
    if k > 0 {
      OutcomesSnoc(t.groups, Group(t.tx.id, t.open + [AbortFrame(t.tx)], Reset));
    }
  }

  /** What a write may do: nothing at all, all of the message, or a prefix that is
      taken back, closed by ABORT, or left open with the endpoint marked broken. */
  ghost predicate WriteEffect(before: SendSide, after: SendSide, mark: int, buf: seq<byte>, ret: int, k: nat) {
    if ret > 0 then
      ret == |buf| <= U64_MAX && StartError(before.tx) == 0 && mark == 0
      && k == ChunkCount(|buf|) && after == Sending(before, buf, k)
    else if k == 0 && after == before then ret < 0
    else
      && IsCancel(ret)
      && 0 < |buf| <= U64_MAX && k < ChunkCount(|buf|) && StartError(before.tx) == 0
      && (if mark == 0 then after == Aborted(Sending(before, buf, k), true)
          else mark == -EPIPE && k > 0 && after == Sending(before, buf, k))
  }

  /** The same in terms of messages: a successful write closes exactly the user's
      bytes; an unsuccessful one that leaves the endpoint usable closes nothing or
      one reset; and a broken endpoint holds a strict prefix of the user's bytes. */
  lemma WriteMeaning(before: SendSide, after: SendSide, mark: int, buf: seq<byte>, ret: int, k: nat)
    requires Inv(before) && !before.tx.sending && WriteEffect(before, after, mark, buf, ret, k)
    ensures ret > 0 ==> Outcomes(after.groups) == Outcomes(before.groups) + [Whole(buf)]
    ensures ret <= 0 && mark == 0 ==>
              !after.tx.sending && Outcomes(after.groups) == Outcomes(before.groups) + (if k == 0 then [] else [Reset])
    ensures ret <= 0 && mark == -EPIPE && after != before ==>
              after.tx.sending && after.groups == before.groups && Payload(after.open) <= buf && Payload(after.open) != buf
  {
    if ret > 0 {
      SendingCarries(before, buf, k);
    } else if k == 0 && after == before {
    } else if mark == 0 {
      CancelledSend(before, buf, k);
    } else {
      SendingCarries(before, buf, k);
    }
  }

  /** Every error but these is a failure the receiver remembers. */
  predicate Poisons(ret: int) {
    ret < 0 && ret != -EINTR && ret != -EMSGSIZE && ret != -ECONNRESET && ret != -EOPNOTSUPP
  }

  predicate IsRefusal(ret: int) {
    ret == -EPROTO || ret == -EPROTONOSUPPORT
  }

  predicate IsWait(ret: int) {
    ret == -ETIMEDOUT || ret == -ERESTARTSYS
  }

  class Device {
    const tx: MessageSender
    const rx: MessageReceiver
    var txError: int
    /** How far the ring changes were when the peer was last notified, and what
        reads have reported. */
    ghost var txTold: nat
    /** When the last slot of the latest write or read moved, or else the call began,
        and how often a write was offered a full ring. */
    ghost var txSince: nat
    ghost var txStalls: nat
    ghost var rxSince: nat
    ghost var rxTold: nat
    ghost var delivered: seq<Outcome>

    /** Holds whenever tx_lock is free. */
    ghost predicate TxReady()
      reads this, tx, tx.ring, tx.ring.slots
    {
      && tx.Valid()
      && (txError == 0 ==> !tx.tx.sending)
      && (txError == 0 || txError == -EPIPE)
    }

    ghost predicate TxTold()
      reads this, tx, tx.ring
    {
      txTold == |tx.ring.pushed|
    }

    /** axivc_endpoint_init. */
    constructor (txRing: SharedRing, rxRing: SharedRing)
      requires txRing.Valid() && rxRing.Valid()
      ensures tx.ring == txRing && rx.ring == rxRing && fresh(tx) && fresh(rx)
      ensures TxReady() && RxReady() && tx.side == INITIAL_SIDE && rx.side == INITIAL_RECV
      ensures txError == 0 && delivered == [] && TxTold() && RxTold()
    {
      tx := new MessageSender(txRing);
      rx := new MessageReceiver(rxRing);
      txError := 0;
      txTold, rxTold, delivered := |txRing.pushed|, rxRing.popped, [];
      txSince, txStalls, rxSince := 0, 0, 0;
    }

    /** Holds whenever rx_lock is free: never in the middle of a message, everything
        consumed has been reported unless the receiver failed, and only these errors
        make it fail. */
    ghost predicate RxReady()
      reads this, rx, rx.ring, rx.ring.slots
    {
      && rx.Valid()
      && rx.rx.state != Receiving
      && delivered <= rx.side.log
      && (rx.rx.state == Idle ==> delivered == rx.side.log)
      && (rx.rx.state == Failed ==> IsFailure(rx.rx.error))
    }

    ghost predicate RxTold()
      reads this, rx, rx.ring
    {
      rxTold == rx.ring.popped
    }

    /** A hypercall whose failure is only logged. */
    method NotifyTx(enabled: bool)
      modifies this`txTold
      ensures enabled ==> TxTold()
      ensures !enabled ==> txTold == old(txTold)
    {
      if enabled {
        txTold := |tx.ring.pushed|;
      }
    }

    method AbortSend(kernel: Kernel, notify: bool)
      requires tx.Valid() && tx.tx.sending && txError == 0
      modifies this`txError, this`txTold, kernel`clock
      modifies tx`tx, tx`side, tx.ring`head, tx.ring`popped, tx.ring`tail, tx.ring`pushed, tx.ring.slots
      ensures tx.Valid()
      ensures old(kernel.clock) <= kernel.clock
      ensures txError != 0 ==> tx.RingFull() && old(kernel.clock) + TRANSFER_TIMEOUT <= kernel.clock
      ensures if txError == 0 then tx.side == Aborted(old(tx.side), true)
              else txError == -EPIPE && tx.side == old(tx.side) && tx.tx.published
      ensures |tx.ring.pushed| == old(|tx.ring.pushed|) + (if txError == 0 && old(tx.tx.published) then 1 else 0)
      ensures notify && old(TxTold()) ==> TxTold()
    {
      var now := kernel.Now();
      var deadline: nat := now + TRANSFER_TIMEOUT;
      var published := tx.tx.published;
      var err := tx.TryAbort();
      while err == -EAGAIN
        invariant tx.Valid() && txError == 0
        invariant err == AbortError(old(tx.tx), err != -EAGAIN) && tx.side == Aborted(old(tx.side), err != -EAGAIN)
        invariant |tx.ring.pushed| == old(|tx.ring.pushed|) + (if err == 0 && published then 1 else 0)
        invariant notify && old(TxTold()) && (err != 0 || !published) ==> TxTold()
        invariant err == -EAGAIN ==> tx.RingFull()
        invariant old(kernel.clock) <= kernel.clock && old(kernel.clock) + TRANSFER_TIMEOUT <= deadline
        decreases Left(deadline, kernel.clock), err == -EAGAIN
      {
        NotifyTx(notify);
        now := kernel.Now();
        if now >= deadline {
          break;
        }
        kernel.Sleep(POLL_INTERVAL);
        err := tx.TryAbort();
      }
      if err == 0 && published {
        NotifyTx(notify);
      } else if err != 0 && err != -ENOMSG {
        txError := -EPIPE;
      }
    }

    method SendMessage(kernel: Kernel, notify: bool, buf: seq<byte>) returns (ret: int, ghost k: nat)
      requires TxReady() && |buf| <= U64_MAX
      modifies this`txError, this`txTold, this`txSince, this`txStalls, kernel
      modifies tx`tx, tx`side, tx.ring`head, tx.ring`popped, tx.ring`tail, tx.ring`pushed, tx.ring.slots
      ensures TxReady()
      ensures WriteEffect(old(tx.side), tx.side, txError, buf, ret, k)
      ensures old(txError) != 0 ==> tx.side == old(tx.side) && txError == old(txError) && ret <= 0
      ensures tx.side == old(tx.side) ==> txError == old(txError)
      ensures ret != -EBUSY
      ensures buf == [] ==> ret == -EOPNOTSUPP
      ensures buf != [] && ret < 0 && tx.side == old(tx.side) ==>
                || ret == -EINTR || ret == old(txError)
                || (old(txError) == 0 && ret == -EOVERFLOW && old(tx.tx.nextId) == 0)
      ensures ret > 0 ==> |tx.ring.pushed| == old(|tx.ring.pushed|) + ChunkCount(|buf|)
      ensures notify && old(TxTold()) ==> TxTold()
      ensures ret == -EINTR || ret == -ERESTARTSYS ==> old(kernel.signals) < kernel.signals
      ensures ret == -EFAULT ==> old(kernel.faults) < kernel.faults
      ensures ret == -ETIMEDOUT ==> old(txStalls) < txStalls && old(kernel.clock) + TRANSFER_TIMEOUT <= kernel.clock
      ensures txError != old(txError) ==> tx.RingFull() && old(kernel.clock) + TRANSFER_TIMEOUT <= kernel.clock
      ensures buf != [] && old(txError) == 0 && old(tx.tx.nextId) != 0 ==>
                || ret == |buf| || old(kernel.signals) < kernel.signals || old(kernel.faults) < kernel.faults || old(txStalls) < txStalls
    {
      k := 0;
      if buf == [] {
        return -EOPNOTSUPP, 0;
      }
      ret := kernel.LockInterruptible();
      if ret != 0 {
        return;
      }
      if txError != 0 {
        return txError, 0;
      }
      ret := tx.Start(|buf|);
      if ret != 0 {
        return;
      }
      ret, k := Transfer(kernel, notify, buf, old(tx.side));
      HasSentMeans(tx.side, old(tx.side), buf, k);
      if ret < 0 {
        AbortSend(kernel, notify);
      }
    }

    /** Copies the next chunk from the user and offers it. */
    method SendChunk(kernel: Kernel, buf: seq<byte>, sent: nat, ghost before: SendSide, ghost k: nat)
      returns (fault: bool, consumed: nat, slots: nat, complete: bool)
      requires tx.Valid() && HasSent(tx.side, before, buf, k) && k < ChunkCount(|buf|) && sent == FRAGMENT_CAPACITY * k
      modifies this`txSince, this`txStalls, kernel`faults
      modifies tx`tx, tx`side, tx.ring`head, tx.ring`popped, tx.ring`tail, tx.ring`pushed, tx.ring.slots
      ensures kernel.faults == old(kernel.faults) + (if fault then 1 else 0)
      ensures txSince == if slots > 0 then kernel.clock else old(txSince)
      ensures if !fault && slots == 0 then txStalls == old(txStalls) + 1 && tx.RingFull() else txStalls == old(txStalls)
      ensures tx.Valid() && slots <= 1 && HasSent(tx.side, before, buf, k + slots)
      ensures |tx.ring.pushed| == old(|tx.ring.pushed|) + slots
      ensures fault ==> slots == 0
      ensures !fault ==> consumed == Min(FRAGMENT_CAPACITY * (k + slots), |buf|) - sent
      ensures !fault ==> complete == (k + slots == ChunkCount(|buf|))
    {
      consumed, slots, complete := 0, 0, false;
      NextChunkFits(tx.side, before, buf, k);
      var chunk := Min(FRAGMENT_CAPACITY, |buf| - sent);
      var fragment;
      fault, fragment := kernel.CopyFromUser(buf[sent..sent + chunk]);
      if fault {
        return;
      }
      consumed, slots, complete := OfferChunk(fragment, buf, before, k);
      if slots > 0 {
        txSince := kernel.clock;
      } else {
        txStalls := txStalls + 1;
      }
    }

    /** The try_write of one turn. */
    method OfferChunk(fragment: seq<byte>, ghost buf: seq<byte>, ghost before: SendSide, ghost k: nat)
      returns (consumed: nat, slots: nat, complete: bool)
      requires tx.Valid() && HasSent(tx.side, before, buf, k) && k < ChunkCount(|buf|) && fragment == Chunk(buf, k)
      modifies tx`tx, tx`side, tx.ring`head, tx.ring`popped, tx.ring`tail, tx.ring`pushed, tx.ring.slots
      ensures tx.Valid() && slots <= 1 && HasSent(tx.side, before, buf, k + slots)
      ensures |tx.ring.pushed| == old(|tx.ring.pushed|) + slots
      ensures slots == 0 ==> tx.RingFull()
      ensures consumed == Min(FRAGMENT_CAPACITY * (k + slots), |buf|) - FRAGMENT_CAPACITY * k
      ensures complete == (k + slots == ChunkCount(|buf|))
    {
      NextChunkFits(tx.side, before, buf, k);
      ghost var side := tx.side;
      var err;
      err, consumed, slots, complete := tx.TryWrite(fragment);
      assert err == 0;  // `if (err) goto abort` is never taken
      ChunkMoves(side, before, buf, k, slots);
    }

    /** The polling loop: a positive result is the whole count, a negative one the
        reason to abort. */
    method Transfer(kernel: Kernel, notify: bool, buf: seq<byte>, ghost before: SendSide) returns (ret: int, ghost k: nat)
      requires tx.Valid() && 0 < |buf| <= U64_MAX
      requires StartError(before.tx) == 0 && tx.side == Started(before, |buf|)
      modifies this`txTold, this`txSince, this`txStalls, kernel
      modifies tx`tx, tx`side, tx.ring`head, tx.ring`popped, tx.ring`tail, tx.ring`pushed, tx.ring.slots
      ensures tx.Valid() && HasSent(tx.side, before, buf, k)
      ensures |tx.ring.pushed| == old(|tx.ring.pushed|) + k
      ensures if k == ChunkCount(|buf|) then ret == |buf|
              else IsCancel(ret)
      ensures notify && old(TxTold()) ==> TxTold()
      ensures old(kernel.clock) <= txSince <= kernel.clock
      ensures old(kernel.faults) <= kernel.faults && old(kernel.signals) <= kernel.signals && old(txStalls) <= txStalls
      ensures ret == -EFAULT ==> old(kernel.faults) < kernel.faults
      ensures ret == -ERESTARTSYS ==> old(kernel.signals) < kernel.signals
      ensures ret == -ETIMEDOUT ==> old(txStalls) < txStalls && tx.RingFull() && txSince + TRANSFER_TIMEOUT <= kernel.clock
    {
      var now := kernel.Now();
      var deadline: nat := now + TRANSFER_TIMEOUT;
      var sent := 0;
      k := 0;
      txSince := now;
      NothingSent(before, buf);
      while true
        invariant tx.Valid() && k < ChunkCount(|buf|) && HasSent(tx.side, before, buf, k)
        invariant sent == FRAGMENT_CAPACITY * k < |buf|
        invariant |tx.ring.pushed| == old(|tx.ring.pushed|) + k
        invariant notify && old(TxTold()) ==> TxTold()
        invariant old(kernel.clock) <= txSince <= kernel.clock && txSince + TRANSFER_TIMEOUT <= deadline
        invariant old(kernel.faults) <= kernel.faults && old(kernel.signals) <= kernel.signals && old(txStalls) <= txStalls
        decreases |buf| - sent, Left(deadline, kernel.clock)
      {
        var fault, consumed, slots, complete := SendChunk(kernel, buf, sent, before, k);
        if fault {
          return -EFAULT, k;
        }
        sent := sent + consumed;
        k := k + slots;
        if slots > 0 {
          now := kernel.Now();
          deadline := now + TRANSFER_TIMEOUT;
          NotifyTx(notify);
        }
        if complete {
          return |buf|, k;
        }
        if slots > 0 {
          continue;
        }
        ret := kernel.WaitUntil(deadline);
        if ret != 0 {
          return;
        }
      }
    }

    method NotifyRx(enabled: bool)
      modifies this`rxTold
      ensures enabled ==> RxTold()
      ensures !enabled ==> rxTold == old(rxTold)
    {
      if enabled {
        rxTold := rx.ring.popped;
      }
    }

    /** A message of length `declared` is at hand: under way, or at the head of the ring. */
    ghost predicate AtHand(declared: u64)
      reads rx, rx.ring
    {
      if rx.rx.state == Receiving then rx.side.rx.len == declared
      else rx.ring.popped < |rx.ring.pushed| && Announces(rx.side, rx.ring.pushed[rx.ring.popped], declared)
    }

    /** The slot at the head is one the receiver refuses with this error. */
    ghost predicate HeadRefused(err: int)
      reads rx, rx.ring
    {
      && rx.ring.popped < |rx.ring.pushed|
      && Refuses(rx.side.rx, rx.ring.pushed[rx.ring.popped], err)
    }

    ghost predicate Drained()
      reads rx, rx.ring
    {
      rx.ring.popped == |rx.ring.pushed|
    }

    /** One try_read into a one-fragment buffer, in terms of the message at hand. */
    method Pull(fragment: array<byte>, ghost declared: u64) returns (err: int, written: nat, slots: nat, complete: bool)
      requires rx.Valid() && rx.rx.state != Failed && fragment.Length == FRAGMENT_CAPACITY && AtHand(declared)
      modifies rx`rx, rx`side, rx`seen, fragment
      modifies rx.ring`head, rx.ring`popped, rx.ring`tail, rx.ring`pushed, rx.ring.slots
      ensures rx.Valid() && written <= FRAGMENT_CAPACITY && old(rx.ring.pushed) <= rx.ring.pushed
      ensures err == 0 && !complete ==>
                && rx.rx.state != Failed && AtHand(declared) && rx.side.log == old(rx.side.log)
                && Payload(rx.side.current) == old(Payload(rx.side.current)) + fragment[..written]
                && |Payload(rx.side.current)| <= declared
                && rx.ring.popped == old(rx.ring.popped) + slots
                && (slots > 0 ==> written > 0 && rx.rx.state == Receiving)
                && (slots == 0 ==> written == 0 && rx.rx.state == Receiving && Drained())
      ensures err == 0 && complete ==>
                && rx.rx.state == Idle && slots > 0 && rx.ring.popped == old(rx.ring.popped) + slots
                && rx.side.log == old(rx.side.log) + [Whole(old(Payload(rx.side.current)) + fragment[..written])]
                && |old(Payload(rx.side.current)) + fragment[..written]| == declared
      ensures err == -ECONNRESET ==>
                && rx.rx.state == Idle && rx.side.log == old(rx.side.log) + [Reset]
                && rx.ring.popped == old(rx.ring.popped) + 1
      ensures err != 0 && err != -ECONNRESET ==>
                && rx.rx.state == Failed && rx.rx.error == err && (err == -EPROTO || err == -EPROTONOSUPPORT)
                && rx.side.log == old(rx.side.log) && rx.ring.popped == old(rx.ring.popped) && HeadRefused(err)
    {
      ghost var r, got;
      err, written, slots, complete, r, got := ReadFragment(fragment, declared);
      WindowIsSlice(got, rx.ring.pushed, old(rx.ring.popped));
    }

    /** One try_read, with the reference result `r` on the slots `got` that it saw. */
    method ReadFragment(fragment: array<byte>, ghost declared: u64)
      returns (err: int, written: nat, slots: nat, complete: bool, ghost r: Read, ghost got: seq<Slot>)
      requires rx.Valid() && rx.rx.state != Failed && fragment.Length == FRAGMENT_CAPACITY && AtHand(declared)
      modifies rx`rx, rx`side, rx`seen, fragment
      modifies rx.ring`head, rx.ring`popped, rx.ring`tail, rx.ring`pushed, rx.ring.slots
      ensures rx.Valid() && old(rx.ring.pushed) <= rx.ring.pushed
      ensures err == r.err && written == |r.written| <= FRAGMENT_CAPACITY && slots == r.consumedSlots && complete == r.complete
      ensures fragment[..written] == r.written
      ensures rx.View() == r.side && rx.ring.popped == old(rx.ring.popped) + r.taken
      ensures Window(got, rx.ring.pushed, old(rx.ring.popped))
      ensures got == [] ==> old(rx.ring.popped) == |rx.ring.pushed|
      ensures PullOk(old(rx.side), got, declared, r)
      ensures r.taken == 0 ==> rx.side == old(rx.side)
    {
      ghost var v, seen := rx.side, rx.seen;
      err, written, slots, complete, got := rx.TryRead(fragment);
      r := TryRead(v, got, FRAGMENT_CAPACITY);
      WindowIsSlice(got, rx.ring.pushed, old(rx.ring.popped));
      PullMeaning(seen, v, got, declared);
      WindowGrows(seen, old(rx.ring.pushed), rx.ring.pushed, rx.base);
      if r.taken == 0 {
        SameStand(seen, v, rx.seen, rx.side, rx.ring.pushed, rx.base);
      }
    }

    method RecvMessage(kernel: Kernel, notify: bool, buf: array<byte>) returns (ret: int)
      requires RxReady()
      modifies this`rxTold, this`rxSince, this`delivered, kernel, buf, rx`rx, rx`side, rx`seen
      modifies rx.ring`head, rx.ring`popped, rx.ring`tail, rx.ring`pushed, rx.ring.slots
      ensures RxReady() && old(rx.ring.pushed) <= rx.ring.pushed
      ensures ret <= buf.Length
      ensures ret > 0 || ret == -EMSGSIZE ==>
                && old(rx.ring.popped) < |rx.ring.pushed|
                && exists declared: u64 :: Announces(old(rx.side), rx.ring.pushed[old(rx.ring.popped)], declared)
                                      && if ret > 0 then ret == declared else declared > buf.Length
      ensures delivered == old(delivered) + Reported(ret, buf[..])
      ensures old(rx.rx.state) == Failed ==>
                rx.rx == old(rx.rx) && rx.ring.popped == old(rx.ring.popped) && (buf.Length == 0 || ret == -EINTR || ret == old(rx.rx.error))
      ensures old(rx.rx.state) != Failed && Poisons(ret) ==> rx.rx.state == Failed && rx.rx.error == ret
      ensures Settles(ret) ==> rx.rx.state == Idle
      ensures ret == -EINTR ==> rx.ring.popped == old(rx.ring.popped) && rx.rx == old(rx.rx) && buf[..] == old(buf[..])
      ensures ret == 0 ==> buf.Length == 0 || Drained()
      ensures old(rx.rx.state) != Failed ==> Caused(kernel, ret, old(kernel.faults), old(kernel.signals), old(kernel.clock), old(rx.ring.popped))
      ensures ret == -EINTR ==> old(kernel.signals) < kernel.signals
      ensures old(rx.rx.state) == Idle && buf.Length > 0 && kernel.faults == old(kernel.faults) && kernel.signals == old(kernel.signals) ==>
                forall ahead :: ahead <= old(rx.ring.pushed[rx.ring.popped..]) && Finishes(old(rx.seen), ahead) ==>
                  Settles(ret) || ret == -EMSGSIZE
      ensures ret == -EMSGSIZE || ret == 0 ==> rx.ring.popped == old(rx.ring.popped) && rx.rx == old(rx.rx) && buf[..] == old(buf[..])
      ensures notify && old(RxTold()) ==> RxTold()
    {
      if buf.Length == 0 {
        return 0;
      }
      ret := kernel.LockInterruptible();
      if ret != 0 {
        return;
      }
      ghost var seen, side, pushed := rx.seen, rx.side, rx.ring.pushed;
      ret := RecvLocked(kernel, notify, buf);
      if old(rx.rx.state) == Idle && (ret == 0 || IsRefusal(ret) || IsWait(ret)) {
        WindowGrows(seen, pushed, rx.ring.pushed, rx.base);
        NothingAhead(seen, side, ret);
      }
    }

    /** The call once it holds the lock. */
    method RecvLocked(kernel: Kernel, notify: bool, buf: array<byte>) returns (ret: int)
      requires RxReady() && buf.Length > 0
      modifies this`rxTold, this`rxSince, this`delivered, kernel, buf, rx`rx, rx`side, rx`seen
      modifies rx.ring`head, rx.ring`popped, rx.ring`tail, rx.ring`pushed, rx.ring.slots
      ensures RxReady() && old(rx.ring.pushed) <= rx.ring.pushed && old(rx.ring.popped) <= rx.ring.popped
      ensures ret <= buf.Length && ret != -EINTR
      ensures ret > 0 || ret == -EMSGSIZE ==>
                && old(rx.ring.popped) < |rx.ring.pushed|
                && exists declared: u64 :: Announces(old(rx.side), rx.ring.pushed[old(rx.ring.popped)], declared)
                                           && if ret > 0 then ret == declared else declared > buf.Length
      ensures delivered == old(delivered) + Reported(ret, buf[..])
      ensures old(rx.rx.state) == Failed ==>
                rx.rx == old(rx.rx) && rx.ring.popped == old(rx.ring.popped) && ret == old(rx.rx.error)
      ensures old(rx.rx.state) != Failed && Poisons(ret) ==> rx.rx.state == Failed && rx.rx.error == ret
      ensures Settles(ret) ==> rx.rx.state == Idle
      ensures ret == 0 ==> Drained()
      ensures old(rx.rx.state) != Failed ==> Caused(kernel, ret, old(kernel.faults), old(kernel.signals), old(kernel.clock), old(rx.ring.popped))
      ensures old(rx.rx.state) != Failed && (ret == 0 || IsRefusal(ret) || IsWait(ret)) ==> rx.side.log == old(rx.side.log)
      ensures old(kernel.faults) <= kernel.faults && old(kernel.signals) <= kernel.signals
      ensures ret == -EMSGSIZE || ret == 0 ==> rx.ring.popped == old(rx.ring.popped) && rx.rx == old(rx.rx) && buf[..] == old(buf[..])
      ensures notify && old(RxTold()) ==> RxTold()
    {
      var available, metaId, metaLen;
      ret, available, metaId, metaLen := rx.PeekMeta();
      if ret != 0 || !available {
        return;
      }
      if metaLen > buf.Length {
        return -EMSGSIZE;
      }
      ret := Receive(kernel, notify, buf, metaLen);
    }

    /** Why a read that ran into trouble did: `faults`, `signals` and `clock` are the
        kernel's, and `popped` the slots released, when it began. */
    ghost predicate Caused(kernel: Kernel, ret: int, faults: nat, signals: nat, clock: nat, popped: nat)
      reads this, kernel, rx, rx.ring
    {
      && (ret == -EFAULT ==> faults < kernel.faults)
      && (IsRefusal(ret) ==> HeadRefused(ret))
      && (IsWait(ret) ==> popped < rx.ring.popped && Drained())
      && (ret == -ERESTARTSYS ==> signals < kernel.signals)
      && (ret == -ETIMEDOUT ==> clock <= rxSince && rxSince + TRANSFER_TIMEOUT <= kernel.clock)
    }

    /** A read in trouble that ended no message had none ahead that it could end. */
    lemma NothingAhead(seen: seq<Slot>, u: RecvSide, ret: int)
      requires rx.Valid() && Stands(seen, u) && u.log == rx.side.log
      requires Window(seen, rx.ring.pushed, rx.base) && |seen| <= |rx.seen|
      requires HeadRefused(ret) || Drained()
      ensures forall ahead :: ahead <= rx.ring.pushed[rx.base + |seen|..] ==> !Finishes(seen, ahead)
    {
      Receiver.NothingAhead(seen, u, rx.seen, rx.side, rx.ring.pushed, rx.base, ret);
    }

    /** One turn of the receive loop up to the waiting part: read a fragment, tell
        the peer, hand the bytes to the user.  `done` when the call is over. */
    method ReceiveSome(kernel: Kernel, notify: bool, buf: array<byte>, metaLen: u64, received: nat)
      returns (done: bool, ret: int, total: nat, slots: nat)
      requires rx.Valid() && rx.rx.state != Failed && AtHand(metaLen) && received <= metaLen <= buf.Length
      requires Payload(rx.side.current) == buf[..received] && rx.side.log == delivered
      modifies this`rxTold, this`rxSince, this`delivered, kernel`faults, buf, rx`rx, rx`side, rx`seen
      modifies rx.ring`head, rx.ring`popped, rx.ring`tail, rx.ring`pushed, rx.ring.slots
      ensures old(rx.ring.pushed) <= rx.ring.pushed && old(rx.ring.popped) <= rx.ring.popped
      ensures old(kernel.faults) <= kernel.faults
      ensures done ==> !IsWait(ret) && (ret == -EFAULT ==> old(kernel.faults) < kernel.faults)
      ensures done && IsRefusal(ret) ==> HeadRefused(ret) && rx.side.log == old(rx.side.log)
      ensures !done ==> rx.ring.popped == old(rx.ring.popped) + slots && (slots == 0 ==> Drained())
      ensures !done ==> rxSince == if slots > 0 then kernel.clock else old(rxSince)
      ensures done ==> RxReady() && (ret > 0 ==> ret == metaLen) && ret != 0 && ret != -EMSGSIZE && ret != -EINTR
      ensures done ==> delivered == old(delivered) + Reported(ret, buf[..])
      ensures done && Poisons(ret) ==> rx.rx.state == Failed && rx.rx.error == ret
      ensures done && Settles(ret) ==> rx.rx.state == Idle
      ensures !done ==>
                && rx.Valid() && rx.rx.state == Receiving && AtHand(metaLen) && total <= metaLen
                && Payload(rx.side.current) == buf[..total] && rx.side.log == delivered == old(delivered)
                && (if slots > 0 then received < total else received == total)
      ensures notify && old(RxTold()) ==> RxTold()
    {
      var fragment := new byte[FRAGMENT_CAPACITY];
      var written, complete;
      ret, written, slots, complete := Pull(fragment, metaLen);
      done, total := true, received;
      if ret != 0 {
        if ret == -ECONNRESET {
          NotifyRx(notify);
          delivered := delivered + [Reset];
        }
        return;
      }
      if slots > 0 {
        rxSince := kernel.clock;
        NotifyRx(notify);
      }
      done, ret, total := PassOn(kernel, buf, metaLen, received, fragment[..written], complete);
    }

    /** What the message at hand amounts to once `bytes` are in: still growing, or
        finished and not yet reported. */
    ghost predicate Grown(sum: seq<byte>, metaLen: u64, complete: bool)
      reads this, rx, rx.ring, rx.ring.slots
    {
      && rx.Valid()
      && (if complete then rx.rx.state == Idle && rx.side.log == delivered + [Whole(sum)] && |sum| == metaLen
          else rx.rx.state == Receiving && rx.side.log == delivered && Payload(rx.side.current) == sum && |sum| <= metaLen)
    }

    /** Hands a fragment to the user and settles what the call returns. */
    method PassOn(kernel: Kernel, buf: array<byte>, metaLen: u64, received: nat, bytes: seq<byte>, complete: bool)
      returns (done: bool, ret: int, total: nat)
      requires received <= metaLen <= buf.Length && Grown(buf[..received] + bytes, metaLen, complete)
      modifies this`delivered, kernel`faults, buf, rx`rx, rx`side
      ensures old(kernel.faults) <= kernel.faults
      ensures done ==> !IsWait(ret) && !IsRefusal(ret) && (ret == -EFAULT ==> old(kernel.faults) < kernel.faults)
      ensures done ==> RxReady() && (ret > 0 ==> ret == metaLen) && ret != 0 && ret != -EMSGSIZE && ret != -EINTR && ret <= buf.Length
      ensures done ==> delivered == old(delivered) + Reported(ret, buf[..])
      ensures done && Poisons(ret) ==> rx.rx.state == Failed && rx.rx.error == ret
      ensures done && Settles(ret) ==> rx.rx.state == Idle
      ensures !done ==> total <= metaLen && Grown(buf[..total], metaLen, false) && rx.rx == old(rx.rx) && rx.side == old(rx.side)
      ensures !done ==> !complete && delivered == old(delivered) && total == received + |bytes|
    {
      done, ret, total := true, 0, received + |bytes|;
      var fault := HandOver(kernel, buf, received, bytes);
      if fault {
        rx.Poison(-EFAULT);
        ret := -EFAULT;
        return;
      }
      if complete {
        delivered := delivered + [Whole(buf[..total])];
        ret := if metaLen == 0 then -EOPNOTSUPP else total;
        return;
      }
      done := false;
    }

    /** The polling loop for a message that is known to fit. */
    method Receive(kernel: Kernel, notify: bool, buf: array<byte>, metaLen: u64) returns (ret: int)
      requires RxReady() && rx.rx.state == Idle && AtHand(metaLen) && metaLen <= buf.Length
      modifies this`rxTold, this`rxSince, this`delivered, kernel, buf, rx`rx, rx`side, rx`seen
      modifies rx.ring`head, rx.ring`popped, rx.ring`tail, rx.ring`pushed, rx.ring.slots
      ensures RxReady() && old(rx.ring.pushed) <= rx.ring.pushed
      ensures ret > 0 ==> ret == metaLen
      ensures Poisons(ret) ==> rx.rx.state == Failed && rx.rx.error == ret
      ensures Settles(ret) ==> rx.rx.state == Idle
      ensures delivered == old(delivered) + Reported(ret, buf[..])
      ensures ret != 0 && ret != -EMSGSIZE && ret != -EINTR
      ensures notify && old(RxTold()) ==> RxTold()
      ensures old(rx.ring.popped) <= rx.ring.popped
      ensures IsRefusal(ret) || IsWait(ret) ==> rx.side.log == old(rx.side.log)
      ensures Caused(kernel, ret, old(kernel.faults), old(kernel.signals), old(kernel.clock), old(rx.ring.popped))
      ensures old(kernel.faults) <= kernel.faults && old(kernel.signals) <= kernel.signals
    {
      var now := kernel.Now();
      var deadline: nat := now + TRANSFER_TIMEOUT;
      var received := 0;
      rxSince := now;
      StandsMeans(rx.seen, rx.side);
      while true
        invariant rx.Valid() && rx.rx.state != Failed && AtHand(metaLen)
        invariant received <= metaLen && Payload(rx.side.current) == buf[..received]
        invariant rx.side.log == delivered == old(delivered) && old(rx.ring.pushed) <= rx.ring.pushed
        invariant notify && old(RxTold()) ==> RxTold()
        invariant old(rx.ring.popped) <= rx.ring.popped
        invariant rx.rx.state == Receiving ==> old(rx.ring.popped) < rx.ring.popped
        invariant old(kernel.clock) <= rxSince <= kernel.clock && rxSince + TRANSFER_TIMEOUT <= deadline
        invariant old(kernel.faults) <= kernel.faults && old(kernel.signals) <= kernel.signals
        decreases metaLen - received, rx.rx.state == Idle, Left(deadline, kernel.clock)
      {
        var done, total, slots;
        done, ret, total, slots := ReceiveSome(kernel, notify, buf, metaLen, received);
        if done {
          return;
        }
        received := total;
        if slots > 0 {
          now := kernel.Now();
          deadline := now + TRANSFER_TIMEOUT;
          continue;
        }
        ret := kernel.WaitUntil(deadline);
        if ret != 0 {
          rx.Poison(ret);
          return;
        }
      }
    }
  }

  /** What a read tells its caller about finished messages. */
  function Reported(ret: int, bytes: seq<byte>): seq<Outcome>
    requires ret <= |bytes|
  {
    Ending(ret, if ret > 0 then bytes[..ret] else [])
  }

  ghost predicate PullOk(v: RecvSide, got: seq<Slot>, declared: u64, r: Read) {
    && SideInv(v) && ReadMeaning(v, declared, r) && r.err != -EMSGSIZE
    && (got != [] ==> r.taken > 0 || r.side.rx.state == Failed)
    && (r.err == 0 && !r.complete ==> |Payload(r.side.current)| <= declared)
    && r.taken <= |got|
    && (r.err != 0 && r.err != -ECONNRESET ==> got != [] && Refuses(v.rx, got[0], r.err))
  }

  lemma PullMeaning(seen: seq<Slot>, v: RecvSide, got: seq<Slot>, declared: u64)
    requires Stands(seen, v)
    requires if v.rx.state == Receiving then v.rx.len == declared else got != [] && Announces(v, got[0], declared)
    ensures PullOk(v, got, declared, TryRead(v, got, FRAGMENT_CAPACITY))
  {
    assert Inside(HeadPart, 0);
    StandsMeans(seen, v);
    RefusalIsAtHead(v, got, FRAGMENT_CAPACITY);
    TryReadMeaning(v, got, FRAGMENT_CAPACITY);
    FullBufferProgress(v, got, FRAGMENT_CAPACITY);
    ReadLoopBound(v, got, FRAGMENT_CAPACITY, [], 0);
  }
}
