/** The sending state machine of ivc/message.c: pure transitions with the history
    of what was published, and the imperative calls proved against them. */
module Sender {
  import opened Machine
  import opened Wire
  import opened Stream
  import RingSteps
  import opened Ring

  /** struct axivc_message_sender without its ring pointer. */
  datatype Tx = Tx(nextId: u64, sending: bool, id: u64, len: u64, sent: u64, published: bool)

  /** The sender with its history: closed messages, and the frames published so
      far for a message still under way. */
  datatype SendSide = SendSide(tx: Tx, groups: seq<Group>, open: seq<Frame>)

  const INITIAL_SIDE := SendSide(Tx(1, false, 0, 0, 0, false), [], [])

  /** Everything this side has published, in order. */
  function Published(s: SendSide): seq<Frame> {
    Flatten(s.groups) + s.open
  }

  // ----- Transitions

  function StartError(tx: Tx): int {
    if tx.sending then -EBUSY
    else if tx.nextId == 0 then -EOVERFLOW
    else 0
  }

  function Started(s: SendSide, len: u64): SendSide {
    if StartError(s.tx) != 0 then s
    else s.(tx := Tx(if s.tx.nextId == U64_MAX then 0 else s.tx.nextId + 1, true, s.tx.nextId, len, 0, false))
  }

  predicate CanSend(tx: Tx, bytes: seq<byte>) {
    && tx.sending
    && |bytes| <= FRAGMENT_CAPACITY
    && tx.sent + |bytes| <= tx.len
    && (tx.len > 0 ==> |bytes| > 0)
  }

  function FragmentFrame(tx: Tx, bytes: seq<byte>): Frame {
    Frame(tx.id, tx.len, !tx.published, tx.sent + |bytes| == tx.len, false, bytes)
  }

  function AfterFragment(s: SendSide, bytes: seq<byte>): SendSide
    requires CanSend(s.tx, bytes)
  {
    var f := FragmentFrame(s.tx, bytes);
    var tx := if s.tx.len == 0 then s.tx.(sending := false)
              else s.tx.(sent := s.tx.sent + |bytes|, published := true, sending := !f.last);
    var frames := s.open + [f];
    if f.last then SendSide(tx, s.groups + [Group(f.id, frames, Whole(Payload(frames)))], [])
    else SendSide(tx, s.groups, frames)
  }

  function AbortFrame(tx: Tx): Frame {
    Frame(tx.id, tx.len, false, false, true, [])
  }

  function AfterAbort(s: SendSide): SendSide {
    SendSide(s.tx.(sending := false), s.groups + [Group(s.tx.id, s.open + [AbortFrame(s.tx)], Reset)], [])
  }

  function AfterCancel(s: SendSide): SendSide {
    s.(tx := s.tx.(sending := false))
  }

  // ----- Invariant

  ghost predicate TxOk(tx: Tx) {
    tx.sending ==>
      && tx.id != 0
      && (tx.nextId != 0 ==> tx.id < tx.nextId)
      && (if tx.len == 0 then tx.sent == 0 else tx.sent < tx.len)
      && tx.published == (tx.sent > 0)
  }

  ghost predicate Inv(s: SendSide) {
    && TxOk(s.tx)
    && IsHistory(s.groups)
    && (s.open != [] <==> s.tx.sending && s.tx.published)
    && (s.open != [] ==> IsOpen(s.open, s.tx.id, s.tx.len))
    && (s.tx.sending ==> |Payload(s.open)| == s.tx.sent)
    && (forall i :: 0 <= i < |s.groups| ==> Earlier(s.groups[i].id, s.tx))
  }

  predicate Earlier(id: u64, tx: Tx) {
    (tx.sending ==> id < tx.id) && (tx.nextId != 0 ==> id < tx.nextId)
  }

  lemma StartedKeepsInv(s: SendSide, len: u64)
    requires Inv(s)
    ensures Inv(Started(s, len))
    ensures Published(Started(s, len)) == Published(s)
  {
  }

  lemma CloseKeepsHistory(groups: seq<Group>, g: Group)
    requires IsHistory(groups) && IsClosed(g)
    requires forall i :: 0 <= i < |groups| ==> groups[i].id < g.id
    ensures IsHistory(groups + [g])
    ensures Flatten(groups + [g]) == Flatten(groups) + g.frames
  {
    FlattenSnoc(groups, g);
  }

  lemma FragmentCloses(s: SendSide, bytes: seq<byte>)
    requires Inv(s) && CanSend(s.tx, bytes) && FragmentFrame(s.tx, bytes).last
    ensures var frames := s.open + [FragmentFrame(s.tx, bytes)];
            IsClosed(Group(s.tx.id, frames, Whole(Payload(frames))))
  {
    var f := FragmentFrame(s.tx, bytes);
    var frames := s.open + [f];
    PayloadSnoc(s.open, f);
    assert frames[..|frames| - 1] == s.open;
  }

  lemma FragmentStaysOpen(s: SendSide, bytes: seq<byte>)
    requires Inv(s) && CanSend(s.tx, bytes) && !FragmentFrame(s.tx, bytes).last
    ensures var frames := s.open + [FragmentFrame(s.tx, bytes)];
            && IsOpen(frames, s.tx.id, s.tx.len)
            && |Payload(frames)| == s.tx.sent + |bytes|
  {
    var f := FragmentFrame(s.tx, bytes);
    PayloadSnoc(s.open, f);
    assert IsMiddle(f, s.tx.id, s.tx.len, s.open == []);
  }

  lemma FragmentKeepsInv(s: SendSide, bytes: seq<byte>)
    requires Inv(s) && CanSend(s.tx, bytes)
    ensures Inv(AfterFragment(s, bytes))
    ensures Published(AfterFragment(s, bytes)) == Published(s) + [FragmentFrame(s.tx, bytes)]
  {
    var f := FragmentFrame(s.tx, bytes);
    var frames := s.open + [f];
    if f.last {
      FragmentCloses(s, bytes);
      CloseKeepsHistory(s.groups, Group(f.id, frames, Whole(Payload(frames))));
    } else {
      FragmentStaysOpen(s, bytes);
    }
  }

  lemma AbortKeepsInv(s: SendSide)
    requires Inv(s) && s.tx.sending && s.tx.published
    ensures Inv(AfterAbort(s))
    ensures Encodable(AbortFrame(s.tx))
    ensures Published(AfterAbort(s)) == Published(s) + [AbortFrame(s.tx)]
  {
    var frames := s.open + [AbortFrame(s.tx)];
    assert frames[..|frames| - 1] == s.open;
    CloseKeepsHistory(s.groups, Group(s.tx.id, frames, Reset));
  }

  lemma FragmentAccepted(s: SendSide, bytes: seq<byte>)
    requires TxOk(s.tx) && CanSend(s.tx, bytes)
    ensures Encodable(FragmentFrame(s.tx, bytes))
    ensures Inv(s) ==> var t := AfterFragment(s, bytes); Inv(t) && Published(t) == Published(s) + [FragmentFrame(s.tx, bytes)]
  {
    if Inv(s) {
      FragmentKeepsInv(s, bytes);
    }
  }

  lemma AbortAccepted(s: SendSide)
    requires TxOk(s.tx) && s.tx.sending && s.tx.published
    ensures Encodable(AbortFrame(s.tx))
    ensures Inv(s) ==> var t := AfterAbort(s); Inv(t) && Published(t) == Published(s) + [AbortFrame(s.tx)]
  {
    if Inv(s) {
      AbortKeepsInv(s);
    }
  }

  lemma PublishedEncodable(s: SendSide)
    requires Inv(s)
    ensures AllEncodable(Published(s))
  {
    HistoryEncodable(s.groups);
    if s.open != [] {
      OpenEncodable(s.open, s.tx.id, s.tx.len);
    }
  }

  // ----- One axivc_message_try_write call

  function ChunkCount(n: nat): nat {
    (n + FRAGMENT_CAPACITY - 1) / FRAGMENT_CAPACITY
  }

  /** The k-th fragment the loop takes from `input`. */
  function Chunk(input: seq<byte>, k: nat): (c: seq<byte>)
    requires k < ChunkCount(|input|)
    ensures 0 < |c| <= FRAGMENT_CAPACITY
    ensures FRAGMENT_CAPACITY * k + |c| == Min(FRAGMENT_CAPACITY * (k + 1), |input|)
  {
    input[FRAGMENT_CAPACITY * k..Min(FRAGMENT_CAPACITY * (k + 1), |input|)]
  }

  /** Where the loop stands after `k` fragments, the next chunk is what it takes. */
  lemma NextChunk(input: seq<byte>, consumed: nat, k: nat)
    requires k <= ChunkCount(|input|) && consumed == Min(FRAGMENT_CAPACITY * k, |input|) < |input|
    ensures k < ChunkCount(|input|) && consumed == FRAGMENT_CAPACITY * k
    ensures var n := Min(FRAGMENT_CAPACITY, |input| - consumed);
            && input[consumed..consumed + n] == Chunk(input, k)
            && consumed + n == Min(FRAGMENT_CAPACITY * (k + 1), |input|)
  {
  }

  predicate CanWrite(tx: Tx, input: seq<byte>) {
    tx.sending && tx.len > 0 && tx.sent < tx.len && |input| <= tx.len - tx.sent
  }

  /** The sender after the first `k` fragments of `input` were accepted. */
  function AfterChunks(s: SendSide, input: seq<byte>, k: nat): (t: SendSide)
    requires CanWrite(s.tx, input) && k <= ChunkCount(|input|)
    ensures t.tx == s.tx.(sent := s.tx.sent + Min(FRAGMENT_CAPACITY * k, |input|),
                          published := s.tx.published || k > 0,
                          sending := s.tx.sent + Min(FRAGMENT_CAPACITY * k, |input|) != s.tx.len)
  {
    if k == 0 then s else AfterFragment(AfterChunks(s, input, k - 1), Chunk(input, k - 1))
  }

  function WriteError(tx: Tx, input: seq<byte>): int {
    if !tx.sending then -ENOMSG
    else if |input| > tx.len - tx.sent then -EINVAL
    else 0
  }

  /** The sender after a try_write during which the ring accepts at most `room` slots. */
  function Written(s: SendSide, input: seq<byte>, room: nat): SendSide
    requires TxOk(s.tx)
  {
    if WriteError(s.tx, input) != 0 then s
    else if s.tx.len == 0 then (if room > 0 then AfterFragment(s, []) else s)
    else AfterChunks(s, input, Min(room, ChunkCount(|input|)))
  }

  lemma {:induction false} ChunksKeepInv(s: SendSide, input: seq<byte>, k: nat)
    requires Inv(s) && CanWrite(s.tx, input) && k <= ChunkCount(|input|)
    ensures Inv(AfterChunks(s, input, k))
    ensures |Published(AfterChunks(s, input, k))| == |Published(s)| + k
    ensures Published(s) <= Published(AfterChunks(s, input, k))
  {
    if k > 0 {
      ChunksKeepInv(s, input, k - 1);
      FragmentKeepsInv(AfterChunks(s, input, k - 1), Chunk(input, k - 1));
    }
  }

  lemma FragmentEffect(s: SendSide, bytes: seq<byte>)
    requires CanSend(s.tx, bytes)
    ensures var t := AfterFragment(s, bytes);
            if s.tx.sent + |bytes| == s.tx.len then Outcomes(t.groups) == Outcomes(s.groups) + [Whole(Payload(s.open) + bytes)]
            else t.groups == s.groups && Payload(t.open) == Payload(s.open) + bytes
  {
    var f := FragmentFrame(s.tx, bytes);
    PayloadSnoc(s.open, f);
    OutcomesSnoc(s.groups, Group(f.id, s.open + [f], Whole(Payload(s.open + [f]))));
  }

  /** What the first `k` fragments of `input` cover. */
  function Covered(input: seq<byte>, k: nat): seq<byte> {
    input[..Min(FRAGMENT_CAPACITY * k, |input|)]
  }

  lemma CoveredNext(input: seq<byte>, k: nat, before: seq<byte>)
    requires k < ChunkCount(|input|)
    ensures before + Covered(input, k) + Chunk(input, k) == before + Covered(input, k + 1)
  {
    assert Covered(input, k) + Chunk(input, k) == Covered(input, k + 1);
  }

  /** However the caller cuts its input up: the fragments a try_write publishes carry
      exactly the consumed bytes after those already sent, and closing the message
      closes it with all of them. */
  lemma {:induction false} ChunksCarry(s: SendSide, input: seq<byte>, k: nat)
    requires CanWrite(s.tx, input) && k <= ChunkCount(|input|)
    ensures var t := AfterChunks(s, input, k);
            var bytes := Payload(s.open) + Covered(input, k);
            if t.tx.sending then t.groups == s.groups && Payload(t.open) == bytes
            else Outcomes(t.groups) == Outcomes(s.groups) + [Whole(bytes)]
    decreases k
  {
    if k == 0 {
      assert Payload(s.open) + Covered(input, 0) == Payload(s.open);
    } else {
      ChunksCarry(s, input, k - 1);
      CoveredNext(input, k - 1, Payload(s.open));
      FragmentEffect(AfterChunks(s, input, k - 1), Chunk(input, k - 1));
    }
  }

  // ----- One axivc_message_try_abort call

  function AbortError(tx: Tx, room: bool): int {
    if !tx.sending then -ENOMSG
    else if tx.published && !room then -EAGAIN
    else 0
  }

  function Aborted(s: SendSide, room: bool): SendSide {
    if AbortError(s.tx, room) != 0 then s
    else if !s.tx.published then AfterCancel(s)
    else AfterAbort(s)
  }

  // ----- Any sequence of calls against any ring fullness

  datatype Call = StartCall(len: u64) | WriteCall(input: seq<byte>, room: nat) | AbortCall(accepts: bool)

  function After(s: SendSide, c: Call): SendSide
    requires TxOk(s.tx)
  {
    match c
    case StartCall(len) => Started(s, len)
    case WriteCall(input, room) => Written(s, input, room)
    case AbortCall(room) => Aborted(s, room)
  }

  lemma CallKeepsInv(s: SendSide, c: Call)
    requires Inv(s)
    ensures Inv(After(s, c))
    ensures Published(s) <= Published(After(s, c))
  {
    match c
    case StartCall(len) => StartedKeepsInv(s, len);
    case WriteCall(input, room) =>
      if WriteError(s.tx, input) == 0 {
        if s.tx.len != 0 {
          ChunksKeepInv(s, input, Min(room, ChunkCount(|input|)));
        } else if room > 0 {
          FragmentKeepsInv(s, []);
        }
      }
    case AbortCall(room) =>
      if AbortError(s.tx, room) == 0 && s.tx.published {
        AbortKeepsInv(s);
      }
  }

  ghost function AfterAll(s: SendSide, calls: seq<Call>): (t: SendSide)
    requires Inv(s)
    ensures Inv(t)
    decreases |calls|
  {
    if calls == [] then s
    else
      CallKeepsInv(s, calls[0]);
      AfterAll(After(s, calls[0]), calls[1..])
  }

  /** Whatever the callers do, in whatever order and against whatever ring
      fullness, the published frames are closed messages with strictly increasing
      nonzero ids plus at most one open prefix, present exactly while a send is
      active and has published; published frames are never taken back; every one
      of them can be encoded. */
  lemma {:induction false} SenderGrammar(s: SendSide, calls: seq<Call>)
    requires Inv(s)
    ensures var t := AfterAll(s, calls);
            && Published(s) <= Published(t) == Flatten(t.groups) + t.open
            && IsHistory(t.groups)
            && (t.open != [] <==> t.tx.sending && t.tx.published)
            && (t.open != [] ==> IsOpen(t.open, t.tx.id, t.tx.len) && |Payload(t.open)| == t.tx.sent)
            && AllEncodable(Published(t))
    decreases |calls|
  {
    if calls == [] {
      PublishedEncodable(s);
    } else {
      CallKeepsInv(s, calls[0]);
      SenderGrammar(After(s, calls[0]), calls[1..]);
    }
  }

  /** The id space is not reused: once 2^64 - 1 has been handed out no later call
      revives it, so every start fails from then on. */
  lemma {:induction false} ExhaustionIsForever(s: SendSide, calls: seq<Call>)
    requires Inv(s) && s.tx.nextId == 0
    ensures AfterAll(s, calls).tx.nextId == 0
    ensures StartError(AfterAll(s, calls).tx) != 0
    decreases |calls|
  {
    if calls != [] {
      CallKeepsInv(s, calls[0]);
      ExhaustionIsForever(After(s, calls[0]), calls[1..]);
    }
  }

  /** How many of the calls are starts that answered 0. */
  ghost function Starts(s: SendSide, calls: seq<Call>): nat
    requires Inv(s)
    decreases |calls|
  {
    if calls == [] then 0
    else
      CallKeepsInv(s, calls[0]);
      (if calls[0].StartCall? && StartError(s.tx) == 0 then 1 else 0) + Starts(After(s, calls[0]), calls[1..])
  }

  /** The id of the next message, once `n` have been handed out. */
  predicate Handed(tx: Tx, n: nat) {
    && n <= U64_MAX
    && tx.nextId == (if n == U64_MAX then 0 else n + 1)
    && (n > 0 ==> tx.id == n)
  }

  lemma CallHandsOut(s: SendSide, c: Call, n: nat)
    requires Inv(s) && Handed(s.tx, n)
    ensures Handed(After(s, c).tx, n + (if c.StartCall? && StartError(s.tx) == 0 then 1 else 0))
  {
  }

  lemma {:induction false} CallsHandOut(s: SendSide, calls: seq<Call>, n: nat)
    requires Inv(s) && Handed(s.tx, n)
    ensures Handed(AfterAll(s, calls).tx, n + Starts(s, calls))
    decreases |calls|
  {
    if calls != [] {
      CallKeepsInv(s, calls[0]);
      CallHandsOut(s, calls[0], n);
      CallsHandOut(After(s, calls[0]), calls[1..], n + (if calls[0].StartCall? && StartError(s.tx) == 0 then 1 else 0));
    }
  }

  /** Ids count the successful starts, from 1, without gaps, up to 2^64 - 1: after `n`
      of them a sender that is not sending hands out id n + 1, unless n is 2^64 - 1,
      and then it answers -EOVERFLOW; a sender that is sending answers -EBUSY. */
  lemma IdsCountStarts(calls: seq<Call>, len: u64)
    ensures var t, n := AfterAll(INITIAL_SIDE, calls), Starts(INITIAL_SIDE, calls);
            && n <= 0xFFFF_FFFF_FFFF_FFFF
            && (t.tx.nextId == 0 <==> n == 0xFFFF_FFFF_FFFF_FFFF)
            && (n > 0 ==> t.tx.id == n)
            && StartError(t.tx) == (if t.tx.sending then -EBUSY else if n == 0xFFFF_FFFF_FFFF_FFFF then -EOVERFLOW else 0)
            && (StartError(t.tx) == 0 ==>
                  var u := After(t, StartCall(len)).tx;
                  u.sending && u.id == n + 1 && u.len == len && u.sent == 0 && !u.published)
  {
    CallsHandOut(INITIAL_SIDE, calls, 0);
  }

  // ----- The calls themselves

  class MessageSender {
    const ring: SharedRing
    var tx: Tx
    /** History since sender_init, and where in the ring's history it begins. */
    ghost var side: SendSide
    ghost const base: nat

    /** The ring carries exactly what the history says was published. */
    ghost predicate InStep()
      reads this, ring
    {
      Inv(side) && Carries(ring.pushed, base, Published(side))
    }

    ghost predicate Valid()
      reads this, ring, ring.slots
    {
      && ring.Valid()
      && side.tx == tx
      && TxOk(tx)
      && forall n :: Inside(SenderPart, n) ==> InStep()
    }

    ghost predicate RingFull()
      reads ring
    {
      |ring.pushed| == ring.popped + RingSteps.CAPACITY
    }

    constructor (ring: SharedRing)
      requires ring.Valid()
      ensures Valid() && this.ring == ring && side == INITIAL_SIDE && base == |ring.pushed|
    {
      this.ring := ring;
      tx, side := INITIAL_SIDE.tx, INITIAL_SIDE;
      base := |ring.pushed|;
    }

    method Start(len: u64) returns (err: int)
      requires Valid()
      modifies this`tx, this`side
      ensures Valid()
      ensures err == if old(tx.sending) then -EBUSY else if old(tx.nextId) == 0 then -EOVERFLOW else 0
      ensures err != 0 ==> tx == old(tx)
      ensures err == 0 ==> tx.sending && tx.id == old(tx.nextId) && tx.len == len && tx.sent == 0 && !tx.published
      ensures err == 0 ==> tx.nextId == if old(tx.nextId) == 0xFFFF_FFFF_FFFF_FFFF then 0 else old(tx.nextId) + 1
      ensures side == Started(old(side), len)
    {
      if tx.sending {
        return -EBUSY;
      }
      if tx.nextId == 0 {
        return -EOVERFLOW;
      }
      assert Inside(SenderPart, 0);
      StartedKeepsInv(side, len);
      var messageId := tx.nextId;
      if messageId == U64_MAX {
        tx := tx.(nextId := 0);
      } else {
        tx := tx.(nextId := messageId + 1);
      }
      tx := tx.(sending := true, id := messageId, len := len, sent := 0, published := false);
      side := Started(side, len);
      return 0;
    }

    /** Encodes and offers the frame that takes the history to `next`. */
    method Offer(f: Frame, ghost next: SendSide) returns (ok: bool)
      requires Valid() && Encodable(f)
      requires Inv(side) ==> Inv(next) && Published(next) == Published(side) + [f]
      modifies this`tx, this`side, ring`head, ring`popped, ring`tail, ring`pushed, ring.slots
      ensures ring.Valid() && old(ring.popped) <= ring.popped
      ensures tx == old(tx) && side == if ok then next else old(side)
      ensures forall n :: Inside(SenderPart, n) ==> InStep()
      ensures |ring.pushed| == old(|ring.pushed|) + (if ok then 1 else 0)
      ensures !ok ==> Valid() && RingFull()
    {
      assert Inside(SenderPart, 0);
      var slot := new byte[SLOT_SIZE];
      var err := EncodeFrame(slot, f);
      assert err == 0;  // the callers' `if (err) return err` is never taken
      CarriesSnoc(ring.pushed, base, Published(side), f);
      ok := ring.TryPushSlot(slot[..]);
      if ok {
        side := next;
      }
    }

    /** The loop body of try_write: one fragment offered, and the fields it moves. */
    method PublishFragment(fragment: seq<byte>) returns (ok: bool)
      requires Valid() && CanSend(tx, fragment) && tx.len > 0
      modifies this`tx, this`side, ring`head, ring`popped, ring`tail, ring`pushed, ring.slots
      ensures Valid() && old(ring.popped) <= ring.popped
      ensures side == if ok then AfterFragment(old(side), fragment) else old(side)
      ensures |ring.pushed| == old(|ring.pushed|) + (if ok then 1 else 0)
      ensures !ok ==> RingFull()
    {
      var f := FragmentFrame(tx, fragment);
      FragmentAccepted(side, fragment);
      ok := Offer(f, AfterFragment(side, fragment));
      if ok {
        tx := tx.(sent := tx.sent + |fragment|, published := true);
        if f.last {
          tx := tx.(sending := false);
        }
      }
    }

    method TryWrite(input: seq<byte>) returns (err: int, consumed: nat, publishedSlots: nat, complete: bool)
      requires Valid()
      modifies this`tx, this`side, ring`head, ring`popped, ring`tail, ring`pushed, ring.slots
      ensures Valid() && old(ring.popped) <= ring.popped
      ensures err == if !old(tx.sending) then -ENOMSG else if |input| > old(tx.len) - old(tx.sent) then -EINVAL else 0
      ensures side == Written(old(side), input, publishedSlots)
      ensures err == 0 && old(tx.len) > 0 ==> publishedSlots <= ChunkCount(|input|)
      ensures |ring.pushed| == old(|ring.pushed|) + publishedSlots
      ensures consumed == Min(FRAGMENT_CAPACITY * publishedSlots, if err == 0 then |input| else 0)
      ensures complete <==> err == 0 && !tx.sending
      ensures err == 0 && !complete && (consumed < |input| || old(tx.len) == 0) ==> RingFull()
    {
      err, consumed, publishedSlots, complete := 0, 0, 0, false;
      if !tx.sending {
        return -ENOMSG, 0, 0, false;
      }
      var remaining := tx.len - tx.sent;
      if |input| > remaining {
        return -EINVAL, 0, 0, false;
      }
      if tx.len == 0 {
        complete := PublishEmptyMessage();
        publishedSlots := if complete then 1 else 0;
        return;
      }
      consumed, publishedSlots, complete := WriteLoop(input);
    }

    /** One turn of the loop: cuts the next fragment off `input` and offers it. */
    method WriteTurn(input: seq<byte>, consumed: nat, ghost before: SendSide, ghost k: nat)
      returns (ok: bool, total: nat)
      requires Valid() && CanWrite(before.tx, input) && k <= ChunkCount(|input|)
      requires consumed == Min(FRAGMENT_CAPACITY * k, |input|) < |input| && side == AfterChunks(before, input, k)
      modifies this`tx, this`side, ring`head, ring`popped, ring`tail, ring`pushed, ring.slots
      ensures Valid() && old(ring.popped) <= ring.popped
      ensures k < ChunkCount(|input|) && side == AfterChunks(before, input, if ok then k + 1 else k)
      ensures total == if ok then Min(FRAGMENT_CAPACITY * (k + 1), |input|) else consumed
      ensures |ring.pushed| == old(|ring.pushed|) + (if ok then 1 else 0)
      ensures !ok ==> tx.sending && RingFull()
    {
      NextChunk(input, consumed, k);
      var fragmentLen := Min(FRAGMENT_CAPACITY, |input| - consumed);
      ok := PublishFragment(input[consumed..consumed + fragmentLen]);
      total := if ok then consumed + fragmentLen else consumed;
    }

    method WriteLoop(input: seq<byte>) returns (consumed: nat, publishedSlots: nat, complete: bool)
      requires Valid() && CanWrite(tx, input)
      modifies this`tx, this`side, ring`head, ring`popped, ring`tail, ring`pushed, ring.slots
      ensures Valid() && old(ring.popped) <= ring.popped
      ensures publishedSlots <= ChunkCount(|input|)
      ensures side == AfterChunks(old(side), input, publishedSlots)
      ensures |ring.pushed| == old(|ring.pushed|) + publishedSlots
      ensures consumed == Min(FRAGMENT_CAPACITY * publishedSlots, |input|)
      ensures complete == !tx.sending
      ensures consumed < |input| ==> RingFull()
    {
      consumed, publishedSlots, complete := 0, 0, false;
      while consumed < |input|
        invariant Valid() && old(ring.popped) <= ring.popped
        invariant publishedSlots <= ChunkCount(|input|)
        invariant consumed == Min(FRAGMENT_CAPACITY * publishedSlots, |input|)
        invariant side == AfterChunks(old(side), input, publishedSlots)
        invariant |ring.pushed| == old(|ring.pushed|) + publishedSlots
        invariant tx.sending
        decreases |input| - consumed
      {
        var ok;
        ok, consumed := WriteTurn(input, consumed, old(side), publishedSlots);
        if !ok {
          break;
        }
        publishedSlots := publishedSlots + 1;
        if tx.sent == tx.len {
          complete := true;
          return;
        }
      }
    }

    method PublishEmptyMessage() returns (complete: bool)
      requires Valid() && tx.sending && tx.len == 0
      modifies this`tx, this`side, ring`head, ring`popped, ring`tail, ring`pushed, ring.slots
      ensures Valid() && old(ring.popped) <= ring.popped
      ensures complete == !tx.sending
      ensures side == if complete then AfterFragment(old(side), []) else old(side)
      ensures |ring.pushed| == old(|ring.pushed|) + (if complete then 1 else 0)
      ensures !complete ==> RingFull()
    {
      var f := Frame(tx.id, 0, true, true, false, []);
      FragmentAccepted(side, []);
      complete := Offer(f, AfterFragment(side, []));
      if complete {
        tx := tx.(sending := false);
      }
    }

    method PublishAbort() returns (ok: bool)
      requires Valid() && tx.sending && tx.published
      modifies this`tx, this`side, ring`head, ring`popped, ring`tail, ring`pushed, ring.slots
      ensures Valid() && old(ring.popped) <= ring.popped
      ensures side == if ok then AfterAbort(old(side)) else old(side)
      ensures |ring.pushed| == old(|ring.pushed|) + (if ok then 1 else 0)
      ensures !ok ==> RingFull()
    {
      AbortAccepted(side);
      ok := Offer(AbortFrame(tx), AfterAbort(side));
      if ok {
        tx := tx.(sending := false);
      }
    }

    method TryAbort() returns (err: int)
      requires Valid()
      modifies this`tx, this`side, ring`head, ring`popped, ring`tail, ring`pushed, ring.slots
      ensures Valid() && old(ring.popped) <= ring.popped
      ensures err == if !old(tx.sending) then -ENOMSG else if old(tx.published) && err == -EAGAIN then -EAGAIN else 0
      ensures side == Aborted(old(side), err != -EAGAIN)
      ensures |ring.pushed| == old(|ring.pushed|) + (if err == 0 && old(tx.published) then 1 else 0)
      ensures err == -EAGAIN ==> RingFull()
    {
      if !tx.sending {
        return -ENOMSG;
      }
      if !tx.published {
        tx := tx.(sending := false);
        side := AfterCancel(side);
        assert Inside(SenderPart, 0);
        return 0;
      }
      var ok := PublishAbort();
      return if ok then 0 else -EAGAIN;
    }
  }
}
