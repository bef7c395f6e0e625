/** The receiving state machine of ivc/message.c: the transition rules, a
    one-frame-at-a-time reference machine, and one axivc_message_try_read call as
    a function of the slots it can see. */
module Receiver {
  import opened Machine
  import opened Wire
  import opened Stream

  datatype RxState = Idle | Receiving | Failed

  /** struct axivc_message_receiver without its ring pointer. */
  datatype Rx = Rx(state: RxState, id: u64, len: u64, received: u64, error: int)

  datatype Transition =
    | Bad(error: int)
    | Next(state: RxState, id: u64, len: u64, received: u64, complete: bool, aborted: bool)

  function Advance(id: u64, len: u64, received: u64, f: Frame): Transition {
    if f.abort then Next(Idle, id, len, received, false, true)
    else if received > U64_MAX - |f.payload| then Bad(-EPROTO)
    else if received + |f.payload| > len then Bad(-EPROTO)
    else if f.last && received + |f.payload| != len then Bad(-EPROTO)
    else Next(if f.last then Idle else Receiving, id, len, received + |f.payload|, f.last, false)
  }

  /** axivc_validate_transition. */
  function Validate(rx: Rx, f: Frame): Transition {
    match rx.state
    case Idle => if f.abort || !f.first then Bad(-EPROTO) else Advance(f.id, f.len, 0, f)
    case Receiving =>
      if f.first || f.id != rx.id || f.len != rx.len then Bad(-EPROTO)
      else Advance(rx.id, rx.len, rx.received, f)
    case Failed => Bad(rx.error)
  }

  datatype Verdict = Reject(error: int) | Accept(frame: Frame, next: Transition)

  /** Decoding and transition checks together: what the receiver makes of a slot. */
  function Judge(rx: Rx, slot: Slot): (v: Verdict)
    ensures v.Accept? ==> v.next.Next? && Decode(slot) == Good(v.frame)
    ensures v.Reject? && rx.state != Failed ==> v.error == -EPROTO || v.error == -EPROTONOSUPPORT
  {
    match Decode(slot)
    case Malformed(e) => Reject(e)
    case Good(f) =>
      match Validate(rx, f)
      case Bad(e) => Reject(e)
      case Next(_, _, _, _, _, _) => Accept(f, Validate(rx, f))
  }

  function Fail(rx: Rx, error: int): Rx {
    rx.(state := Failed, error := error)
  }

  // ----- The reference machine: one slot at a time, with history

  /** The receiver with its history: the frames consumed since the current FIRST,
      and how every finished message ended. */
  datatype RecvSide = RecvSide(rx: Rx, current: seq<Frame>, log: seq<Outcome>)

  const INITIAL_RECV := RecvSide(Rx(Idle, 0, 0, 0, 0), [], [])

  function TakenFrame(v: RecvSide, f: Frame, n: Transition): RecvSide
    requires n.Next?
  {
    var frames := v.current + [f];
    if n.complete then RecvSide(Moved(v.rx, n), [], v.log + [Whole(Payload(frames))])
    else if n.aborted then RecvSide(Moved(v.rx, n), [], v.log + [Reset])
    else RecvSide(Moved(v.rx, n), frames, v.log)
  }

  function Taken(v: RecvSide, slot: Slot): RecvSide
    requires Judge(v.rx, slot).Accept?
  {
    TakenFrame(v, Judge(v.rx, slot).frame, Judge(v.rx, slot).next)
  }

  function Moved(rx: Rx, n: Transition): Rx
    requires n.Next?
  {
    Rx(n.state, n.id, n.len, n.received, rx.error)
  }

  datatype Replayed = Stuck | At(side: RecvSide)

  function ThenSlot(r: Replayed, slot: Slot): Replayed {
    if r.At? && Judge(r.side.rx, slot).Accept? then At(Taken(r.side, slot)) else Stuck
  }

  /** The receiver after consuming `slots` from a fresh start, if it accepts them all. */
  function Replay(slots: seq<Slot>): Replayed {
    if slots == [] then At(INITIAL_RECV)
    else ThenSlot(Replay(slots[..|slots| - 1]), slots[|slots| - 1])
  }

  lemma ReplaySnoc(slots: seq<Slot>, slot: Slot)
    requires Replay(slots).At? && Judge(Replay(slots).side.rx, slot).Accept?
    ensures Replay(slots + [slot]) == At(Taken(Replay(slots).side, slot))
  {
    assert (slots + [slot])[..|slots|] == slots;
  }

  /** The last slot consumed, and where the receiver stood before it. */
  lemma ReplayLast(slots: seq<Slot>) returns (front: seq<Slot>, slot: Slot, v: RecvSide)
    requires slots != [] && Replay(slots).At?
    ensures slots == front + [slot] && Replay(front) == At(v)
    ensures Judge(v.rx, slot).Accept? && Replay(slots).side == Taken(v, slot)
  {
    front, slot := slots[..|slots| - 1], slots[|slots| - 1];
    v := Replay(front).side;
  }

  lemma TakenOnlyAdds(v: RecvSide, slot: Slot)
    requires Judge(v.rx, slot).Accept?
    ensures v.log <= Taken(v, slot).log
  {
  }

  /** Consuming more slots only ever adds to the log. */
  lemma {:induction false} ReplayPrefix(slots: seq<Slot>, k: nat)
    requires Replay(slots).At? && k <= |slots|
    ensures Replay(slots[..k]).At?
    ensures Replay(slots[..k]).side.log <= Replay(slots).side.log
  {
    if k < |slots| {
      var front, slot, v := ReplayLast(slots);
      TakenOnlyAdds(v, slot);
      ReplayPrefix(front, k);
      TakeOfSnoc(front, slot, k);
    } else {
      assert slots[..k] == slots;
    }
  }

  /** Whatever was consumed along the way had been accepted. */
  lemma ReplayAccepts(slots: seq<Slot>, k: nat)
    requires Replay(slots).At? && k < |slots|
    ensures Replay(slots[..k]).At? && Judge(Replay(slots[..k]).side.rx, slots[k]).Accept?
  {
    ReplayPrefix(slots, k + 1);
    var upto := slots[..k + 1];
    assert upto[..k] == slots[..k] && upto[k] == slots[k];
  }

  // ----- Soundness for arbitrary slot contents

  /** Consecutive frames of one message, FIRST exactly on the first, none closing it. */
  ghost predicate IsRun(frames: seq<Frame>, id: u64, len: u64) {
    forall i :: 0 <= i < |frames| ==> IsMiddle(frames[i], id, len, i == 0)
  }

  ghost predicate SideInv(v: RecvSide) {
    match v.rx.state
    case Idle => v.current == []
    case Receiving =>
      && v.current != []
      && v.rx.id != 0
      && IsRun(v.current, v.rx.id, v.rx.len)
      && |Payload(v.current)| == v.rx.received
      && 0 < v.rx.received <= v.rx.len
    case Failed => false
  }

  lemma AcceptedShape(v: RecvSide, slot: Slot)
    requires SideInv(v) && Judge(v.rx, slot).Accept?
    ensures var Accept(f, n) := Judge(v.rx, slot);
            && Encodable(f) && f.id != 0
            && f == Frame(n.id, n.len, v.current == [] && !n.aborted, n.complete, n.aborted, f.payload)
            && (v.current != [] ==> n.id == v.rx.id && n.len == v.rx.len)
            && (n.aborted ==> v.current != [] && f.payload == [])
            && (!n.aborted ==> n.received == |Payload(v.current)| + |f.payload| <= n.len)
            && (n.complete ==> n.received == n.len)
            && (!n.aborted && !n.complete ==> |f.payload| > 0)
  {
    EncodeAfterDecode(slot);
  }

  /** Exactly which slots a receiver in good order accepts: those whose frame continues
      the frames under way to a run of one message no longer than declared, or to an
      exact message, or cancels a message under way. */
  lemma AcceptsExactly(v: RecvSide, slot: Slot)
    requires SideInv(v)
    ensures Judge(v.rx, slot).Accept? <==>
              Decode(slot).Good? && Continues(v.current, Decode(slot).frame)
    ensures Judge(v.rx, slot).Reject? ==>
              Judge(v.rx, slot).error == if slot[0] != 1 then -EPROTONOSUPPORT else -EPROTO
  {
    if Decode(slot).Good? {
      EncodeAfterDecode(slot);
      var f := Decode(slot).frame;
      PayloadSnoc(v.current, f);
      assert (v.current + [f])[..|v.current|] == v.current;
      assert v.current != [] ==> IsMiddle(v.current[0], v.rx.id, v.rx.len, true);
    }
  }

  ghost predicate Continues(current: seq<Frame>, f: Frame) {
    var frames := current + [f];
    || (IsRun(frames, f.id, f.len) && |Payload(frames)| <= f.len)
    || IsExactMessage(frames)
    || (f == Frame(f.id, f.len, false, false, true, []) && current != [] && IsRun(current, f.id, f.len))
  }

  lemma TakenKeepsInv(v: RecvSide, slot: Slot)
    requires SideInv(v) && Judge(v.rx, slot).Accept?
    ensures SideInv(Taken(v, slot))
  {
    AcceptedShape(v, slot);
    var Accept(f, n) := Judge(v.rx, slot);
    PayloadSnoc(v.current, f);
  }

  lemma {:induction false} ReplayInv(slots: seq<Slot>)
    requires Replay(slots).At?
    ensures SideInv(Replay(slots).side)
  {
    if slots != [] {
      var front, slot, v := ReplayLast(slots);
      ReplayInv(front);
      TakenKeepsInv(v, slot);
    }
  }

  /** A receiver that has consumed `seen` since it started stands at `v`. */
  ghost predicate Stands(seen: seq<Slot>, v: RecvSide) {
    forall n :: Inside(ReplayPart, n) ==> Replay(seen) == At(v) && SideInv(v)
  }

  lemma StandsMeans(seen: seq<Slot>, v: RecvSide)
    requires Stands(seen, v)
    ensures Replay(seen) == At(v) && SideInv(v)
  {
    assert Inside(ReplayPart, 0);
  }

  /** Everything a receiver needs to know before it releases an accepted slot. */
  lemma StandsNext(seen: seq<Slot>, slot: Slot, v: RecvSide)
    requires Stands(seen, v) && Judge(v.rx, slot).Accept?
    ensures var w := Taken(v, slot);
            var Accept(f, n) := Judge(v.rx, slot);
            && Stands(seen + [slot], w) && w.rx == Moved(v.rx, n) && w.rx.state != Failed
            && (n.aborted || n.complete || f.payload != [])
  {
    StandsMeans(seen, v);
    AcceptedShape(v, slot);
    TakenKeepsInv(v, slot);
    ReplaySnoc(seen, slot);
  }

  /** The frames counted as current really are the most recently consumed slots. */
  ghost predicate Tracks(slots: seq<Slot>, current: seq<Frame>) {
    && |current| <= |slots|
    && forall i :: 0 <= i < |current| ==> Decode(slots[|slots| - |current| + i]) == Good(current[i])
  }

  lemma TracksSnoc(slots: seq<Slot>, current: seq<Frame>, slot: Slot, f: Frame)
    requires Tracks(slots, current) && Decode(slot) == Good(f)
    ensures Tracks(slots + [slot], current + [f])
  {
    var all, frames := slots + [slot], current + [f];
    forall i | 0 <= i < |frames|
      ensures Decode(all[|all| - |frames| + i]) == Good(frames[i])
    {
      if i < |current| {
        assert all[|all| - |frames| + i] == slots[|slots| - |current| + i];
      }
    }
  }

  lemma TakenTracks(slots: seq<Slot>, v: RecvSide, slot: Slot)
    requires Tracks(slots, v.current) && Judge(v.rx, slot).Accept?
    ensures Tracks(slots + [slot], Taken(v, slot).current)
  {
    TracksSnoc(slots, v.current, slot, Judge(v.rx, slot).frame);
  }

  lemma {:induction false} ReplayTracks(slots: seq<Slot>)
    requires Replay(slots).At?
    ensures Tracks(slots, Replay(slots).side.current)
  {
    if slots != [] {
      var front, slot, v := ReplayLast(slots);
      ReplayTracks(front);
      TakenTracks(front, v, slot);
    }
  }

  /** Whatever frames a peer writes: when the receiver reports a message complete,
      the message is the payload of the last `count` consumed slots, which carry one
      nonzero id and one declared length, start with the only FIRST and end with the
      only LAST, and add up to exactly the declared length. */
  lemma CompleteMeansWhole(slots: seq<Slot>, slot: Slot) returns (frames: seq<Frame>)
    requires Replay(slots).At?
    requires Completes(Replay(slots).side, slot)
    ensures 0 < |frames| && Tracks(slots + [slot], frames) && IsExactMessage(frames)
    ensures Replay(slots + [slot]).At?
    ensures Replay(slots + [slot]).side.log == Replay(slots).side.log + [Whole(Payload(frames))]
  {
    var v := Replay(slots).side;
    ReplayInv(slots);
    ReplayTracks(slots);
    frames := v.current + [Judge(v.rx, slot).frame];
    TracksSnoc(slots, v.current, slot, Judge(v.rx, slot).frame);
    CompleteShape(v, slot);
    ReplaySnoc(slots, slot);
  }

  ghost predicate Completes(v: RecvSide, slot: Slot) {
    var verdict := Judge(v.rx, slot);
    verdict.Accept? && verdict.next.complete
  }

  ghost predicate IsExactMessage(frames: seq<Frame>) {
    && |frames| > 0
    && var n := |frames| - 1;
    && frames[n] == Frame(frames[n].id, frames[n].len, n == 0, true, false, frames[n].payload)
    && frames[n].id != 0
    && IsRun(frames[..n], frames[n].id, frames[n].len)
    && |Payload(frames)| == frames[n].len
  }

  lemma CompleteShape(v: RecvSide, slot: Slot)
    requires SideInv(v) && Completes(v, slot)
    ensures IsExactMessage(v.current + [Judge(v.rx, slot).frame])
  {
    var f := Judge(v.rx, slot).frame;
    AcceptedShape(v, slot);
    PayloadSnoc(v.current, f);
    assert (v.current + [f])[..|v.current|] == v.current;
  }

  // ----- One axivc_message_try_read call on the slots it sees

  /** `taken` counts the slots released; on an error exit the caller is told 0. */
  datatype Read = Read(err: int, written: seq<byte>, consumedSlots: nat, complete: bool, side: RecvSide, taken: nat)

  /** The loop body leaves the loop, or consumes the slot and goes round again. */
  datatype Look = Done(read: Read) | More(side: RecvSide, written: seq<byte>)

  function Examine(v: RecvSide, slot: Slot, room: nat, written: seq<byte>, consumed: nat): (l: Look)
    requires |written| <= room
    ensures l.More? ==> |l.written| <= room
  {
    var stop := Done(Read(0, written, consumed, false, v, consumed));
    match Judge(v.rx, slot)
    case Reject(e) =>
      if consumed > 0 then stop
      else Done(Read(e, [], 0, false, v.(rx := Fail(v.rx, e)), 0))
    case Accept(f, n) =>
      if n.aborted && consumed > 0 then stop
      else if |f.payload| > room - |written| then
        (if consumed == 0 then Done(Read(-EMSGSIZE, [], 0, false, v, 0)) else stop)
      else if n.aborted then Done(Read(-ECONNRESET, [], 0, false, Taken(v, slot), consumed + 1))
      else if n.complete then Done(Read(0, written + f.payload, consumed + 1, true, Taken(v, slot), consumed + 1))
      else More(Taken(v, slot), written + f.payload)
  }

  function ReadLoop(v: RecvSide, slots: seq<Slot>, room: nat, written: seq<byte>, consumed: nat): Read
    requires |written| <= room
    decreases |slots|
  {
    if slots == [] then Read(0, written, consumed, false, v, consumed)
    else
      match Examine(v, slots[0], room, written, consumed)
      case Done(r) => r
      case More(w, bytes) => ReadLoop(w, slots[1..], room, bytes, consumed + 1)
  }

  function TryRead(v: RecvSide, slots: seq<Slot>, room: nat): Read {
    if v.rx.state == Failed then Read(v.rx.error, [], 0, false, v, 0)
    else ReadLoop(v, slots, room, [], 0)
  }

  /** The loop ran out of slots and would look again. */
  predicate Waiting(r: Read, seen: nat, consumed: nat) {
    r.err == 0 && !r.complete && r.taken == consumed + seen
  }

  lemma DoneIsNotWaiting(v: RecvSide, slot: Slot, room: nat, written: seq<byte>, consumed: nat)
    requires |written| <= room
    ensures var l := Examine(v, slot, room, written, consumed);
            l.Done? ==>
              && !Waiting(l.read, 1, consumed) && l.read.taken <= consumed + 1
              && (l.read.err == 0 ==> l.read.consumedSlots == l.read.taken >= consumed && |l.read.written| <= room)
              && (consumed > 0 ==> l.read.err == 0)
  {
  }

  /** Bounds on a loop's result; once a slot was consumed the call cannot fail. */
  lemma {:induction false} ReadLoopBound(v: RecvSide, slots: seq<Slot>, room: nat, written: seq<byte>, consumed: nat)
    requires |written| <= room
    ensures var r := ReadLoop(v, slots, room, written, consumed);
            && r.taken <= consumed + |slots|
            && (r.err == 0 ==> r.consumedSlots == r.taken >= consumed && |r.written| <= room)
            && (consumed > 0 ==> r.err == 0)
    decreases |slots|
  {
    if slots != [] {
      DoneIsNotWaiting(v, slots[0], room, written, consumed);
      var l := Examine(v, slots[0], room, written, consumed);
      if l.More? {
        ReadLoopBound(l.side, slots[1..], room, l.written, consumed + 1);
      }
    }
  }

  lemma MoreIsAlive(v: RecvSide, slot: Slot, room: nat, written: seq<byte>, consumed: nat)
    requires |written| <= room && v.rx.state != Failed
    ensures var l := Examine(v, slot, room, written, consumed); l.More? ==> l.side.rx.state != Failed
  {
  }

  /** The slot is one that a loop which has consumed something leaves for the next call. */
  ghost predicate LeftOver(v: RecvSide, slot: Slot, room: nat, written: seq<byte>) {
    var verdict := Judge(v.rx, slot);
    verdict.Reject? || verdict.next.aborted || |written| + |verdict.frame.payload| > room
  }

  lemma DoneLeavesOver(v: RecvSide, slot: Slot, room: nat, written: seq<byte>, consumed: nat)
    requires |written| <= room && v.rx.state != Failed
    ensures var l := Examine(v, slot, room, written, consumed);
            l.Done? && l.read.err == 0 && !l.read.complete ==>
              l.read.side == v && l.read.written == written && l.read.taken == consumed && LeftOver(v, slot, room, written)
  {
  }

  ghost predicate Greedy(slots: seq<Slot>, room: nat, consumed: nat, r: Read) {
    forall n :: Inside(LoopPart, n) ==>
      (r.err == 0 && !r.complete && consumed <= r.taken < consumed + |slots| ==>
         LeftOver(r.side, slots[r.taken - consumed], room, r.written))
  }

  lemma GreedyBefore(slots: seq<Slot>, room: nat, consumed: nat, r: Read)
    requires slots != [] && r.taken > consumed && Greedy(slots[1..], room, consumed + 1, r)
    ensures Greedy(slots, room, consumed, r)
  {
    assert Inside(LoopPart, 0);
  }

  lemma {:induction false} LoopIsGreedy(v: RecvSide, slots: seq<Slot>, room: nat, written: seq<byte>, consumed: nat)
    requires |written| <= room && v.rx.state != Failed
    ensures var r := ReadLoop(v, slots, room, written, consumed); r.err == 0 ==> Greedy(slots, room, consumed, r)
    decreases |slots|
  {
    if slots != [] {
      DoneLeavesOver(v, slots[0], room, written, consumed);
      var l := Examine(v, slots[0], room, written, consumed);
      if l.More? {
        MoreIsAlive(v, slots[0], room, written, consumed);
        var r := ReadLoop(l.side, slots[1..], room, l.written, consumed + 1);
        LoopIsGreedy(l.side, slots[1..], room, l.written, consumed + 1);
        ReadLoopBound(l.side, slots[1..], room, l.written, consumed + 1);
        GreedyBefore(slots, room, consumed, r);
      }
    }
  }

  /** A call takes all it can: without an error or the end of a message it stops only
      before a slot that is refused, aborts, or does not fit. */
  lemma TryReadIsGreedy(v: RecvSide, slots: seq<Slot>, room: nat)
    requires v.rx.state != Failed
    ensures var r := TryRead(v, slots, room);
            r.err == 0 && !r.complete && r.taken < |slots| ==> LeftOver(r.side, slots[r.taken], room, r.written)
  {
    LoopIsGreedy(v, slots, room, [], 0);
    assert Inside(LoopPart, 0);
  }

  /** `r` is the result of a call on the slots `got`. */
  ghost predicate Result(v: RecvSide, got: seq<Slot>, room: nat, r: Read) {
    forall n :: Inside(LoopPart, n) ==> TryRead(v, got, room) == r
  }

  lemma ResultMeans(v: RecvSide, got: seq<Slot>, room: nat, r: Read)
    requires Result(v, got, room, r)
    ensures TryRead(v, got, room) == r
    ensures r.err != 0 ==> r.written == [] && r.consumedSlots == 0 && !r.complete
  {
    assert Inside(LoopPart, 0);
    ErrorsAnswerNothing(v, got, room);
  }

  /** On every error exit the caller is told that nothing was written or consumed. */
  lemma {:induction false} ErrorsAnswerNothing(v: RecvSide, slots: seq<Slot>, room: nat)
    ensures var r := TryRead(v, slots, room);
            r.err != 0 ==> r.written == [] && r.consumedSlots == 0 && !r.complete
  {
    if v.rx.state != Failed && slots != [] {
      var l := Examine(v, slots[0], room, [], 0);
      if l.More? {
        ReadLoopBound(l.side, slots[1..], room, l.written, 1);
      }
    }
  }

  /** One more visible slot continues a waiting loop where it stands. */
  lemma {:induction false} ReadLoopExtends(v: RecvSide, slots: seq<Slot>, more: seq<Slot>, room: nat, written: seq<byte>, consumed: nat)
    requires |written| <= room
    requires Waiting(ReadLoop(v, slots, room, written, consumed), |slots|, consumed)
    ensures var r := ReadLoop(v, slots, room, written, consumed);
            && |r.written| <= room
            && ReadLoop(v, slots + more, room, written, consumed) == ReadLoop(r.side, more, room, r.written, r.taken)
    decreases |slots|
  {
    if slots == [] {
      assert slots + more == more;
    } else {
      DoneIsNotWaiting(v, slots[0], room, written, consumed);
      assert (slots + more)[0] == slots[0] && (slots + more)[1..] == slots[1..] + more;
      var l := Examine(v, slots[0], room, written, consumed);
      if l.More? {
        ReadLoopExtends(l.side, slots[1..], more, room, l.written, consumed + 1);
      }
    }
  }

  /** A call that began at `v` has consumed the slots `got` and stands at `r`. */
  ghost predicate Reading(v: RecvSide, got: seq<Slot>, room: nat, r: Read) {
    && r.err == 0 && !r.complete && r.taken == r.consumedSlots == |got| && |r.written| <= room
    && forall n :: Inside(LoopPart, n) ==> ReadLoop(v, got, room, [], 0) == r
  }

  lemma ReadingStops(v: RecvSide, got: seq<Slot>, room: nat, r: Read)
    requires Reading(v, got, room, r) && v.rx.state != Failed
    ensures TryRead(v, got, room) == r
  {
    assert Inside(LoopPart, 0);
  }

  /** One more turn of the loop. */
  lemma ReadingNext(v: RecvSide, got: seq<Slot>, slot: Slot, room: nat, r: Read)
    requires Reading(v, got, room, r) && v.rx.state != Failed
    ensures match Examine(r.side, slot, room, r.written, r.taken)
            case Done(d) => TryRead(v, got + [slot], room) == d
            case More(w, bytes) => Reading(v, got + [slot], room, Read(0, bytes, r.taken + 1, false, w, r.taken + 1))
  {
    assert Inside(LoopPart, 0);
    ReadLoopExtends(v, got, [slot], room, [], 0);
  }

  // ----- What a try_read result means

  /** The length the message at hand declares. */
  function Declared(v: RecvSide, slots: seq<Slot>): u64 {
    if v.rx.state == Receiving then v.rx.len
    else if slots != [] && Decode(slots[0]).Good? then Decode(slots[0]).frame.len
    else 0
  }

  /** `v` is where a call that started at `v0` stands after `consumed` slots that
      carried `written`, none of them closing the message. */
  ghost predicate Midway(v0: RecvSide, v: RecvSide, written: seq<byte>, consumed: nat) {
    && SideInv(v0) && SideInv(v)
    && v.log == v0.log
    && Payload(v.current) == Payload(v0.current) + written
    && (if consumed == 0 then v == v0 && written == [] else v.rx.state == Receiving && written != [])
  }

  ghost predicate ReadMeaning(v: RecvSide, declared: u64, r: Read) {
    if r.err == 0 && !r.complete then
      Midway(v, r.side, r.written, r.taken) && r.consumedSlots == r.taken && (r.taken > 0 ==> r.side.rx.len == declared)
    else if r.err == 0 then
      && SideInv(r.side) && r.side.rx.state == Idle
      && r.consumedSlots == r.taken > 0
      && r.side.log == v.log + [Whole(Payload(v.current) + r.written)]
      && |Payload(v.current) + r.written| == declared
    else if r.err == -ECONNRESET then
      && SideInv(r.side) && r.side.rx.state == Idle
      && r.taken == 1 && r.consumedSlots == 0 && r.written == []
      && r.side.log == v.log + [Reset]
    else
      && r.taken == 0 && r.consumedSlots == 0 && r.written == []
      && (r.err == -EMSGSIZE ==> r.side == v)
      && (r.err != -EMSGSIZE ==> r.side == v.(rx := Fail(v.rx, r.err)) && (r.err == -EPROTO || r.err == -EPROTONOSUPPORT))
  }

  /** What consuming one slot does to the message under way. */
  lemma TakenMeaning(v: RecvSide, slot: Slot)
    requires SideInv(v) && Judge(v.rx, slot).Accept?
    ensures var Accept(f, n) := Judge(v.rx, slot);
            var w := Taken(v, slot);
            && SideInv(w) && w.rx.len == Declared(v, [slot])
            && w.rx.state == (if n.complete || n.aborted then Idle else Receiving)
            && (n.complete ==> !n.aborted && w.log == v.log + [Whole(Payload(v.current) + f.payload)])
            && (n.complete ==> |Payload(v.current) + f.payload| == w.rx.len)
            && (n.aborted ==> w.log == v.log + [Reset] && f.payload == [])
            && (!n.complete && !n.aborted ==> f.payload != [] && w.log == v.log && Payload(w.current) == Payload(v.current) + f.payload)
  {
    AcceptedShape(v, slot);
    TakenKeepsInv(v, slot);
    PayloadSnoc(v.current, Judge(v.rx, slot).frame);
  }

  lemma ExamineMeaning(v0: RecvSide, v: RecvSide, slot: Slot, room: nat, written: seq<byte>, consumed: nat)
    requires |written| <= room && Midway(v0, v, written, consumed)
    ensures match Examine(v, slot, room, written, consumed)
            case Done(r) => ReadMeaning(v0, Declared(v, [slot]), r)
            case More(w, bytes) => Midway(v0, w, bytes, consumed + 1) && w.rx.len == Declared(v, [slot])
  {
    if Judge(v.rx, slot).Accept? {
      TakenMeaning(v, slot);
      BytesTaken(v0, v, written, Judge(v.rx, slot).frame);
    }
  }

  lemma BytesTaken(v0: RecvSide, v: RecvSide, written: seq<byte>, f: Frame)
    requires Payload(v.current) == Payload(v0.current) + written
    ensures Payload(v.current) + f.payload == Payload(v0.current) + (written + f.payload)
  {
  }

  lemma {:induction false} ReadLoopMeaning(v0: RecvSide, v: RecvSide, slots: seq<Slot>, room: nat, written: seq<byte>, consumed: nat, declared: u64)
    requires |written| <= room && Midway(v0, v, written, consumed)
    requires slots != [] || consumed > 0 ==> Declared(v, slots) == declared
    ensures ReadMeaning(v0, declared, ReadLoop(v, slots, room, written, consumed))
    decreases |slots|
  {
    if slots != [] {
      ExamineMeaning(v0, v, slots[0], room, written, consumed);
      var l := Examine(v, slots[0], room, written, consumed);
      if l.More? {
        ReadLoopMeaning(v0, l.side, slots[1..], room, l.written, consumed + 1, declared);
      }
    }
  }

  /** Validate before consume: any error but -ECONNRESET releases nothing, and
      -ECONNRESET releases exactly the ABORT slot; written bytes extend the message
      under way; a completed message has exactly its declared length. */
  lemma TryReadMeaning(v: RecvSide, slots: seq<Slot>, room: nat)
    requires SideInv(v)
    ensures ReadMeaning(v, Declared(v, slots), TryRead(v, slots, room))
  {
    ReadLoopMeaning(v, v, slots, room, [], 0, Declared(v, slots));
  }

  /** A buffer of one fragment always makes progress: with a slot visible the call
      consumes it or the receiver fails, and -EMSGSIZE is impossible. */
  lemma FullBufferProgress(v: RecvSide, slots: seq<Slot>, room: nat)
    requires v.rx.state != Failed && room >= FRAGMENT_CAPACITY
    ensures var r := TryRead(v, slots, room);
            && r.err != -EMSGSIZE
            && (slots != [] ==> r.taken > 0 || r.side.rx.state == Failed)
  {
    if slots != [] {
      FullBufferLook(v, slots[0], room);
      var l := Examine(v, slots[0], room, [], 0);
      if l.More? {
        ReadLoopBound(l.side, slots[1..], room, l.written, 1);
      }
    }
  }

  lemma FullBufferLook(v: RecvSide, slot: Slot, room: nat)
    requires v.rx.state != Failed && room >= FRAGMENT_CAPACITY
    ensures var l := Examine(v, slot, room, [], 0);
            l.Done? ==> l.read.err != -EMSGSIZE && (l.read.taken > 0 || l.read.side.rx.state == Failed)
  {
    if Decode(slot).Good? {
      EncodeAfterDecode(slot);
    }
  }

  // ----- When a read can finish

  /** Consuming `slots` after `seen` is accepted all along and ends a message. */
  ghost predicate Finishes(seen: seq<Slot>, slots: seq<Slot>) {
    forall n :: Inside(ReplayPart, n) ==> Ends(seen, slots)
  }

  ghost predicate Ends(seen: seq<Slot>, slots: seq<Slot>) {
    && Replay(seen).At? && Replay(seen + slots).At?
    && |Replay(seen).side.log| < |Replay(seen + slots).side.log|
  }

  /** A reader that has taken some of the slots ahead and not ended a message has a
      slot that it accepts before it. */
  lemma UnfinishedGoesOn(seen: seq<Slot>, slots: seq<Slot>, taken: seq<Slot>)
    requires Ends(seen, slots) && (taken <= slots || slots <= taken)
    requires Replay(seen + taken).At? && Replay(seen + taken).side.log == Replay(seen).side.log
    ensures |taken| < |slots| && Judge(Replay(seen + taken).side.rx, slots[|taken|]).Accept?
  {
    var all, some := seen + slots, seen + taken;
    if slots <= taken {
      assert some[..|all|] == all;
      ReplayPrefix(some, |all|);
    } else {
      assert all[..|some|] == some && all[|some|] == slots[|taken|];
      ReplayAccepts(all, |some|);
    }
  }

  /** The slot opens, or continues, a message of this length. */
  ghost predicate Announces(v: RecvSide, slot: Slot, declared: u64) {
    forall n :: Inside(HeadPart, n) ==> Declared(v, [slot]) == declared
  }

  /** A slot that the receiver refuses with this error. */
  ghost predicate Refuses(rx: Rx, slot: Slot, err: int) {
    forall n :: Inside(HeadPart, n) ==> Judge(rx, slot) == Reject(err)
  }

  /** While slots that end a message lie ahead, a reader that has not ended one stands
      neither before a slot it refuses nor before an empty ring. */
  lemma NotStopped(seen: seq<Slot>, u: RecvSide, whole: seq<Slot>, n: nat, v: RecvSide, err: int)
    requires n <= |whole| && Stands(seen, u) && Stands(seen + whole[..n], v) && u.log == v.log
    requires n == |whole| || Refuses(v.rx, whole[n], err)
    ensures forall ahead :: ahead <= whole ==> !Finishes(seen, ahead)
  {
    forall ahead | ahead <= whole
      ensures !Finishes(seen, ahead)
    {
      if Finishes(seen, ahead) {
        assert Inside(ReplayPart, 0);
        UnfinishedGoesOn(seen, ahead, whole[..n]);
        assert Inside(HeadPart, 0);
      }
    }
  }

  lemma StandsOnce(seen: seq<Slot>, u: RecvSide, v: RecvSide)
    requires Stands(seen, u) && Stands(seen, v)
    ensures u == v
  {
    StandsMeans(seen, u);
    StandsMeans(seen, v);
  }

  lemma SameStand(seen: seq<Slot>, u: RecvSide, now: seq<Slot>, v: RecvSide, pushed: seq<Slot>, base: nat)
    requires Window(seen, pushed, base) && Window(now, pushed, base) && |seen| == |now|
    requires Stands(seen, u) && Stands(now, v)
    ensures u == v
  {
    WindowIsSlice(seen, pushed, base);
    WindowIsSlice(now, pushed, base);
    StandsOnce(seen, u, v);
  }

  /** The same for a reader that stands at `v` after the slots `now` of a ring. */
  lemma NothingAhead(seen: seq<Slot>, u: RecvSide, now: seq<Slot>, v: RecvSide, pushed: seq<Slot>, base: nat, err: int)
    requires Window(seen, pushed, base) && Window(now, pushed, base) && |seen| <= |now|
    requires Stands(seen, u) && Stands(now, v) && u.log == v.log
    requires base + |now| == |pushed| || Refuses(v.rx, pushed[base + |now|], err)
    ensures forall ahead :: ahead <= pushed[base + |seen|..] ==> !Finishes(seen, ahead)
  {
    WindowSplits(seen, now, pushed, base);
    NotStopped(seen, u, pushed[base + |seen|..], |now| - |seen|, v, err);
  }

  /** A try_read that fails the receiver refuses the slot at the head, with its error. */
  lemma RefusalIsAtHead(v: RecvSide, slots: seq<Slot>, room: nat)
    requires v.rx.state != Failed
    ensures var r := TryRead(v, slots, room);
            r.err != 0 && r.err != -ECONNRESET && r.err != -EMSGSIZE ==>
              slots != [] && Refuses(v.rx, slots[0], r.err)
  {
    if slots != [] {
      var l := Examine(v, slots[0], room, [], 0);
      if l.More? {
        ReadLoopBound(l.side, slots[1..], room, l.written, 1);
      }
    }
  }

  // ----- What a read tells its caller

  /** The errors that fail a receiver: what it finds in a slot, or a reader giving up. */
  predicate IsFailure(e: int) {
    e == -EPROTO || e == -EPROTONOSUPPORT || IsCancel(e)
  }

  /** A read that tells its caller how a message ended. */
  predicate Settles(ret: int) {
    ret > 0 || ret == -ECONNRESET || ret == -EOPNOTSUPP
  }

  /** How the message ended for a caller who was handed `bytes`; an empty message
      cannot be told from "no data" and has an error of its own. */
  function Ending(ret: int, bytes: seq<byte>): seq<Outcome> {
    if ret > 0 then [Whole(bytes)]
    else if ret == -ECONNRESET then [Reset]
    else if ret == -EOPNOTSUPP then [Whole([])]
    else []
  }
}
