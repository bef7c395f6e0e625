/** What the receiver makes of a stream the sender can publish: it accepts every
    frame, and its log is the list of outcomes the sender closed. */
module Delivery {
  import opened Machine
  import opened Wire
  import opened Stream
  import opened Sender
  import opened Receiver

  // ----- The receiver on frames that are already decoded

  function TakeFrame(v: RecvSide, f: Frame): Replayed {
    match Validate(v.rx, f)
    case Bad(_) => Stuck
    case Next(_, _, _, _, _, _) => At(TakenFrame(v, f, Validate(v.rx, f)))
  }

  function Then(r: Replayed, f: Frame): Replayed {
    if r.At? then TakeFrame(r.side, f) else Stuck
  }

  function RunFrames(v: RecvSide, frames: seq<Frame>): Replayed {
    if frames == [] then At(v)
    else Then(RunFrames(v, frames[..|frames| - 1]), frames[|frames| - 1])
  }

  lemma RunSnoc(v: RecvSide, frames: seq<Frame>, f: Frame)
    ensures RunFrames(v, frames + [f]) == Then(RunFrames(v, frames), f)
  {
    assert (frames + [f])[..|frames|] == frames;
  }

  lemma {:induction false} RunConcat(v: RecvSide, a: seq<Frame>, b: seq<Frame>)
    requires RunFrames(v, a).At?
    ensures RunFrames(v, a + b) == RunFrames(RunFrames(v, a).side, b)
    decreases |b|
  {
    if b == [] {
      assert a + b == a;
    } else {
      var front, f := b[..|b| - 1], b[|b| - 1];
      RunConcat(v, a, front);
      assert a + b == (a + front) + [f];
      RunSnoc(v, a + front, f);
    }
  }

  /** A slot that carries a frame is judged as that frame. */
  lemma CarriedSlot(r: Replayed, f: Frame)
    requires Encodable(f)
    ensures ThenSlot(r, SlotOf(f)) == Then(r, f)
  {
    DecodeAfterEncode(f);
  }

  lemma {:induction false} SlotsRunAsFrames(slots: seq<Slot>, frames: seq<Frame>)
    requires Carries(slots, 0, frames)
    ensures Replay(slots) == RunFrames(INITIAL_RECV, frames)
    decreases |frames|
  {
    if frames != [] {
      var n := |frames| - 1;
      SlotsRunAsFrames(slots[..n], frames[..n]);
      CarriedSlot(Replay(slots[..n]), frames[n]);
    }
  }

  // ----- Open, closed and complete histories are accepted

  predicate AtRest(v: RecvSide) {
    v.rx.state == Idle && v.current == []
  }

  /** Where the receiver stands after the frames of a message still open. */
  function Under(v: RecvSide, frames: seq<Frame>, id: u64, len: u64): RecvSide
    requires |Payload(frames)| <= len
  {
    if frames == [] then v
    else RecvSide(Rx(Receiving, id, len, |Payload(frames)|, v.rx.error), frames, v.log)
  }

  lemma MiddleAccepted(v: RecvSide, frames: seq<Frame>, f: Frame, id: u64, len: u64)
    requires AtRest(v) && IsMiddle(f, id, len, frames == [])
    requires |Payload(frames)| + |f.payload| <= len
    ensures |Payload(frames + [f])| <= len
    ensures TakeFrame(Under(v, frames, id, len), f) == At(Under(v, frames + [f], id, len))
  {
    PayloadSnoc(frames, f);
  }

  lemma {:induction false} OpenRuns(v: RecvSide, frames: seq<Frame>, id: u64, len: u64)
    requires AtRest(v) && |Payload(frames)| <= len
    requires forall i :: 0 <= i < |frames| ==> IsMiddle(frames[i], id, len, i == 0)
    ensures RunFrames(v, frames) == At(Under(v, frames, id, len))
    decreases |frames|
  {
    if frames != [] {
      var n := |frames| - 1;
      var front, f := frames[..n], frames[n];
      assert frames == front + [f];
      PayloadSnoc(front, f);
      OpenRuns(v, front, id, len);
      MiddleAccepted(v, front, f, id, len);
    }
  }

  lemma LastAccepted(v: RecvSide, front: seq<Frame>, f: Frame, id: u64, len: u64)
    requires AtRest(v) && f == Frame(id, len, front == [], true, false, f.payload)
    requires |Payload(front)| + |f.payload| == len
    ensures var r := TakeFrame(Under(v, front, id, len), f);
            r.At? && AtRest(r.side) && r.side.log == v.log + [Whole(Payload(front + [f]))]
  {
  }

  lemma AbortIsAccepted(v: RecvSide, front: seq<Frame>, f: Frame, id: u64, len: u64)
    requires AtRest(v) && f == Frame(id, len, false, false, true, [])
    requires front != [] && |Payload(front)| <= len
    ensures var r := TakeFrame(Under(v, front, id, len), f);
            r.At? && AtRest(r.side) && r.side.log == v.log + [Reset]
  {
  }

  lemma ClosedRuns(v: RecvSide, g: Group)
    requires AtRest(v) && IsClosed(g)
    ensures var r := RunFrames(v, g.frames);
            r.At? && AtRest(r.side) && r.side.log == v.log + [g.outcome]
  {
    var n := |g.frames| - 1;
    var front, f := g.frames[..n], g.frames[n];
    assert g.frames == front + [f];
    PayloadSnoc(front, f);
    OpenRuns(v, front, g.id, f.len);
    RunSnoc(v, front, f);
    if g.outcome.Whole? {
      LastAccepted(v, front, f, g.id, f.len);
    } else {
      AbortIsAccepted(v, front, f, g.id, f.len);
    }
  }

  lemma {:induction false} HistoryRuns(groups: seq<Group>)
    requires IsHistory(groups)
    ensures var r := RunFrames(INITIAL_RECV, Flatten(groups));
            r.At? && AtRest(r.side) && r.side.log == Outcomes(groups)
    decreases |groups|
  {
    if groups != [] {
      var n := |groups| - 1;
      var front, g := groups[..n], groups[n];
      assert groups == front + [g];
      HistoryRuns(front);
      OutcomesSnoc(front, g);
      ClosedRuns(RunFrames(INITIAL_RECV, Flatten(front)).side, g);
      RunConcat(INITIAL_RECV, Flatten(front), g.frames);
    }
  }

  /** A receiver that has consumed everything a sender published has accepted every
      slot, has logged exactly the outcomes the sender closed, and stands inside the
      message the sender has open, if any, with the same id, length and byte count. */
  lemma StreamIsUnderstood(slots: seq<Slot>, s: SendSide)
    requires Inv(s) && Carries(slots, 0, Published(s))
    ensures Replay(slots).At?
    ensures var v := Replay(slots).side;
            && v.log == Outcomes(s.groups) && v.current == s.open
            && (if s.open == [] then v.rx.state == Idle
                else v.rx.state == Receiving && v.rx.id == s.tx.id && v.rx.len == s.tx.len && v.rx.received == s.tx.sent)
  {
    SlotsRunAsFrames(slots, Published(s));
    HistoryRuns(s.groups);
    RunConcat(INITIAL_RECV, Flatten(s.groups), s.open);
    if s.open != [] {
      OpenRuns(RunFrames(INITIAL_RECV, Flatten(s.groups)).side, s.open, s.tx.id, s.tx.len);
    }
  }

  /** End to end, at any moment: a receiver that has consumed any part of what the
      sender published has a log that is a prefix, outcome by outcome and byte by
      byte, of the log of messages the sender closed, and the next slot, if there is
      one, is accepted too. */
  lemma DeliveredIsPrefix(slots: seq<Slot>, s: SendSide, k: nat)
    requires Inv(s) && Carries(slots, 0, Published(s)) && k <= |slots|
    ensures Replay(slots[..k]).At?
    ensures Replay(slots[..k]).side.log <= Outcomes(s.groups)
    ensures k == |slots| ==> Replay(slots[..k]).side.log == Outcomes(s.groups)
    ensures k < |slots| ==> Judge(Replay(slots[..k]).side.rx, slots[k]).Accept?
  {
    StreamIsUnderstood(slots, s);
    ReplayPrefix(slots, k);
    if k < |slots| {
      ReplayAccepts(slots, k);
    } else {
      assert slots[..k] == slots;
    }
  }
}
