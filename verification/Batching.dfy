/** Batching is unobservable: try_read consumes as many frames as fit and defers
    errors and aborts once it has consumed something, yet any series of calls
    shows exactly what consuming one frame at a time would show. */
module Batching {
  import opened Machine
  import opened Wire
  import opened Stream
  import opened Receiver

  datatype Event = Data(value: byte) | Completed | Aborted | Error(error: int)

  /** A receiver and everything its caller has been shown. */
  datatype Observed = Observed(side: RecvSide, trace: seq<Event>)

  function Bytes(s: seq<byte>): seq<Event> {
    seq(|s|, i requires 0 <= i < |s| => Data(s[i]))
  }

  function Closing(n: Transition): seq<Event>
    requires n.Next?
  {
    if n.complete then [Completed] else if n.aborted then [Aborted] else []
  }

  /** The reference: look at one slot, report it, move on. */
  function OneSlot(o: Observed, slot: Slot): Observed {
    if o.side.rx.state == Failed then o
    else
      match Judge(o.side.rx, slot)
      case Reject(e) => Observed(o.side.(rx := Fail(o.side.rx, e)), o.trace + [Error(e)])
      case Accept(f, n) => Observed(Taken(o.side, slot), o.trace + Bytes(f.payload) + Closing(n))
  }

  function OneByOne(o: Observed, slots: seq<Slot>): Observed
    decreases |slots|
  {
    if slots == [] then o else OneByOne(OneSlot(o, slots[0]), slots[1..])
  }

  /** What a caller sees of one call.  The repeated error of a receiver that had
      already failed is nothing new. */
  function TraceOf(r: Read): seq<Event> {
    Bytes(r.written) +
    (if r.complete then [Completed]
     else if r.err == -ECONNRESET then [Aborted]
     else if r.err != 0 then [Error(r.err)]
     else [])
  }

  function AfterRead(o: Observed, r: Read): Observed {
    if o.side.rx.state == Failed then o else Observed(r.side, o.trace + TraceOf(r))
  }

  /** A call offers a buffer and happens when some of the remaining slots are visible. */
  datatype Call = Call(room: nat, visible: nat)

  datatype Batched = Batched(seen: Observed, taken: nat)

  function Visible(slots: seq<Slot>, c: Call): seq<Slot> {
    slots[..Min(c.visible, |slots|)]
  }

  /** A series of try_read calls. */
  function Batch(o: Observed, slots: seq<Slot>, calls: seq<Call>): (b: Batched)
    ensures b.taken <= |slots|
    decreases |calls|
  {
    if calls == [] then Batched(o, 0)
    else
      var r := TryRead(o.side, Visible(slots, calls[0]), calls[0].room);
      ReadLoopBound(o.side, Visible(slots, calls[0]), calls[0].room, [], 0);
      var rest := Batch(AfterRead(o, r), slots[r.taken..], calls[1..]);
      Batched(rest.seen, r.taken + rest.taken)
  }

  lemma BatchUnfolds(o: Observed, slots: seq<Slot>, calls: seq<Call>, r: Read)
    requires calls != [] && r == TryRead(o.side, Visible(slots, calls[0]), calls[0].room) && r.taken <= |slots|
    ensures var later := Batch(AfterRead(o, r), slots[r.taken..], calls[1..]);
            Batch(o, slots, calls) == Batched(later.seen, r.taken + later.taken)
  {
  }

  lemma {:induction false} FailedSeesNothing(o: Observed, slots: seq<Slot>)
    requires o.side.rx.state == Failed
    ensures OneByOne(o, slots) == o
    decreases |slots|
  {
    if slots != [] {
      FailedSeesNothing(o, slots[1..]);
    }
  }

  lemma BytesConcat(t: seq<Event>, a: seq<byte>, b: seq<byte>)
    ensures t + Bytes(a) + Bytes(b) == t + Bytes(a + b)
  {
    assert Bytes(a + b) == Bytes(a) + Bytes(b);
  }

  /** One look at a slot, with `written` bytes already buffered on top of the trace `t`. */
  lemma LookIsOneSlot(v: RecvSide, slot: Slot, room: nat, written: seq<byte>, consumed: nat, t: seq<Event>)
    requires |written| <= room && v.rx.state != Failed
    requires consumed == 0 ==> written == [] && room >= FRAGMENT_CAPACITY
    ensures var before, after := Observed(v, t + Bytes(written)), OneSlot(Observed(v, t + Bytes(written)), slot);
            match Examine(v, slot, room, written, consumed)
            case More(w, bytes) => w.rx.state != Failed && after == Observed(w, t + Bytes(bytes))
            case Done(r) =>
              var shown := Observed(r.side, t + TraceOf(r));
              || (r.taken == consumed + 1 && after == shown)
              || (r.taken == consumed && before == shown)
              || (r.taken == consumed && after == shown && r.side.rx.state == Failed)
  {
    if Judge(v.rx, slot).Accept? {
      EncodeAfterDecode(slot);
      BytesConcat(t, written, Judge(v.rx, slot).frame.payload);
    }
  }

  /** One slot at a time, `o` with `slots` to come ends where `p` with all but the
      first `k` of them ends. */
  ghost predicate Agree(o: Observed, p: Observed, slots: seq<Slot>, k: nat) {
    k <= |slots| && forall n :: Inside(BatchPart, n) ==> OneByOne(o, slots) == OneByOne(p, slots[k..])
  }

  lemma AgreeAtOnce(o: Observed, slots: seq<Slot>)
    ensures Agree(o, o, slots, 0)
  {
    assert slots[0..] == slots;
  }

  lemma AgreeAfterOne(o: Observed, p: Observed, slots: seq<Slot>, k: nat)
    requires slots != [] && Agree(OneSlot(o, slots[0]), p, slots[1..], k)
    ensures Agree(o, p, slots, k + 1)
  {
    assert Inside(BatchPart, 0);
    DropDrop(slots, 1, k);
  }

  lemma AgreeOnFailure(o: Observed, p: Observed, slots: seq<Slot>)
    requires slots != [] && OneSlot(o, slots[0]) == p && p.side.rx.state == Failed
    ensures Agree(o, p, slots, 0)
  {
    FailedSeesNothing(p, slots[1..]);
    FailedSeesNothing(p, slots);
    assert slots[0..] == slots;
  }

  lemma AgreeInTurn(o: Observed, p: Observed, q: Observed, slots: seq<Slot>, j: nat, k: nat)
    requires Agree(o, p, slots, j) && Agree(p, q, slots[j..], k)
    ensures Agree(o, q, slots, j + k)
  {
    assert Inside(BatchPart, 0);
    DropDrop(slots, j, k);
  }

  /** A loop standing at `v` with `written` buffered returned `r`, having shown
      neither more nor less than the slots it released. */
  ghost predicate Faithful(v: RecvSide, all: seq<Slot>, written: seq<byte>, consumed: nat, t: seq<Event>, r: Read) {
    consumed <= r.taken && Agree(Observed(v, t + Bytes(written)), Observed(r.side, t + TraceOf(r)), all, r.taken - consumed)
  }

  lemma NoneIsFaithful(v: RecvSide, all: seq<Slot>, written: seq<byte>, consumed: nat, t: seq<Event>)
    ensures Faithful(v, all, written, consumed, t, Read(0, written, consumed, false, v, consumed))
  {
    assert t + Bytes(written) == t + (Bytes(written) + []);
    AgreeAtOnce(Observed(v, t + Bytes(written)), all);
  }

  lemma DoneIsFaithful(v: RecvSide, all: seq<Slot>, room: nat, written: seq<byte>, consumed: nat, t: seq<Event>)
    requires all != [] && |written| <= room && v.rx.state != Failed
    requires consumed == 0 ==> written == [] && room >= FRAGMENT_CAPACITY
    requires Examine(v, all[0], room, written, consumed).Done?
    ensures Faithful(v, all, written, consumed, t, Examine(v, all[0], room, written, consumed).read)
  {
    LookIsOneSlot(v, all[0], room, written, consumed, t);
    var r := Examine(v, all[0], room, written, consumed).read;
    var before, shown := Observed(v, t + Bytes(written)), Observed(r.side, t + TraceOf(r));
    if r.taken == consumed + 1 {
      AgreeAtOnce(shown, all[1..]);
      AgreeAfterOne(before, shown, all, 0);
    } else if before == shown {
      AgreeAtOnce(before, all);
    } else {
      AgreeOnFailure(before, shown, all);
    }
  }

  lemma MoreIsFaithful(v: RecvSide, all: seq<Slot>, room: nat, written: seq<byte>, consumed: nat, t: seq<Event>, r: Read)
    requires all != [] && |written| <= room && v.rx.state != Failed
    requires consumed == 0 ==> written == [] && room >= FRAGMENT_CAPACITY
    requires var l := Examine(v, all[0], room, written, consumed);
             l.More? && Faithful(l.side, all[1..], l.written, consumed + 1, t, r)
    ensures Faithful(v, all, written, consumed, t, r)
  {
    LookIsOneSlot(v, all[0], room, written, consumed, t);
    AgreeAfterOne(Observed(v, t + Bytes(written)), Observed(r.side, t + TraceOf(r)), all, r.taken - consumed - 1);
  }

  lemma {:induction false} LoopIsFaithful(v: RecvSide, slots: seq<Slot>, hidden: seq<Slot>, room: nat, written: seq<byte>, consumed: nat, t: seq<Event>)
    requires |written| <= room && v.rx.state != Failed
    requires consumed == 0 ==> written == [] && room >= FRAGMENT_CAPACITY
    ensures Faithful(v, slots + hidden, written, consumed, t, ReadLoop(v, slots, room, written, consumed))
    decreases |slots|
  {
    var all := slots + hidden;
    if slots == [] {
      NoneIsFaithful(v, all, written, consumed, t);
    } else {
      var rest := slots[1..];
      assert all[0] == slots[0] && all[1..] == rest + hidden;
      var l := Examine(v, slots[0], room, written, consumed);
      if l.More? {
        MoreIsAlive(v, slots[0], room, written, consumed);
        LoopIsFaithful(l.side, rest, hidden, room, l.written, consumed + 1, t);
        MoreIsFaithful(v, all, room, written, consumed, t, ReadLoop(l.side, rest, room, l.written, consumed + 1));
      } else {
        DoneIsFaithful(v, all, room, written, consumed, t);
      }
    }
  }

  lemma CallIsFaithful(o: Observed, slots: seq<Slot>, c: Call) returns (r: Read)
    requires c.room >= FRAGMENT_CAPACITY
    ensures r == TryRead(o.side, Visible(slots, c), c.room)
    ensures Agree(o, AfterRead(o, r), slots, r.taken)
  {
    var seen := Visible(slots, c);
    r := TryRead(o.side, seen, c.room);
    if o.side.rx.state == Failed {
      AgreeAtOnce(o, slots);
    } else {
      LoopIsFaithful(o.side, seen, slots[|seen|..], c.room, [], 0, o.trace);
      assert seen + slots[|seen|..] == slots;
      assert o.trace + Bytes([]) == o.trace;
    }
  }

  lemma {:induction false} CallsAreFaithful(o: Observed, slots: seq<Slot>, calls: seq<Call>)
    requires forall i :: 0 <= i < |calls| ==> calls[i].room >= FRAGMENT_CAPACITY
    ensures var b := Batch(o, slots, calls); Agree(o, b.seen, slots, b.taken)
    decreases |calls|
  {
    if calls == [] {
      AgreeAtOnce(o, slots);
    } else {
      var r := CallIsFaithful(o, slots, calls[0]);
      var next, rest := AfterRead(o, r), slots[r.taken..];
      CallsAreFaithful(next, rest, calls[1..]);
      var later := Batch(next, rest, calls[1..]);
      AgreeInTurn(o, next, later.seen, slots, r.taken, later.taken);
      BatchUnfolds(o, slots, calls, r);
    }
  }

  /** For arbitrary slot contents, any sequence of calls with buffers of at least
      one fragment, each seeing any part of what is published: continuing one slot
      at a time from where the calls got to ends exactly where consuming every slot
      one at a time from the start would, with the same trace of bytes, completions,
      aborts and errors and the same receiver state. */
  lemma BatchingIsUnobservable(o: Observed, slots: seq<Slot>, calls: seq<Call>)
    requires forall i :: 0 <= i < |calls| ==> calls[i].room >= FRAGMENT_CAPACITY
    ensures var b := Batch(o, slots, calls);
            OneByOne(o, slots) == OneByOne(b.seen, slots[b.taken..])
  {
    CallsAreFaithful(o, slots, calls);
    assert Inside(BatchPart, 0);
  }

  /** A receiver that has failed shows nothing new and releases nothing, ever, and
      answers every call with the error it failed with. */
  lemma {:induction false} FailureIsSticky(o: Observed, slots: seq<Slot>, calls: seq<Call>)
    requires o.side.rx.state == Failed
    ensures Batch(o, slots, calls) == Batched(o, 0)
    ensures forall i :: 0 <= i < |calls| ==> TryRead(o.side, Visible(slots, calls[i]), calls[i].room).err == o.side.rx.error
    decreases |calls|
  {
    if calls != [] {
      assert slots[0..] == slots;
      FailureIsSticky(o, slots, calls[1..]);
    }
  }

  lemma {:induction false} DrainsOrFails(o: Observed, slots: seq<Slot>, calls: seq<Call>)
    requires |calls| >= |slots| + (if o.side.rx.state == Failed then 0 else 1)
    requires forall i :: 0 <= i < |calls| ==> calls[i].room >= FRAGMENT_CAPACITY && calls[i].visible >= |slots|
    ensures var b := Batch(o, slots, calls); b.taken == |slots| || b.seen.side.rx.state == Failed
    decreases |calls|
  {
    if o.side.rx.state == Failed {
      FailureIsSticky(o, slots, calls);
    } else {
      var r := TryRead(o.side, slots, calls[0].room);
      assert Visible(slots, calls[0]) == slots;
      FullBufferProgress(o.side, slots, calls[0].room);
      ReadLoopBound(o.side, slots, calls[0].room, [], 0);
      if r.side.rx.state == Failed {
        FailureIsSticky(AfterRead(o, r), slots[r.taken..], calls[1..]);
      } else if slots != [] {
        DrainsOrFails(AfterRead(o, r), slots[r.taken..], calls[1..]);
      }
    }
  }

  /** Enough calls that see everything drain the ring or fail the receiver, and what
      they showed is then exactly what one slot at a time shows. */
  lemma {:induction false} DrainingShowsEverything(o: Observed, slots: seq<Slot>, calls: seq<Call>)
    requires |calls| > |slots|
    requires forall i :: 0 <= i < |calls| ==> calls[i].room >= FRAGMENT_CAPACITY && calls[i].visible >= |slots|
    ensures Batch(o, slots, calls).seen == OneByOne(o, slots)
  {
    DrainsOrFails(o, slots, calls);
    BatchingIsUnobservable(o, slots, calls);
    var b := Batch(o, slots, calls);
    if b.seen.side.rx.state == Failed {
      FailedSeesNothing(b.seen, slots[b.taken..]);
    }
  }
}
