/** The receiving calls of ivc/message.c, run against a ring whose producer keeps
    publishing whatever it likes while a call is under way. */
module Reception {
  import opened Machine
  import opened Wire
  import opened Stream
  import opened Receiver
  import opened Ring

  class MessageReceiver {
    const ring: SharedRing
    var rx: Rx
    /** History since receiver_init: the slots released, the reference machine
        after them, and where in the ring's history they begin. */
    ghost var seen: seq<Slot>
    ghost var side: RecvSide
    ghost const base: nat

    /** The reference machine with the live state, which differs once failed. */
    ghost function View(): RecvSide
      reads this
    {
      side.(rx := rx)
    }

    /** The reference machine has consumed exactly the slots released since the start. */
    ghost predicate Valid()
      reads this, ring, ring.slots
    {
      && ring.Valid()
      && ring.popped == base + |seen|
      && Window(seen, ring.pushed, base)
      && Stands(seen, side) && side.rx.state != Failed
      && (if rx.state == Failed then rx.error != 0 else rx == side.rx)
    }

    constructor (ring: SharedRing)
      requires ring.Valid()
      ensures Valid() && this.ring == ring && side == INITIAL_RECV && View() == INITIAL_RECV && base == ring.popped
    {
      this.ring := ring;
      rx := INITIAL_RECV.rx;
      side, seen := INITIAL_RECV, [];
      base := ring.popped;
    }

    method Poison(error: int)
      requires Valid() && error != 0
      modifies this`rx
      ensures Valid() && View() == old(side).(rx := Fail(old(rx), error))
    {
      rx := Fail(rx, error);
    }

    /** Publishing never disturbs what has been consumed. */
    twostate lemma StillValid()
      requires old(Valid()) && unchanged(this) && ring.Valid()
      requires ring.popped == old(ring.popped) && old(ring.pushed) <= ring.pushed
      ensures Valid()
    {
      WindowGrows(seen, old(ring.pushed), ring.pushed, base);
    }

    method PeekMeta() returns (err: int, available: bool, metaId: u64, metaLen: u64)
      requires Valid()
      modifies this`rx, ring`tail, ring`pushed, ring.slots
      ensures Valid() && old(ring.pushed) <= ring.pushed
      ensures err == 0 ==> rx == old(rx) && rx.state != Failed
      ensures err != 0 ==> !available
      ensures err != 0 && old(rx.state) == Failed ==> rx == old(rx) && err == rx.error
      ensures err != 0 && old(rx.state) != Failed ==> rx == Fail(old(rx), err) && (err == -EPROTO || err == -EPROTONOSUPPORT)
      ensures err != 0 && old(rx.state) == Idle ==>
                ring.popped < |ring.pushed| && Refuses(old(rx), ring.pushed[ring.popped], err)
      ensures err == 0 && !available ==> ring.popped == |ring.pushed|
      ensures available && rx.state == Receiving ==> metaId == rx.id && metaLen == rx.len
      ensures available && rx.state == Idle ==>
                && ring.popped < |ring.pushed| && Decode(ring.pushed[ring.popped]).Good?
                && metaId == Decode(ring.pushed[ring.popped]).frame.id
                && Announces(side, ring.pushed[ring.popped], metaLen)
    {
      err, available, metaId, metaLen := 0, false, 0, 0;
      if rx.state == Failed {
        return rx.error, false, 0, 0;
      }
      if rx.state == Receiving {
        return 0, true, rx.id, rx.len;
      }
      var ok, slot := Look();
      if !ok {
        return;
      }
      match Decode(slot)
      case Malformed(e) =>
        rx := Fail(rx, e);
        return e, false, 0, 0;
      case Good(f) =>
        if f.abort || !f.first {
          rx := Fail(rx, -EPROTO);
          return -EPROTO, false, 0, 0;
        }
        return 0, true, f.id, f.len;
    }

    /** Releases the slot at the head, after which the reference machine stands at `w`. */
    method Consume(n: Transition, ghost slot: Slot, ghost w: RecvSide)
      requires Valid() && rx.state != Failed && ring.popped < |ring.pushed| && slot == ring.pushed[ring.popped]
      requires n.Next? && n.state != Failed && Stands(seen + [slot], w) && w.rx == Moved(rx, n)
      modifies this`rx, this`side, this`seen, ring`head, ring`popped
      ensures Valid() && rx.state != Failed && ring.popped == old(ring.popped) + 1
      ensures side == w
    {
      WindowSnoc(seen, ring.pushed, base);
      rx := Moved(rx, n);
      side, seen := w, seen + [slot];
      ring.PopSlot();
    }

    /** Copies an accepted frame out and consumes it. */
    method TakeSlot(output: array<byte>, written: nat, slot: Slot) returns (total: nat)
      requires Valid() && rx.state != Failed && ring.popped < |ring.pushed| && slot == ring.pushed[ring.popped]
      requires Judge(rx, slot).Accept? && written + |Judge(rx, slot).frame.payload| <= output.Length
      modifies this`rx, this`side, this`seen, output, ring`head, ring`popped
      ensures Valid() && rx.state != Failed && side == Taken(old(side), slot) && ring.popped == old(ring.popped) + 1
      ensures var f := old(Judge(rx, slot)).frame;
              total == written + |f.payload| && output[..total] == old(output[..written]) + f.payload
      ensures var Accept(f, n) := old(Judge(rx, slot)); n.aborted || n.complete || f.payload != []
    {
      var Accept(f, n) := Judge(rx, slot);
      StandsNext(seen, slot, side);
      Consume(n, slot, Taken(side, slot));
      CopyIn(output, written, f.payload);
      total := written + |f.payload|;
      assert output[..total] == old(output[..written]) + f.payload;
    }

    /** The loop body of axivc_process_available_slots once a slot was peeked;
        `again` is true when the loop continues. */
    method HandleSlot(output: array<byte>, written: nat, consumedSlots: nat, slot: Slot)
      returns (again: bool, err: int, total: nat, complete: bool)
      requires Valid() && rx.state != Failed && ring.popped < |ring.pushed| && slot == ring.pushed[ring.popped]
      requires written <= output.Length
      modifies this`rx, this`side, this`seen, output, ring`head, ring`popped
      ensures Valid() && total <= output.Length
      ensures match Examine(old(side), slot, output.Length, old(output[..written]), consumedSlots)
              case More(w, bytes) =>
                && again && View() == w && rx.state != Failed
                && ring.popped == old(ring.popped) + 1 && output[..total] == bytes && written < total
              case Done(r) =>
                && !again && View() == r.side && r.err == err && r.complete == complete
                && ring.popped == old(ring.popped) + r.taken - consumedSlots
                && (err == 0 ==> output[..total] == r.written)
    {
      again, err, total, complete := false, 0, written, false;
      var verdict := Judge(rx, slot);
      if verdict.Reject? || (verdict.next.aborted && consumedSlots > 0) {
        if consumedSlots > 0 {
          return;
        }
        rx, err := Fail(rx, verdict.error), verdict.error;
        return;
      }
      var available := output.Length - written;
      if |verdict.frame.payload| > available {
        err := if consumedSlots == 0 then -EMSGSIZE else 0;
        return;
      }
      total := TakeSlot(output, written, slot);
      if verdict.next.aborted {
        err := -ECONNRESET;
        return;
      }
      complete := verdict.next.complete;
      again := !complete;
    }

    /** One peek at the head, with the producer free to publish first. */
    method Look() returns (ok: bool, slot: Slot)
      requires Valid()
      modifies ring`tail, ring`pushed, ring.slots
      ensures Valid() && old(ring.pushed) <= ring.pushed
      ensures ok ==> ring.popped < |ring.pushed| && slot == ring.pushed[ring.popped]
      ensures !ok ==> ring.popped == |ring.pushed|
    {
      ok, slot := ring.TryPeekSlot();
      StillValid();
    }

    /** One turn of the loop: peek, then handle.  `v` is where the call began, and
        `got` grows to `more` by the slot looked at, if there was one. */
    method Turn(output: array<byte>, written: nat, consumedSlots: nat, ghost v: RecvSide, ghost got: seq<Slot>)
      returns (again: bool, err: int, total: nat, slots: nat, complete: bool, ghost more: seq<Slot>, ghost r: Read)
      requires Valid() && rx.state != Failed && v.rx.state != Failed && written <= output.Length
      requires Reading(v, got, output.Length, Read(0, output[..written], consumedSlots, false, side, consumedSlots))
      modifies this`rx, this`side, this`seen
      modifies output, ring`head, ring`popped, ring`tail, ring`pushed, ring.slots
      ensures Valid() && old(ring.pushed) <= ring.pushed && total <= output.Length
      ensures more != got ==> old(ring.popped) < |ring.pushed| && more == got + [ring.pushed[old(ring.popped)]]
      ensures more == got ==> ring.popped == old(ring.popped) == |ring.pushed|
      ensures again ==> rx.state != Failed && written < total && ring.popped == old(ring.popped) + 1 && more != got
      ensures again ==> Reading(v, more, output.Length, Read(0, output[..total], slots, false, side, slots))
      ensures !again ==>
                && Result(v, more, output.Length, r)
                && err == r.err && View() == r.side && ring.popped == old(ring.popped) + r.taken - consumedSlots
                && complete == r.complete && (err == 0 ==> output[..total] == r.written && slots == r.consumedSlots)
    {
      again, err, total, slots, complete, more := false, 0, written, consumedSlots, false, got;
      r := Read(0, output[..written], consumedSlots, false, side, consumedSlots);
      var ok, slot := Look();
      if !ok {
        ReadingStops(v, got, output.Length, r);
        return;
      }
      ReadingNext(v, got, slot, output.Length, r);
      more := got + [slot];
      r := Receiver.TryRead(v, more, output.Length);
      again, err, total, complete := HandleSlot(output, written, consumedSlots, slot);
      if again || complete {
        slots := consumedSlots + 1;
      }
    }

    /** `got` is the slots the call got to see, beginning at the head. */
    method TryRead(output: array<byte>)
      returns (err: int, written: nat, consumedSlots: nat, complete: bool, ghost got: seq<Slot>)
      requires Valid()
      modifies this`rx, this`side, this`seen
      modifies output, ring`head, ring`popped, ring`tail, ring`pushed, ring.slots
      ensures Valid() && old(ring.pushed) <= ring.pushed
      ensures Window(got, ring.pushed, old(ring.popped))
      ensures got == [] && old(rx.state) != Failed ==> old(ring.popped) == |ring.pushed|
      ensures var r := Receiver.TryRead(old(View()), got, output.Length);
              && err == r.err && written == |r.written| && consumedSlots == r.consumedSlots && complete == r.complete
              && written <= output.Length && output[..written] == r.written
              && View() == r.side && ring.popped == old(ring.popped) + r.taken
    {
      err, written, consumedSlots, complete, got := 0, 0, 0, false, [];
      if rx.state == Failed {
        return rx.error, 0, 0, false, [];
      }
      ghost var v, r := side, Read(0, [], 0, false, side, 0);
      var again := true;
      while again
        invariant Valid() && old(ring.pushed) <= ring.pushed && written <= output.Length
        invariant Window(got, ring.pushed, old(ring.popped))
        invariant again ==> rx.state != Failed && ring.popped == old(ring.popped) + |got| && consumedSlots == |got|
        invariant again ==> Reading(v, got, output.Length, Read(0, output[..written], consumedSlots, false, side, consumedSlots))
        invariant !again ==>
                    && Result(v, got, output.Length, r) && View() == r.side && ring.popped == old(ring.popped) + r.taken
                    && err == r.err && complete == r.complete
                    && (err == 0 ==> output[..written] == r.written && consumedSlots == r.consumedSlots)
                    && (got == [] ==> ring.popped == old(ring.popped) == |ring.pushed|)
        decreases again, output.Length - written
      {
        ghost var before, more := ring.pushed, got;
        again, err, written, consumedSlots, complete, more, r := Turn(output, written, consumedSlots, v, got);
        WindowGrows(got, before, ring.pushed, old(ring.popped));
        if more != got {
          WindowSnoc(got, ring.pushed, old(ring.popped));
        }
        got := more;
      }
      ResultMeans(v, got, output.Length, r);
      if err != 0 {
        written, consumedSlots := 0, 0;
      }
    }
  }
}
