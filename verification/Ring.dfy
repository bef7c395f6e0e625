/** The ring calls as each side's code runs them (ivc/ring.c), with the peer free
    to act between a call's load of its own counter and its load of the peer's. */
module Ring {
  import opened Machine
  import opened Wire
  import opened RingSteps

  class SharedRing {
    var direction: u32
    var capacity: u32
    var slotSize: u32
    var head: u32
    var tail: u32
    const slots: array<Slot>
    /** History: every slot published since initialisation, and how many were released. */
    ghost var pushed: seq<Slot>
    ghost var popped: nat

    /** The shared words against the history: wrapped counters, and every slot in
        flight at its index modulo the capacity. */
    ghost predicate Consistent()
      requires slots.Length == CAPACITY
      reads this, slots
    {
      && head == popped % U32_SPAN
      && tail == |pushed| % U32_SPAN
      && forall k :: popped <= k < |pushed| ==> slots[k % CAPACITY] == pushed[k]
    }

    /** What users of a ring work with is the history; Consistent() is stated so
        that only the ring's own proofs, which mention Inside(RingPart), unfold it. */
    ghost predicate Valid()
      reads this, slots
    {
      && slots.Length == CAPACITY
      && popped <= |pushed| <= popped + CAPACITY
      && forall n :: Inside(RingPart, n) ==> Consistent()
    }

    /** Maps a region that may hold anything, then resets it. */
    constructor (direction: u32)
      ensures Valid() && fresh(slots)
      ensures pushed == [] && popped == 0
      ensures this.direction == direction && capacity == CAPACITY && slotSize == SLOT_SIZE
      ensures forall i :: 0 <= i < CAPACITY ==> slots[i] == Zeros(SLOT_SIZE)
    {
      slots := new Slot[CAPACITY];
      new;
      Initialize(direction);
    }

    method Initialize(direction: u32)
      requires slots.Length == CAPACITY
      modifies this, slots
      ensures Valid()
      ensures pushed == [] && popped == 0
      ensures this.direction == direction && capacity == CAPACITY && slotSize == SLOT_SIZE
      ensures forall i :: 0 <= i < CAPACITY ==> slots[i] == Zeros(SLOT_SIZE)
    {
      this.direction := direction;
      capacity := CAPACITY;
      slotSize := SLOT_SIZE;
      head := 0;
      forall i | 0 <= i < CAPACITY {
        slots[i] := Zeros(SLOT_SIZE);
      }
      tail := 0;
      pushed, popped := [], 0;
    }

    /** The consumer in the other VM releases any number of slots. */
    method PeerReleases()
      requires Valid()
      modifies this`head, this`popped
      ensures Valid() && old(popped) <= popped
    {
      assert Inside(RingPart, 0);
      WrappedDifference(|pushed|, popped);
      var n: nat :| n <= (tail - head) % U32_SPAN;
      WrappedSum(popped, n);
      head := (head + n) % U32_SPAN;
      popped := popped + n;
    }

    /** The producer in the other VM publishes any slots it likes. */
    method PeerPublishes()
      requires Valid()
      modifies this`tail, this`pushed, slots
      ensures Valid() && old(pushed) <= pushed
    {
      var budget: nat := *;
      while budget > 0
        invariant Valid() && old(pushed) <= pushed
      {
        assert Inside(RingPart, 0);
        WrappedDifference(|pushed|, popped);
        if (tail - head) % U32_SPAN < CAPACITY {
          var slot: Slot := *;
          Append(slot);
        }
        budget := budget - 1;
      }
    }

    /** The last two steps of a push: fill the slot, publish the counter. */
    method Append(slot: Slot)
      requires Valid() && |pushed| < popped + CAPACITY
      modifies this`tail, this`pushed, slots
      ensures Valid() && pushed == old(pushed) + [slot]
    {
      assert Inside(RingPart, 0);
      WrappedIndex(|pushed|);
      WrappedSuccessor(|pushed|);
      slots[tail % CAPACITY] := slot;
      forall k | popped <= k < |pushed|
        ensures slots[k % CAPACITY] == pushed[k]
      {
        DistinctIndices(k, |pushed|);
      }
      tail := (tail + 1) % U32_SPAN;
      pushed := pushed + [slot];
    }

    method TryPushSlot(slot: Slot) returns (ok: bool)
      requires Valid()
      modifies this`head, this`popped, this`tail, this`pushed, slots
      ensures Valid() && old(popped) <= popped
      ensures ok ==> pushed == old(pushed) + [slot]
      ensures !ok ==> pushed == old(pushed) && |pushed| == popped + CAPACITY
    {
      assert Inside(RingPart, 0);
      var t := tail;
      PeerReleases();
      var h := head;
      WrappedDifference(|pushed|, popped);
      if (t - h) % U32_SPAN >= CAPACITY {
        return false;
      }
      Append(slot);
      return true;
    }

    method TryPeekSlot() returns (ok: bool, slot: Slot)
      requires Valid()
      modifies this`tail, this`pushed, slots
      ensures Valid() && old(pushed) <= pushed
      ensures ok ==> popped < |pushed| && slot == pushed[popped]
      ensures !ok ==> popped == |pushed|
    {
      assert Inside(RingPart, 0);
      var h := head;
      PeerPublishes();
      var t := tail;
      WrappedDifference(|pushed|, popped);
      if h == t {
        return false, Zeros(SLOT_SIZE);
      }
      WrappedIndex(popped);
      return true, slots[h % CAPACITY];
    }

    method PopSlot()
      requires Valid() && popped < |pushed|
      modifies this`head, this`popped
      ensures Valid() && popped == old(popped) + 1
    {
      assert Inside(RingPart, 0);
      WrappedSuccessor(popped);
      head := (head + 1) % U32_SPAN;
      popped := popped + 1;
    }
  }

  lemma WrappedSum(a: nat, n: nat)
    ensures (a % U32_SPAN + n) % U32_SPAN == (a + n) % U32_SPAN
  {
  }
}
