/** The two demo programs (demo/publish.c, demo/subscribe.c) driving one channel:
    each sends a fixed list of messages and only then begins to read. */
module DemoRun {
  import opened Machine
  import opened Sender
  import RingSteps

  const REQUEST_LENGTHS := [231, 232, 233, 7424, 7484]
  const DATA_LENGTHS := [233, 7425, 7484]

  /** The slots a list of messages costs, one write each. */
  function Cost(lengths: seq<nat>): nat {
    if lengths == [] then 0 else ChunkCount(lengths[0]) + Cost(lengths[1..])
  }

  lemma DemoCosts()
    ensures Cost(REQUEST_LENGTHS) == 69
    ensures Cost(DATA_LENGTHS) == 68
  {
    assert REQUEST_LENGTHS[1..] == [232, 233, 7424, 7484] && [232, 233, 7424, 7484][1..] == [233, 7424, 7484];
    assert [233, 7424, 7484][1..] == [7424, 7484] && [7424, 7484][1..] == [7484] && [7484][1..] == [];
    assert DATA_LENGTHS[1..] == [7425, 7484] && [7425, 7484][1..] == [7484];
  }

  /** Sending: `left` slots of the send phase are still to go.  A write that fails
      ends the program; a finished send phase lets it read. */
  datatype Program = Sending(left: nat) | Reading | Exited

  /** A ring by its history: slots published and slots released. */
  datatype Lane = Lane(pushed: nat, popped: nat)

  datatype World = World(down: Lane, up: Lane, publisher: Program, subscriber: Program)

  datatype Side = Publisher | Subscriber

  datatype Action =
    | PushSlot(side: Side)              // a write publishes its next slot
    | GiveUp(side: Side, abort: bool)   // timeout, signal or fault: close with ABORT if there is room, then exit
    | PopSlot(side: Side)               // a read releases a slot
    | PushReply                         // the subscriber acknowledges while reading

  function Begin(publisherSlots: nat, subscriberSlots: nat): World {
    World(Lane(0, 0), Lane(0, 0), Phase(publisherSlots), Phase(subscriberSlots))
  }

  function Phase(left: nat): Program {
    if left == 0 then Reading else Sending(left)
  }

  function ProgramOf(w: World, s: Side): Program {
    if s == Publisher then w.publisher else w.subscriber
  }

  function TxLane(w: World, s: Side): Lane {
    if s == Publisher then w.down else w.up
  }

  function RxLane(w: World, s: Side): Lane {
    if s == Publisher then w.up else w.down
  }

  predicate HasRoom(l: Lane) {
    l.pushed < l.popped + RingSteps.CAPACITY
  }

  predicate Enabled(w: World, a: Action) {
    match a
    case PushSlot(s) => ProgramOf(w, s).Sending? && ProgramOf(w, s).left > 0 && HasRoom(TxLane(w, s))
    case GiveUp(s, abort) => ProgramOf(w, s).Sending? && (abort ==> HasRoom(TxLane(w, s)))
    case PopSlot(s) => ProgramOf(w, s).Reading? && RxLane(w, s).popped < RxLane(w, s).pushed
    case PushReply => w.subscriber.Reading? && HasRoom(w.up)
  }

  function WithTx(w: World, s: Side, l: Lane, p: Program): World {
    if s == Publisher then w.(down := l, publisher := p) else w.(up := l, subscriber := p)
  }

  function Pushed(l: Lane): Lane {
    l.(pushed := l.pushed + 1)
  }

  function Step(w: World, a: Action): World
    requires Enabled(w, a)
  {
    match a
    case PushSlot(s) => WithTx(w, s, Pushed(TxLane(w, s)), Phase(ProgramOf(w, s).left - 1))
    case GiveUp(s, abort) => WithTx(w, s, if abort then Pushed(TxLane(w, s)) else TxLane(w, s), Exited)
    case PopSlot(s) =>
      if s == Publisher then w.(up := w.up.(popped := w.up.popped + 1))
      else w.(down := w.down.(popped := w.down.popped + 1))
    case PushReply => w.(up := Pushed(w.up))
  }

  ghost predicate Possible(w: World, run: seq<Action>)
    decreases |run|
  {
    run != [] ==> Enabled(w, run[0]) && Possible(Step(w, run[0]), run[1..])
  }

  ghost function Final(w: World, run: seq<Action>): World
    requires Possible(w, run)
    decreases |run|
  {
    if run == [] then w else Final(Step(w, run[0]), run[1..])
  }

  /** Nobody has read anything, and a program still sending has its whole cost split
      between the slots in its ring and the slots to go. */
  ghost predicate Stuck(w: World, publisherSlots: nat, subscriberSlots: nat) {
    && w.down.popped == 0 && w.up.popped == 0
    && w.down.pushed <= RingSteps.CAPACITY && w.up.pushed <= RingSteps.CAPACITY
    && (w.publisher.Exited? || (w.publisher.Sending? && w.publisher.left + w.down.pushed == publisherSlots))
    && (w.subscriber.Exited? || (w.subscriber.Sending? && w.subscriber.left + w.up.pushed == subscriberSlots))
  }

  lemma {:induction false} StuckForever(w: World, run: seq<Action>, publisherSlots: nat, subscriberSlots: nat)
    requires publisherSlots > RingSteps.CAPACITY && subscriberSlots > RingSteps.CAPACITY
    requires Stuck(w, publisherSlots, subscriberSlots) && Possible(w, run)
    ensures Stuck(Final(w, run), publisherSlots, subscriberSlots)
    decreases |run|
  {
    if run != [] {
      StuckForever(Step(w, run[0]), run[1..], publisherSlots, subscriberSlots);
    }
  }

  /** In every run of the two demo programs both ring heads stay at 0 and neither
      send phase ever finishes: their 69 and 68 slots do not fit in 32, and each
      side waits for the other to read first. */
  lemma NeitherDemoFinishesSending(run: seq<Action>)
    requires Possible(Begin(Cost(REQUEST_LENGTHS), Cost(DATA_LENGTHS)), run)
    ensures var w := Final(Begin(Cost(REQUEST_LENGTHS), Cost(DATA_LENGTHS)), run);
            w.down.popped == 0 == w.up.popped && !w.publisher.Reading? && !w.subscriber.Reading?
  {
    DemoCosts();
    StuckForever(Begin(69, 68), run, 69, 68);
  }

  // ----- When a send phase can finish

  lemma {:induction false} RunsInTurn(w: World, first: seq<Action>, second: seq<Action>)
    requires Possible(w, first) && Possible(Final(w, first), second)
    ensures Possible(w, first + second) && Final(w, first + second) == Final(Final(w, first), second)
    decreases |first|
  {
    if first == [] {
      assert first + second == second;
    } else {
      RunsInTurn(Step(w, first[0]), first[1..], second);
      assert (first + second)[1..] == first[1..] + second;
    }
  }

  lemma OneMore(w: World, a: Action, rest: seq<Action>)
    requires Enabled(w, a) && Possible(Step(w, a), rest)
    ensures Possible(w, [a] + rest) && Final(w, [a] + rest) == Final(Step(w, a), rest)
  {
    assert ([a] + rest)[1..] == rest;
  }

  function Other(s: Side): Side {
    if s == Publisher then Subscriber else Publisher
  }

  /** With room for all of it, a send phase finishes by itself. */
  lemma {:induction false} PushAll(w: World, s: Side, left: nat) returns (run: seq<Action>)
    requires ProgramOf(w, s) == Phase(left) && TxLane(w, s).pushed + left <= TxLane(w, s).popped + RingSteps.CAPACITY
    ensures Possible(w, run) && ProgramOf(Final(w, run), s).Reading?
    ensures ProgramOf(Final(w, run), Other(s)) == ProgramOf(w, Other(s)) && RxLane(Final(w, run), s) == RxLane(w, s)
    decreases left
  {
    run := [];
    if left > 0 {
      var rest := PushAll(Step(w, PushSlot(s)), s, left - 1);
      OneMore(w, PushSlot(s), rest);
      run := [PushSlot(s)] + rest;
    }
  }

  /** Against a peer that reads, a send phase of any length finishes. */
  lemma {:induction false} DrainAll(w: World, s: Side, left: nat) returns (run: seq<Action>)
    requires ProgramOf(w, s) == Phase(left) && ProgramOf(w, Other(s)).Reading?
    requires TxLane(w, s).popped <= TxLane(w, s).pushed <= TxLane(w, s).popped + RingSteps.CAPACITY
    ensures Possible(w, run) && ProgramOf(Final(w, run), s).Reading?
    decreases left, TxLane(w, s).pushed - TxLane(w, s).popped
  {
    run := [];
    if left > 0 {
      var next := if HasRoom(TxLane(w, s)) then PushSlot(s) else PopSlot(Other(s));
      var rest := DrainAll(Step(w, next), s, if HasRoom(TxLane(w, s)) then left - 1 else left);
      OneMore(w, next, rest);
      run := [next] + rest;
    }
  }

  function SlotsOf(s: Side, publisherSlots: nat, subscriberSlots: nat): nat {
    if s == Publisher then publisherSlots else subscriberSlots
  }

  lemma FittingPhaseFreesBoth(publisherSlots: nat, subscriberSlots: nat, fits: Side, s: Side) returns (run: seq<Action>)
    requires SlotsOf(fits, publisherSlots, subscriberSlots) <= RingSteps.CAPACITY
    ensures var w := Begin(publisherSlots, subscriberSlots);
            Possible(w, run) && ProgramOf(Final(w, run), s).Reading?
  {
    var w := Begin(publisherSlots, subscriberSlots);
    run := PushAll(w, fits, SlotsOf(fits, publisherSlots, subscriberSlots));
    if s != fits {
      var drained := DrainAll(Final(w, run), s, SlotsOf(s, publisherSlots, subscriberSlots));
      RunsInTurn(w, run, drained);
      run := run + drained;
    }
  }

  /** Of two programs that send before they read, either can finish sending if and
      only if one of the two send phases fits in a ring: its owner then reads, and a
      peer that reads lets any number of slots through. */
  lemma SendPhaseFitsIff(publisherSlots: nat, subscriberSlots: nat, s: Side)
    ensures (exists run :: Possible(Begin(publisherSlots, subscriberSlots), run)
                           && ProgramOf(Final(Begin(publisherSlots, subscriberSlots), run), s).Reading?)
            <==> publisherSlots <= RingSteps.CAPACITY || subscriberSlots <= RingSteps.CAPACITY
  {
    var w := Begin(publisherSlots, subscriberSlots);
    if publisherSlots <= RingSteps.CAPACITY {
      var run := FittingPhaseFreesBoth(publisherSlots, subscriberSlots, Publisher, s);
    } else if subscriberSlots <= RingSteps.CAPACITY {
      var run := FittingPhaseFreesBoth(publisherSlots, subscriberSlots, Subscriber, s);
    } else {
      forall run | Possible(w, run)
        ensures !ProgramOf(Final(w, run), s).Reading?
      {
        StuckForever(w, run, publisherSlots, subscriberSlots);
      }
    }
  }

  /** The subscriber's send phase goes through against a peer that drains while it
      sends: one with nothing to send before it reads. */
  lemma DrainingPeerFreesSubscriber() returns (run: seq<Action>)
    ensures Possible(Begin(0, Cost(DATA_LENGTHS)), run)
    ensures Final(Begin(0, Cost(DATA_LENGTHS)), run).subscriber.Reading?
  {
    run := DrainAll(Begin(0, Cost(DATA_LENGTHS)), Subscriber, Cost(DATA_LENGTHS));
  }
}
