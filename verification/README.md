# A verified model of the AxVisor inter-VM channel

Two virtual machines share a region of memory that holds two rings, one per
direction. A kernel module on each side turns `write` and `read` on a device node
into messages of the "AxVisor IV Message V1" protocol: a message is cut into frames
of at most 232 payload bytes, each frame fills one 256-byte slot, and a ring holds 32
slots. This project models that data path from the ring's shared words up to the
`read`/`write` adapters, the set-up of the shared region, the life cycle of the
device nodes, and the two demo programs that drive a channel.

How the pieces fit together:

| file | what it holds |
|---|---|
| `Machine.dfy` | fixed-width integers, errno numbers, sequence facts |
| `Wire.dfy` | the frame codec: shape rules, slot images, the in-place encoder |
| `RingSteps.dfy` | the ring as two interleaved programs of atomic steps, refined to a queue |
| `Ring.dfy` | the ring calls as one side runs them, with the peer acting in between |
| `Stream.dfy` | the grammar of a frame stream: open, whole, reset, history |
| `Sender.dfy` | the sending state machine and its calls |
| `Receiver.dfy`, `MessageReceiver.dfy` | the receiving state machine and its calls |
| `Batching.dfy` | batched reads against reading one slot at a time |
| `Delivery.dfy` | a sender's stream run through the receiving machine |
| `Session.dfy` | one direction of a session, every interleaving of both sides' atomic steps |
| `Endpoint.dfy` | the `read`/`write` adapters as one side runs them, against an arbitrary peer |
| `Adapters.dfy`, `Channel.dfy` | write calls and read calls as step programs over one session, and end-to-end delivery through both |
| `Answers.dfy`, `Progress.dfy` | why each call answers what it does, and that messages that fit get through |
| `Region.dfy` | publication of the region, store by store against load by load |
| `DeviceTable.dfy` | publish, open, release and unpublish as locked sections |
| `AppProto.dfy`, `DemoRun.dfy` | the demo payload codec and the demo programs' send phases |

Modelling choices:

- A step of a shared-memory machine is one load of a shared word, one copied byte or
  one store, and steps are sequentially consistent. Ring counters are 32-bit words
  that wrap; unbounded history counters stand beside them as ghosts.
- A ring is used by two parties, so a ring call of one side lets the other side act
  between its two counter loads: a producer's call may see any number of slots
  released, a consumer's call any slots published, with any bytes.
- The clock, signals, mutex interruption and user-copy faults are free choices of a
  `Kernel` object, which counts the faults and signals there were. The clock never
  runs backwards and a sleep that is not interrupted
  lasts at least as long as asked; that is what termination of the adapters rests on.
- Ghost history: the sender keeps its closed messages and the frames of the open one,
  the receiver keeps the slots it released and the log of how messages ended, an
  endpoint keeps what its reads reported, how far the peer was notified, when a slot
  last moved and how often a write met a full ring. Nothing
  a call does depends on it.
- `Session` composes the ring steps, the sender and the receiver in one machine, so
  its theorems speak of every interleaving. `Adapters` runs the write call and the
  read call on top of it, statement by statement: each of their steps is one step of
  the session or none, and timeouts, signals, copy faults and buffer sizes are free
  choices. `Channel` proves delivery there, in terms of what the calls returned.
  `Endpoint` states what one call does on its own, with notifications, the caller's
  buffer as an array, and termination.
- A session is one initialisation of ring, sender and receiver; it starts from the
  ring state that publication of the region leaves behind.
- An error branch that can be proved dead (an encoder error inside the sender, a
  `try_write` error inside the write adapter) is an assertion that the error is 0.
- `Machine.Inside` is always true; an invariant stated below it is unfolded only by
  the proofs that mention it.

## Model

| member | source | states |
|---|---|---|
| `Wire.DecodeAfterEncode` | ivc/message.c:455-533 | decoding the slot of any encodable frame gives back id, length, the three flags and every payload byte |
| `Wire.EncodeAfterDecode` | ivc/message.c:488-533 | any slot that decodes, whatever bytes a peer left in it, decodes to an encodable frame whose slot repeats it byte for byte up to the padding, which is zero |
| `Wire.EncodableIffDecodable` | ivc/message.c:433-533 | encode accepts exactly the frames that some slot decodes to |
| `Wire.DecodeAnswers` | ivc/message.c:488-533 | for every slot: -EPROTONOSUPPORT exactly when the version byte is not 1, a frame exactly when the slot begins with that frame's image, -EPROTO for every other slot |
| `Wire.DecodeIgnoresPadding` | ivc/message.c:504-532 | a slot that agrees with a frame's image on header and fragment decodes to that frame, whatever the padding |
| `Wire.SlotOfInjective` | ivc/message.c:455-486 | two encodable frames with the same slot are the same frame |
| `Wire.Le64Inverse` | ivc/message.c:397-427 | reading and writing little-endian 64-bit words are inverse in both directions |
| `Wire.EncodeFrame` | ivc/message.c:455-486 | the in-place encoder returns the error of the shape rules and leaves the slot alone, or leaves exactly the frame's slot image |
| `RingSteps.CounterTruth` | ivc/ring.c:30-58 | in every reachable state the wrapped difference of the 32-bit words is the true number of slots in flight, at most 32, and the words are equal exactly when there is none |
| `RingSteps.CopiesAreDisjoint` | ivc/ring.c:30-58 | while the producer copies a slot byte by byte, no byte lands in a slot that is published and unreleased, in particular not in the one the consumer is copying |
| `RingSteps.StepKeepsInv` | ivc/ring.c:17-65 | every atomic step of push, peek and pop, taken on a stale view of the other side, keeps the ring invariant |
| `RingSteps.StepRefinesFifo` | ivc/ring.c:30-65 | the answer of every ring call is what an atomic queue of 32 slots would answer in the state where the step happens: full, empty, oldest slot |
| `RingSteps.RunRefinesFifo` | ivc/ring.c:30-65 | the answers along any interleaving from any good state form a history of the queue |
| `RingSteps.RingRefinesFifo` | ivc/ring.c:17-65 | every run from a freshly initialised ring, however often the counters wrap, is a history of a queue of at most 32 slots |
| `Ring.SharedRing.Initialize` | ivc/ring.c:17-28 | whatever the ring held, it is empty afterwards, with direction, capacity, slot size and zeroed slots |
| `Ring.SharedRing.TryPushSlot` | ivc/ring.c:30-44 | appends exactly the slot, or changes nothing published and then the ring holds 32 slots |
| `Ring.SharedRing.TryPeekSlot` | ivc/ring.c:46-58 | returns the oldest unreleased slot, or there is none |
| `Ring.SharedRing.PopSlot` | ivc/ring.c:60-65 | releases exactly the oldest slot |
| `Sender.FragmentKeepsInv` | ivc/message.c:92-121 | publishing one fragment keeps the stream grammar and adds exactly its frame |
| `Sender.AbortKeepsInv` | ivc/message.c:141-150 | publishing ABORT closes the open prefix and can always be encoded |
| `Sender.ChunksKeepInv` | ivc/message.c:70-126 | a try_write that gets any number of slots accepted keeps the grammar and adds that many frames |
| `Sender.ChunksCarry` | ivc/message.c:70-126 | for any chunking, the published fragments carry exactly the consumed input after what was sent before, and closing the message closes it with exactly those bytes |
| `Sender.SenderGrammar` | ivc/message.c:44-151 | for every sequence of start, try_write and try_abort calls against any ring fullness: closed messages with strictly increasing nonzero ids and exact declared lengths, at most one open prefix, present exactly while a send is active and has published, every frame encodable, none taken back |
| `Sender.ExhaustionIsForever` | ivc/message.c:50-60 | once id 2^64 - 1 is handed out no sequence of calls revives the id space and every start fails |
| `Sender.IdsCountStarts` | ivc/message.c:44-68 | over every sequence of calls on a new sender: the n-th successful start hands out id n; a sender that is not sending answers the next start with 0 and id n + 1, or with -EOVERFLOW exactly when 2^64 - 1 ids are out; one that is sending answers -EBUSY |
| `Sender.MessageSender.constructor` | ivc/message.c:32-42 | a new sender has published nothing and stands in step with its ring |
| `Sender.MessageSender.Start` | ivc/message.c:44-68 | -EBUSY while sending, -EOVERFLOW on a zero next id, both with every field as it was; otherwise the next id becomes the active one, nothing sent yet, and the next id goes up by one, or to 0 after 2^64 - 1 |
| `Sender.MessageSender.TryWrite` | ivc/message.c:70-126 | the errors, the consumed and published counts and the complete flag fit one another, the history is that of the chunks pushed, and stopping short means the ring was full |
| `Sender.MessageSender.PublishEmptyMessage` | ivc/message.c:225-241 | closes an empty message with one FIRST and LAST frame, or the ring was full and nothing changed |
| `Sender.MessageSender.TryAbort` | ivc/message.c:128-151 | cancels silently if nothing was published, otherwise closes with one ABORT slot or answers -EAGAIN on a full ring with nothing changed |
| `Receiver.TakenKeepsInv` | ivc/message.c:339-395 | accepting any slot keeps: receiving implies a nonzero id, 0 < received <= length and the frames consumed so far form one message prefix |
| `Receiver.AcceptsExactly` | ivc/message.c:339-395 | a receiver in good order accepts exactly the slots whose frame continues the frames under way to a run of one message within its declared length, or to an exact message, or cancels a message under way; it refuses any other with -EPROTO, or -EPROTONOSUPPORT for another version |
| `Receiver.ReplayInv` | ivc/message.c:243-395 | so in every state reachable on any slots |
| `Receiver.CompleteMeansWhole` | ivc/message.c:243-395 | whatever a peer writes, a completed message is the payload of the last consecutively consumed slots, with one nonzero id, one declared length, FIRST only on the first and LAST only on the last, totalling exactly that length |
| `Receiver.ReplayPrefix` | ivc/message.c:313-327 | consuming more slots only adds to the log of finished messages |
| `Receiver.ReadLoopBound` | ivc/message.c:257-328 | a call never writes more than the buffer holds, never releases more than it saw, and cannot fail once it consumed a slot |
| `Receiver.ErrorsAnswerNothing` | ivc/message.c:250-320 | on every error exit the caller is told 0 written, 0 consumed, not complete |
| `Receiver.ReadLoopExtends` | ivc/message.c:257-269 | slots that appear while a call is under way are treated as if they had been there from its start |
| `Receiver.TryReadMeaning` | ivc/message.c:243-329 | validate before consume: an error other than -ECONNRESET releases nothing, -ECONNRESET releases one slot and returns to idle, written bytes extend the message under way, a completed message has its declared length |
| `Receiver.FullBufferProgress` | ivc/message.c:298-311 | with room for a fragment and a slot visible, a call consumes something or fails the receiver, and -EMSGSIZE is impossible |
| `Receiver.TryReadIsGreedy` | ivc/message.c:257-328 | without an error or the end of a message a call stops only before a slot that is refused, aborts, or does not fit |
| `Receiver.UnfinishedGoesOn` | ivc/message.c:264-327 | a reader that has taken some of the slots ahead without ending the message they hold has a slot before it that it accepts |
| `Reception.MessageReceiver.constructor` | ivc/message.c:153-162 | a new receiver is idle with an empty log |
| `Reception.MessageReceiver.Poison` | ivc/message.c:164-169 | the receiver is failed with this error and everything consumed stays as it was |
| `Reception.MessageReceiver.PeekMeta` | ivc/message.c:171-201 | releases nothing; reports the message under way or the one declared at the head, or fails the receiver with the error it returns |
| `Reception.MessageReceiver.TryRead` | ivc/message.c:203-329 | with a peer publishing meanwhile, the result, the buffer, the receiver and the slots released are those of the reference call on the slots it got to see; the loop ends on the room left in the buffer |
| `Batching.BatchingIsUnobservable` | ivc/message.c:257-328 | for arbitrary slots and any calls with buffers of at least 232 bytes, continuing one slot at a time from where the calls got to gives the same trace of bytes, completions, aborts and errors, and the same receiver, as one slot at a time from the start |
| `Batching.DrainingShowsEverything` | ivc/message.c:257-328 | enough calls that see every slot show exactly what one slot at a time shows, deferred errors and aborts included |
| `Batching.DrainsOrFails` | ivc/message.c:264-311 | such calls release every slot or end with the receiver failed |
| `Batching.FailureIsSticky` | ivc/message.c:254-255 | after a failure every later call returns the same error, shows nothing and releases nothing |
| `Delivery.HistoryRuns` | ivc/message.c:339-395 | the receiver accepts every closed message of a sender's history and logs exactly their outcomes |
| `Delivery.StreamIsUnderstood` | ivc/message.c:243-395 | after everything a sender published the receiver has accepted every slot, logged the sender's outcomes, and agrees with it on id, length and byte count of the open message |
| `Delivery.DeliveredIsPrefix` | ivc/message.c:243-395 | after any part of it the log is a byte-exact prefix of the sender's and the next slot is accepted |
| `Session.StepKeepsInv` | ivc/message.c:70-329 | every atomic step of either side, every cancellation, poisoning and returning read keeps the session invariant that ties ring, sender and receiver together |
| `Session.EndToEndDelivery` | ivc/message.c:70-329 | over every run of a session, whatever the callers of the message layer do, the finished messages and resets handed up, built from the bytes copied out of peeked slots, are a byte-exact prefix of what the sender closed, in order; all of it for a reader that never failed, has emptied the ring and holds no finished message back |
| `Session.NeverRefused` | ivc/message.c:271-296 | in every reachable state of a session decoding and transition checks accept the slot at hand unless the receiver was poisoned before |
| `Session.GuardsNeverBlock` | ivc/message.c:101-147 | in every reachable state the sender's frames encode without error and no thread is held back by a guard on the history |
| `Endpoint.SendingCarries` | ivc/ivc.c:499-537 | after k chunks of a write the bytes gone out are the first 232 k of the user's, and after all of them the closed message is exactly the user's buffer |
| `Endpoint.WriteMeaning` | ivc/ivc.c:470-544 | success closes one message with the user's exact bytes; an error with no mark closes nothing or one reset; a broken endpoint holds an open strict prefix |
| `Endpoint.Device.constructor` | ivc/ivc.c:90-99 | a new endpoint is usable in both directions, with nothing sent, reported or left to notify |
| `Endpoint.Device.AbortSend` | ivc/ivc.c:439-468 | the active send ends cancelled or closed by ABORT, or tx_error is -EPIPE and the open prefix stays as it was, and that only with the ring full and the timeout elapsed since the call; a closing slot is followed by a notification; the retries end with the clock |
| `Endpoint.Device.Transfer` | ivc/ivc.c:498-537 | the polling loop ends, with the whole count and one slot per chunk, or after a known number of chunks with -EFAULT because of a copy fault, -ERESTARTSYS because of a signal, or -ETIMEDOUT with the ring full and the timeout elapsed since the last slot went out; every published slot is notified |
| `Endpoint.Device.SendMessage` | ivc/ivc.c:470-544 | all or marked: a positive result is the count, with ceil(count/232) slots of the user's bytes; an error leaves nothing, a prefix closed by ABORT, or a permanent tx_error; between calls tx_error 0 implies no active send, so -EBUSY never shows; a call that changed nothing leaves tx_error as it was; every error has its cause, and with ids left, no mark, no fault, no signal and no full ring the write succeeds |
| `Endpoint.Device.Pull` | ivc/ivc.c:578-592 | one try_read into a one-fragment buffer, told in terms of the message at hand: extended or finished at its declared length with as many slots released as reported, reset with exactly one slot released, or failed with none |
| `Endpoint.Device.PassOn` | ivc/ivc.c:593-610 | the fragment reaches the user after what was there, a copy fault poisons, a finished message is reported with its bytes and leaves the receiver idle |
| `Endpoint.Device.Receive` | ivc/ivc.c:572-623 | the polling loop ends; a finished message or a reset leaves the receiver idle, every other exit leaves it failed with the error returned, none mid-message; a timeout or signal only after a slot was consumed and with the ring empty, a timeout only that long after the last slot, a refusal only before a slot the receiver refuses, -EFAULT only after a copy fault; every released slot is notified |
| `Endpoint.Device.RecvMessage` | ivc/ivc.c:546-628 | a positive result is the declared length, the buffer holds that message and the receiver is idle, as after a reset; -EMSGSIZE, -EINTR and 0 consume nothing and leave receiver and buffer alone, -EMSGSIZE only when the declared length exceeds the buffer, 0 only for an empty buffer or ring; a failed receiver answers with its error and keeps its place; what is reported is exactly what was logged; and with no fault and no signal, a read with slots ahead that end a message ends it, unless the buffer is too small |
| `Channel.StepKeepsInv` | ivc/ivc.c:439-628 | every step of a write call or a read call, with any fault, timeout, signal or buffer size, is a step the session allows or leaves it alone, and keeps the invariant that ties both calls to the session |
| `Channel.RunRefinesSession` | ivc/ivc.c:439-628 | every interleaving of write calls and read calls is, without its stutters, a run of the session |
| `Channel.NeverBlocked` | ivc/ivc.c:499-592 | in no reachable state does a guard of the session hold back what the code of either call does next: no chunk or ABORT fails to encode, no accepted slot fails to take effect |
| `Channel.EndToEndDelivery` | ivc/ivc.c:439-628 | over every interleaving of write calls and read calls: the log of read results is a byte-exact prefix of the log of closed writes, where a write that returned its count closed exactly its buffer and one that failed closed nothing or one reset; all of it once an unfailed reader has drained the ring; a read stores at most `count` bytes and a positive result is the declared length; -EMSGSIZE only for a longer message, 0 only for an empty ring or buffer; no read fails but by the reader's own timeout, signal or fault; between calls no unmarked send is active and no message is half read |
| `Channel.MarkIsForever` | ivc/ivc.c:466-491 | once tx_error is set no run of calls sends or closes anything more |
| `Channel.ChunkExtends` | ivc/ivc.c:499-524 | the chunk cut off the caller's buffer continues exactly what was published, and the last one closes exactly the buffer |
| `Channel.MetaRefusesAsJudge` | ivc/message.c:189-195 | peek_meta refuses only slots that the transition rules refuse in the idle state, with the same error |
| `Answers.ReadAnswers` | ivc/ivc.c:546-628 | in every reachable state, every answer of a read against the state that decides it: -EMSGSIZE with a longer message at the head, 0 with the ring empty, -ECONNRESET with ABORT at the head, -EFAULT on a fault, the receiver's own error once failed, the declared length otherwise |
| `Answers.WriteAnswers` | ivc/ivc.c:470-544 | in every reachable state, every answer of a write and every message given up against the state that decides it; a writer waits only on a ring that held 32 slots |
| `Progress.MessageGetsThrough` | ivc/ivc.c:470-628 | from any state at rest with ids left, for every message and every buffer it fits, a run exists in which one write returns its length, one read returns that length with its bytes, and all is at rest again |
| `Progress.SendOne` | ivc/message.c:92-121 | with room in the ring, from any state of the session, the next chunk of a write goes out |
| `Progress.StartIsAtEase` | ivc/ivc.c:90-99 | the start of a session is a state at rest |
| `Region.StepKeepsInv` | ivc/region.c:22-122 | every single store of the publisher, load of the subscriber and use of a ring keeps: layout words stored so far stay put, magic is 0 while stores are under way, and a magic load that passed was either stale or last |
| `Region.AcceptedMeansInitialised` | ivc/region.c:22-122 | whatever stale bytes the region held, a validate that accepts and loaded magic after the clearing store loaded it after the last store, with every header field and both rings' layout initialised |
| `Region.RacingValidateRetries` | ivc/region.c:85-86 | in every run a validate that loaded magic between the clear and the last store returned -EAGAIN, the answer on which a subscriber retries, and one that loaded it later did not |
| `Region.RacingLoadRetries` | ivc/region.c:85-86 | a magic load while the publisher is storing ends the validate with -EAGAIN |
| `Region.PublishedIsAccepted` | ivc/region.c:73-122 | after init has finished, a validate for the preserved publisher id and key with a large enough size returns 0 after its 16 loads |
| `Region.PublishedStaysValid` | ivc/region.c:73-122 | and none ever fails, however the rings are used between its loads |
| `Region.StaleRegionIsAccepted` | ivc/region.c:43-46 | the condition on the magic load is needed: on any region left valid by an earlier session, a validate that loaded magic just before the clear is accepted while the rings are still being reset |
| `Region.RingsStartEmpty` | ivc/ring.c:17-28 | until a ring is used, a published region has both rings' counters and every slot byte 0 |
| `Region.PublishedRingIsFresh` | ivc/region.c:49-54 | both lanes of a region just published hold a ring in the fresh state from which a session starts, and no other |
| `Region.SharedRegion.InitPublisher` | ivc/region.c:22-71 | -EINVAL or -EPROTO with the region untouched, or a region with magic 0x49564332, every layout word at its value, the identity preserved and both rings fresh |
| `Region.SharedRegion.Validate` | ivc/region.c:73-122 | -EINVAL exactly when the size is short or id or key differ; otherwise -EAGAIN exactly when magic is not 0x49564332; otherwise -EPROTO exactly when a layout word, each given as a number, is not one it can work with; otherwise 0 |
| `DeviceTable.StepKeepsInv` | ivc/ivc.c:173-263 | every locked section of publish, open, release and unpublish keeps the table invariant |
| `DeviceTable.TableIsConsistent` | ivc/ivc.c:173-263 | over all interleavings the counter is the length of the list, which holds no device twice, plus the number of registrations in flight, and at most 16; no device is active and removing, and each has at most one opener, exactly while active |
| `DeviceTable.FreedIsUnreachable` | ivc/ivc.c:201-258 | a device is freed only when it is off the list, cannot be opened any more and no file is open on it |
| `DeviceTable.ReleaseUndoesOpen` | ivc/ivc.c:650-677 | release takes the table back to where it was before the open |
| `DeviceTable.FailureUndoesRemoval` | ivc/ivc.c:240-250 | a removal that the hypervisor refuses leaves the table as it was |
| `DeviceTable.FailureUndoesReservation` | ivc/ivc.c:173-209 | a failed registration leaves the table as it was but for the next id |
| `DeviceTable.Registry.ReserveSection` | ivc/ivc.c:173-183 | -ENOSPC exactly when 16 are counted, with nothing changed; otherwise counts and numbers a device |
| `DeviceTable.Registry.OpenSection` | ivc/ivc.c:650-667 | -ENODEV while removing, -EBUSY while active, otherwise the one opener |
| `DeviceTable.Registry.ReleaseSection` | ivc/ivc.c:669-677 | gives the one opener's place back, so that the next open succeeds, and keeps the table invariant |
| `DeviceTable.Registry.BeginRemoveSection` | ivc/ivc.c:230-262 | -ENOENT exactly when no listed device has the key; otherwise the first that has it decides: -EBUSY if it is active or being removed, or it is marked |
| `DeviceTable.Registry.UnlinkSection` | ivc/ivc.c:253-256 | takes exactly this device off the list and out of the count, keeps every other in its order, and keeps the table invariant |
| `AppProto.DecodeAfterEncode` | demo/app_proto.c:52-154 | decoding an encoded payload returns the same kind, 64-bit sequence and body |
| `AppProto.EncodeAfterDecode` | demo/app_proto.c:127-154 | re-encoding any accepted payload returns the identical bytes |
| `AppProto.ValidatedIffPattern` | demo/app_proto.c:61-178 | a payload decodes and validates for a kind, sequence and length exactly when it is what encode_pattern writes for them |
| `AppProto.PatternByteSum` | demo/app_proto.c:61-68 | the three eight-bit terms give the letter of the uncut sum modulo 256 |
| `AppProto.PatternByteLaw` | demo/app_proto.c:61-68 | letters start at 'a' where the sum wraps, follow one another through the alphabet, and repeat with period 256 |
| `AppProto.WriteLe` | demo/app_proto.c:22-34 | stores the little-endian digits and touches nothing else |
| `AppProto.EncodePattern` | demo/app_proto.c:70-94 | succeeds exactly for a valid kind and a length the header can state, and then the buffer is the pattern payload; otherwise untouched |
| `AppProto.EncodeText` | demo/app_proto.c:96-125 | succeeds exactly when kind, body and capacity allow, and then the buffer starts with the payload; otherwise untouched |
| `AppProto.ValidatePattern` | demo/app_proto.c:156-178 | true exactly when kind, sequence, length and every body byte are the pattern's |
| `DemoRun.DemoCosts` | demo/app_proto.c:7-14 | the publisher's send phase costs 69 slots and the subscriber's 68 |
| `DemoRun.StuckForever` | demo/publish.c:198-201 | two programs that read only after sends of more than 32 slots each stay in their send phase or exit, with both heads at 0 |
| `DemoRun.NeitherDemoFinishesSending` | demo/subscribe.c:179-186 | in every run of the two demo programs against each other neither send phase finishes |
| `DemoRun.SendPhaseFitsIff` | ivc/ivc.c:499-537 | of two programs that send before they read, either can finish sending if and only if one of the two send phases fits in a ring |
| `DemoRun.DrainAll` | demo/subscribe.c:179-183 | against a peer that reads, a send phase of any length can finish from any state of the ring |
| `DemoRun.DrainingPeerFreesSubscriber` | demo/subscribe.c:179-183 | the subscriber's 68 slots go through against a peer that drains while it sends |

## Left out

- Weak memory: acquire and release orderings are not modelled, steps are sequentially consistent.
- A peer that rewrites published slots or moves the other side's counter, which the protocol forbids.
- Publishing or subscribing again onto a ring in use: ids and receiver state restart, so session results do not cover it.
- Channel.EndToEndDelivery: notifications and how long a call waits are not part of the step programs; `Endpoint.Device.SendMessage` and `Endpoint.Device.RecvMessage` state notification and termination call by call.
- Endpoint.Device.SendMessage: how long a call waits at most is not stated beyond termination, because a sleep may overshoot by any time, and a user buffer changed by another thread during the call is not modelled.
- Endpoint.Device.RecvMessage: after a failing copy the contents of the user buffer are unspecified, as in the kernel.
- Region.RingsStartEmpty: says nothing about a region already in use, where heads and tails move.
- The wrap of jiffies: the clock is an unbounded number of milliseconds.
- The `active` test at the head of each file operation, which an open file always passes.
- Failed hypercalls other than in unpublish, memory mapping, allocation, device naming and logging: only success or failure of the sections they guard.
- The wait for a region to become valid in `ivc_subscribe_channel`, a retry loop around validate.
- The subscriber's table functions, which are the publisher's with a pair for the key; the table is generic in the key.
- Null-pointer checks in the demo codec, which have no counterpart on values, and the accepted acknowledgement texts.
- Demo printing, polling counts and the order of replies in the demos' receive phases.
- `ivc/main.c` and module teardown, `ivc/hvc.c`, the userspace library, the Python binding, the UIO driver and the command-line tool: wrappers and glue that would add only easy members.
