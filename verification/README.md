# A verified model of BLIP and its WebSocket transport

BLIP multiplexes messages over one WebSocket connection. A message is cut into frames; the frames of
many messages are interleaved, urgent ones more often; a message with too many unacknowledged bytes
waits in an icebox until an ACK comes back; the receiver reassembles properties and body from the
frames and checks a running checksum. This project models that protocol, the WebSocket framing below
it and the actor machinery it runs on, and proves what holds of every input, every interleaving and
every run.

## How it is built

Each part of the source that updates state in place is a class whose methods are proved against
functions on values; the properties are lemmas about those functions and about runs of steps made of
them.

- **Messages.** `Bytes`, `Codec`, `Messages`, `MessageOut`, `MessageIn` and `MessageBuilder` are the
  wire formats, the running checksum, the cutting of a message into frames and its reassembly.
- **One peer.** `Outbox` has the insertion rule, the bounds on waiting and the order in which requests
  begin; `Sender` and `Receiver` are the two halves of a connection as functions; `BlipIO` is the
  object itself, with its queues, maps, loops and codecs, proved equal to those functions.
- **The wire.** `Wire` says byte by byte what the frames of a peer are, how large, and what they leave
  behind, without a word of how they are made; `Messages`, `MessageIn` and `Receiver` say of any bytes
  whether they are accepted as a frame, and what they change; `WebSocketFrames` and `WebSocketStream` do the
  same for WebSocket frames.
- **Two peers.** `Network` joins two peers by FIFO channels. Any peer may at any time queue a request,
  reply to a complete request, queue an ACK it wants sent, write one frame, or handle one frame. The
  invariant (`Invariant`) says that a receiver which has read everything in flight mirrors the
  sender. `Delivery`, `Answering`, `Flow` and `Safety` prove that every step keeps it; `Theorems`,
  `InFlight`, `Waiting` and `Settling` draw the conclusions. `ReplyFlow`, `ReplyTheorems`, `LostAcks` and
  `StuckReply` are about the flow control of replies: when it works, when a reply is stuck, and a run that
  gets there. `JoinedObjects` shows that two of the objects, joined by their wires, make such a run,
  whatever they are called with.
- **Endings.** `Endings` is the life of one connection against an arbitrary peer, good or bad frames, up
  to the end; `ObjectLife` shows that the object lives such a life, whatever it is called with.
- **WebSocket.** `WebSocketFrames` says what a whole stream means and how a message is formatted;
  `WebSocketMessages` reassembles and acts on messages; `WebSocketParser` is the resumable parser on
  values, for any bytes, and `WebSocketProtocol` the object with its spill buffer, its unmasking in place
  and its rotating mask, proved equal to it; `WebSocketStream` proves what the parser makes of streams and
  of any other bytes; `WebSocket` accounts for bytes; `BackPressure` interleaves sends, write completions
  and actor turns; `Utf8` is the validation of text.
- **Actors.** `Mailbox` interleaves the threads of the scheduler; `Batcher` is the generation scheme
  that fetches incoming frames.

The connection does not compress, as with level 0. The step of the checksum (`CRC_STEP`) is left open,
so everything holds of CRC-32 and of every other byte-wise checksum.

## Assumptions

- Handlers respond only to requests that are complete, and to each at most once; requests are queued
  without a number and replies with the number of their request; callbacks do not throw; a WebSocket
  that has closed passes on no more frames.
- The connection between two peers is a FIFO channel of whole WebSocket messages. That the WebSocket
  layer provides such a channel is proved separately, for the streams that `formatMessage` writes.
- Each critical section of the source that holds a mutex is one atomic step.
- A chunk that a WebSocket receives has fewer than 2^31 bytes.
- No message sends 2^32 bytes or more, and no connection queues 2^64 requests, so the counters do not
  wrap; both limits are guards of the steps.

## Where code and documentation differ

The model follows the code.

- The protocol description (docs/BLIP Protocol.md:201) lets a message be suspended when its
  unacknowledged bytes exceed 128000; the code suspends it at 128000. The ACK interval of 50000 bytes
  is counted from the last ACK, not in multiples.
- `isResponse()` is true of every type but a request, so an incoming ACK of a reply can be taken to be
  about a queued ACK of the same number. Flow control is proved free of deadlock for requests in every
  run. An ACK reaches a reply if and only if no other non-request of its number stands before it in the
  outbox (`ReplyFlow.AckFindsReply`), and is lost otherwise (`ReplyFlow.AckOfReply`). While no ACK of a
  reply is lost, flow control of replies works as well (`ReplyTheorems.FrozenReplyWillThaw`). A message
  has acknowledged exactly what the ACKs that reached it say (`LostAcks.AckedIsHeard`); so, with nothing of
  it under way, a reply is stuck if and only if its receiver has had 128000 bytes or more beyond the
  highest of them (`LostAcks.StuckIffUnheard`); it then stays so for ever (`ReplyTheorems.StuckForever`);
  and there is a run that ends like that, with a socket that is full at one moment
  (`StuckReply.ReplyGetsStuck`).
- A frame of fewer than four payload bytes is read out of bounds: the checksum is copied from four bytes
  before the end of it (src/blip/Message.cc:168) whatever its size. The exact guard is the precondition
  `|payload| >= CHECKSUM_SIZE` of `MessagesIn.MessageIn.Received`; the models of the receiver count such a
  frame as bad, and that is how `Endings.ExactlyOneEnding` means "any peer".
- The code that re-adds the message of a bad frame to its map leaves out error replies:
  `Endings.ExactlyOneEnding` has the exact condition, `Endings.LostReply` an instance.
- After a CLOSE has been sent, a refused send leaves the actor blocked without a wake-up
  (`BackPressure.BlockedAfterClose`, `BackPressure.StaysBlocked`; `BackPressure.SendLosesNoWakeUp` has
  the exact condition).
- The buffer of `sendOp` is ten bytes longer than the message, called the maximum space needed; the frame
  of a client overruns it if and only if the message has 65536 bytes or more (`WebSocketFrames.FrameFits`
  has the exact condition). Frames of BLIP are at most 16384 bytes.
- A CLOSE is not echoed if a PING follows it in the same chunk (`WebSockets.CloseEchoed` has the exact
  condition); of several PINGs in one chunk only the last is answered, which section 5.5.3 of RFC 6455
  allows.
- After a message that is refused (text that is not UTF-8, a second CLOSE) the connection is not closed.
  If the frame of the message is in one buffer, the rest of the buffer is dropped
  (`WebSocketStreams.ChunksMatter`); if it came in pieces, the parser stays in the middle of it and takes
  what comes next for its payload (`WebSocketStreams.StuckInFrame`). So what comes out depends on the
  chunks: messages come out of every chunking if and only if at most the last of them is refused
  (`WebSocketStreams.RoundTripIff`; `WebSocketMessages.TakenIff` says which are refused). The accounting of
  bytes holds all the same (`WebSockets.WebSocketImpl.OnReceive`).
- A message may come in several frames (section 5.4 of RFC 6455). The code puts it together in a buffer of the
  size of the first, so it refuses the message unless all the other frames are empty
  (`WebSocketMessages.FragmentedMessage` has the exact condition). A binary frame behind one that is not final
  is not refused, though a text is (`WebSocketStreams.RefusedIff`). Messages of BLIP are never fragmented.
- The length of a payload is compared with the limit as an int, so that only its lower 32 bits count. If
  those are within the limit and the length is not, and that many bytes are there, the source reads beyond
  its buffer; the model of the parser marks this (`overrun`) and stops.
- A data source that returns fewer bytes than the buffer holds is taken to be at its end, although the
  header only names 0 as the end (`MessagesOut.SourceReadToTheEnd`).

## Model

| member | source | states |
|---|---|---|
| `InFlight.EveryByte` | src/blip/BLIPConnection.cc:328-387 | In every state of every run of two peers, each message given to a sender is byte for byte: what the receiver has assembled, then what its frames in flight carry, then what is still unsent; so nothing is lost, doubled, mixed up or reordered by interleaving, freezing and thawing |
| `Theorems.EndToEnd` | src/blip/Message.cc:150-257 | A message with nothing left to send arrives with exactly the type, flags, properties and body it was sent with, and is not counted as delivered before |
| `Theorems.DeliveredIsSent` | src/blip/Message.cc:245-256 | Whatever a receiver has delivered was sent by the other peer, and is what was sent |
| `Theorems.NothingRefused` | src/blip/BLIPConnection.cc:516-551 | In every run neither peer meets a bad request number, a reply nobody waits for, a malformed message or a wrong checksum; the running checksums of the two ends agree once the frames in flight are read |
| `Theorems.RequestsBeginInOrder` | src/blip/BLIPConnection.cc:275-298 | The frame that begins a request always begins the next number in order, without gaps, whether requests are urgent or not and however messages are requeued |
| `Theorems.AllAcked` | src/blip/Message.cc:273-288 | A request whose frames have all arrived and whose ACKs have all come back has fewer than 50000 bytes unacknowledged |
| `Theorems.FrozenRequestWillThaw` | src/blip/BLIPConnection.cc:488-512 | While a request is in the icebox, a frame of it is in flight or an ACK of it is wanted, queued or in flight: flow control cannot deadlock a request |
| `Theorems.AllRequestsDelivered` | src/blip/BLIPConnection.cc:302-316 | Once the outboxes, the channels and the ACKs wanted of both peers are empty, every request ever queued has been delivered completely, none is left frozen |
| `Theorems.Unacknowledged` | src/blip/Message.cc:273-288 | For requests and replies: once its frames have arrived and its ACKs have come back, sender and receiver have counted the same bytes of a message, fewer than 50000 of them not yet asked to be acknowledged; if no ACK was lost, those are all that is unacknowledged |
| `Settling.RunsEnd` | src/blip/BLIPConnection.cc:328-512 | From any state, no more steps can be taken without queueing a request or a reply than the bytes, messages, frames and ACKs under way allow: ACKs do not beget ACKs for ever, freezing and thawing end |
| `Settling.Settles` | src/blip/BLIPConnection.cc:328-512 | From any state two peers can go on, queueing nothing new, until no step is left |
| `Settling.SettledDelivers` | src/blip/BLIPConnection.cc:302-316 | Once no step is left in a reachable state (no message near 2^32 bytes), every request ever queued has been delivered, and every reply too if no ACK of a reply was lost |
| `Settling.StepWeight` | src/blip/BLIPConnection.cc:328-512 | Each step of a peer but the queueing of a request or a reply lowers the measure of what is left to do |
| `JoinedObjects.HistoryIsRun` | src/blip/BLIPConnection.cc:226-551 | Two connection objects joined by their wires, whatever their methods are called with and whatever their sockets answer: their states, and the bytes on the wires, are always those of two peers in some run of the network model |
| `JoinedObjects.CallIsRun` | src/blip/BLIPConnection.cc:226-551 | One call of an object (queueing, an ACK, becoming writeable, a frame of the other) is a sequence of steps of the network model |
| `JoinedObjects.NoErrors` | src/blip/BLIPConnection.cc:404-478 | Neither of two joined objects ever refuses a frame of the other or closes because of one |
| `Theorems.QueuesPartition` | src/blip/BLIPConnection.cc:343-378 | At every turn boundary outbox and icebox are disjoint and hold no message twice, ACKs aside; icebox messages need an ACK, outbox messages do not |
| `ReplyFlow.AckFindsReply` | src/blip/BLIPConnection.cc:66-71 | Because isResponse() is true of ACKs too: the ACK of a reply that is being sent, in the outbox or in the icebox, finds that reply if and only if no other non-request of its number stands before it in the outbox |
| `ReplyFlow.AckOfReply` | src/blip/BLIPConnection.cc:488-512 | An ACK of a reply that is being sent lowers its unacknowledged bytes if it finds the reply, and otherwise changes nothing whatever: it is lost |
| `ReplyFlow.RunKeepsReplies` | src/blip/BLIPConnection.cc:488-512 | Flow control of replies after every run: a reply has never more bytes acknowledged than its receiver has asked to acknowledge; and in runs in which each ACK handled finds the reply it is about, the last ACK asked for has arrived or is still to come |
| `ReplyTheorems.AllRepliesAcked` | src/blip/Message.cc:273-288 | In such runs a reply whose frames have all arrived and whose ACKs have all come back has fewer than 50000 bytes unacknowledged |
| `ReplyTheorems.FrozenReplyWillThaw` | src/blip/BLIPConnection.cc:488-512 | In such runs, while a reply is in the icebox, a frame of it is in flight or an ACK of it is wanted, queued or in flight |
| `ReplyTheorems.AllDelivered` | src/blip/BLIPConnection.cc:302-316 | In such runs, once the outboxes, the channels and the ACKs wanted are empty, every request and every reply has been delivered completely |
| `LostAcks.AckedIsHeard` | src/blip/BLIPConnection.cc:488-512 | In every run the acknowledged bytes of a message that is being sent are the highest count of an ACK that has been handled while it reached the message: for a reply, while no other non-request of its number stood before it in the outbox |
| `LostAcks.StuckIffUnheard` | src/blip/BLIPConnection.cc:374-378 | In every run: a reply with all its frames arrived and all its ACKs come back is stuck if and only if its receiver has had 128000 bytes or more beyond the highest count of an ACK that reached it |
| `ReplyTheorems.StuckForever` | src/blip/BLIPConnection.cc:302-316 | A frozen reply with no frame in flight and no ACK wanted, queued or in flight stays exactly so in every continuation of the run: it never sends another byte |
| `ReplyTheorems.NextKeepsStuck` | src/blip/BLIPConnection.cc:254-551 | No step of either peer, whatever it queues, writes or handles, frees such a reply |
| `StuckReply.ReplyGetsStuck` | src/blip/BLIPConnection.cc:66-71 | A run of the two peers from the start that ends with such a reply: the ACKs of its first 65528 and 131056 bytes come in while an ACK of the same number waits in the outbox |
| `StuckReply.LoseAck` | src/blip/BLIPConnection.cc:488-512 | In a reachable state, an ACK of the frozen reply that comes in while the outbox begins with an ACK of its number is handled without any effect |
| `Theorems.BothDirections` | src/blip/BLIPConnection.cc:399-484 | Everything proved of what one peer sends holds of what the other sends |
| `Safety.RunInv` | src/blip/BLIPConnection.cc:254-388 | The invariant of both directions (queues, maps, checksums, flow control) holds after every run, with any interleaving |
| `Safety.StepKeeps` | src/blip/BLIPConnection.cc:254-551 | Each step of a peer (queueing, writing a frame, handling a frame) keeps the invariant of both directions |
| `Safety.WriteKeeps` | src/blip/BLIPConnection.cc:328-387 | Writing a frame, which may freeze the message or make its reply awaited, keeps the invariant: in particular the entry for the reply exists before any frame of the reply can be read |
| `Delivery.FrameMirrored` | src/blip/BLIPConnection.cc:516-551 | The frame of any message in transit is accepted by a receiver that mirrors the sender, which then holds the same part of the message, or all of it |
| `Delivery.AckEffect` | src/blip/BLIPConnection.cc:488-512 | An ACK, wanted or not, changes no message but in its unacknowledged bytes, and leaves the same messages in the queues, each of them once |
| `Flow.FrameAcked` | src/blip/Message.cc:273-288 | A frame adds the same bytes to the unacknowledged count of the sender and to the count of the receiver that decides on the next ACK |
| `Flow.TargetOfRequest` | src/blip/BLIPConnection.cc:488-497 | The lookup by an ACK of a request finds that request, in whichever queue it is, and never anything else |
| `Flow.AckOfMessage` | src/blip/BLIPConnection.cc:488-512 | An ACK changes the one message it finds as MessageOut says, and no other; one that is about a request that is being sent finds it |
| `InFlight.DrainAssembles` | src/blip/Message.cc:181-238 | Reading a channel to its end adds to each message exactly the bytes its frames carry |
| `Endings.ExactlyOneEnding` | src/blip/BLIPConnection.cc:226-246 | Over any life of a connection that ends closed, against any peer (a frame of fewer than four bytes counting as bad), a request expecting a reply has had exactly one terminal report, complete or disconnected, except if and only if the last frame of an error reply to it was bad |
| `Endings.NoEarlyEnding` | src/blip/BLIPConnection.cc:380-385 | No request ends twice, and none that is queued, frozen or awaiting its reply has ended |
| `Endings.LostReply` | src/blip/BLIPConnection.cc:449-458 | The inner catch does not put an error reply back, so a bad last frame of one leaves its request without any ending |
| `Endings.HappensKeepsEndings` | src/blip/BLIPConnection.cc:254-484 | Queueing, writing, any incoming frame, a header that cannot be read, and closing keep the account of what has become of each request |
| `Endings.ClosesIffUnacceptable` | src/blip/BLIPConnection.cc:399-484 | After any life of an open connection against any peer, a frame closes it with an error if and only if it is not acceptable |
| `Endings.ClosingIgnores` | src/blip/BLIPConnection.cc:406-408 | Once closing with an error, a connection handles no frame and queues no message any more, whatever happens |
| `Endings.BadFrameHeld` | src/blip/BLIPConnection.cc:449-458 | After a bad frame its message is in its map as it was, or again if the frame was to be the last, except for the last frame of an error reply |
| `Endings.EachAskedOrRefused` | src/blip/BLIPConnection.cc:254-259 | Every request that expects a reply is either queued under a number of its own or refused at once with a report; the two add up over any life |
| `ObjectLives.ObjectEndsRequests` | src/blip/BLIPConnection.cc:226-484 | Whatever the methods of the connection object are called with, once it is closed each request that expects a reply has been reported complete or disconnected exactly once, unless its reply was lost, and then never |
| `ObjectLives.CallIsEvents` | src/blip/BLIPConnection.cc:226-484 | Each call of the object (queueing, becoming writeable, a batch of any bytes, closing) is a sequence of events in the life of a connection, with the same completed and disconnected reports and the same lost replies |
| `ObjectLives.HistoryIsLife` | src/blip/BLIPConnection.cc:226-484 | All the calls of an object together are one such life, also after an error has left a message half read |
| `ObjectLives.ObjectAccepts` | src/blip/BLIPConnection.cc:399-484 | Whatever an open object was called with, it accepts some bytes as the next frame if and only if they have a header and are acceptable under its number and flags |
| `ObjectLives.NeverIdle` | src/blip/BLIPConnection.cc:320-388 | Whatever an object was called with, it never rests with frames to send while its socket takes more |
| `Outbox.InsertPosRule` | docs/BLIP Protocol.md:97-101 | Where a message is inserted: normal ones at the end; urgent ones behind every urgent one, behind the first normal one after those, and if new behind every message not yet begun |
| `Outbox.PlaceIff` | src/blip/BLIPConnection.cc:275-298 | That rule holds of one place only, so the place of an urgent message obeys it and every other breaks it |
| `Outbox.RequeueMultiset` | src/blip/BLIPConnection.cc:275-298 | Inserting a message keeps all the others |
| `Outbox.NormalIsPopped` | src/blip/BLIPConnection.cc:334-338 | No starvation: whatever is inserted meanwhile, a normal message at position p is popped within 2p + 1 pops |
| `Outbox.UrgentIsPopped` | src/blip/BLIPConnection.cc:275-298 | An urgent message at position p is popped by exactly the (p+1)th pop, whatever is inserted meanwhile |
| `Outbox.TrackAllFollows` | src/blip/BLIPConnection.cc:275-298 | The position followed by the two bounds is always that of one and the same message |
| `Waiting.NormalSends` | src/blip/BLIPConnection.cc:334-338 | No starvation in any run, from any state: whatever is queued, thawed, acknowledged and received meanwhile, a normal message at position p of the outbox sends its next frame within 2p + 1 frames |
| `Waiting.UrgentSends` | src/blip/BLIPConnection.cc:275-298 | In every run an urgent message at position p sends its next frame as exactly the (p+1)th, and none before |
| `Waiting.StepKeepsPlace` | src/blip/BLIPConnection.cc:254-512 | Whatever step a peer takes, a normal message does not wait longer and an urgent one keeps its place; each frame written brings both forward; ACKs may change messages where they stand |
| `Outbox.BeginOrder` | src/blip/BLIPConnection.cc:281-293 | A message queued for the first time stands behind all that have not begun; one that has begun does not change their order |
| `Senders.WriteFrameLive` | src/blip/BLIPConnection.cc:374-387 | Writing a frame takes one message out of the queues and puts back what is left of it |
| `Senders.ReceivedAckLive` | src/blip/BLIPConnection.cc:488-512 | An ACK changes one message, and thawing neither loses nor doubles it |
| `Senders.WriteFrameKeepsFlow` | src/blip/MessageOut.hh:51-61 | No message ever has more than 127999 + 16382 unacknowledged bytes, and none that may send needs an ACK |
| `Senders.ReceivedAckKeepsFlow` | src/blip/BLIPConnection.cc:509-511 | After an ACK, a message is back in the outbox as soon as it no longer needs one |
| `Senders.WriteFrameProgress` | src/blip/BLIPConnection.cc:334-387 | Every frame lowers the number of bytes and messages to send |
| `Wire.NextFits` | src/blip/BLIPConnection.cc:341-350 | The encoded frame of a normal message that an urgent one follows has at most 4096 bytes, any other at most 16384; with more coming it has more than 1024 bytes less than that limit |
| `Wire.FrameOnWire` | src/blip/BLIPConnection.cc:345-358 | The bytes of the next frame, one by one: the shortest varint of the number; the type, urgent, no-reply and more-coming bits of the message; the next bytes of its content, all that is left if no more are coming; the checksum of all the data sent so far as a big-endian number |
| `Wire.FrameLeaves` | src/blip/BLIPConnection.cc:374-387 | What is left of a message goes behind those in the icebox if 128000 bytes or more of it are unacknowledged, else to its place in the outbox; after the last frame of a request that wants a reply, and of no other message, the reply is awaited; the progress is Sending, Complete or AwaitingReply accordingly |
| `Wire.AckOnWire` | src/blip/Message.cc:273-288 | An ACK goes out as number, one flags octet (type 4 for a request, 5 for a reply, urgent, no reply) and the varint of the count, without a checksum and without touching the running one; nothing of it stays behind |
| `Receivers.ReceiveKeeps` | src/blip/BLIPConnection.cc:516-551 | A frame touches its own message only; delivered messages stay as they are |
| `Receivers.DrainAwait` | src/blip/BLIPConnection.cc:384-385 | Beginning to await a reply does not disturb the frames that are already in flight |
| `Receivers.AcceptedIff` | src/blip/BLIPConnection.cc:416-551 | Of any frames, exactly these are accepted: ACKs, frames of unknown type, and those of a message that is being received or of the request whose number is next, with at least four bytes, a right checksum, and size and properties as FirstAcceptedIff and NextAcceptedIff say |
| `Receivers.FrameTaken` | src/blip/BLIPConnection.cc:423-475 | What an accepted frame changes: its message is held while more is coming and delivered by the last frame, a new request counts as begun, the checksum goes on, an ACK is wanted at 50000 bytes; nothing else |
| `Receivers.FrameRefused` | src/blip/BLIPConnection.cc:448-458 | A frame is refused for its number, changing nothing, if and only if it belongs to no message; any other bad frame leaves the message as it was, out of its map if it was to be its last, and counts towards ACKs |
| `MessagesOut.NextFrameProperties` | src/blip/MessageOut.cc:55-103 | Each frame fits its buffer with its checksum, carries exactly the next bytes of the message and the checksum over everything sent so far; with kMoreComing it carries at least a byte and comes within 1024 of filling the buffer, without it nothing is left |
| `MessagesOut.FillTakesPrefix` | src/blip/MessageOut.cc:60-67 | The filling loop takes a prefix of what is left and leaves the rest, across payload and data source |
| `MessagesOut.SourceReadToTheEnd` | src/blip/MessageOut.cc:189-202 | A data source is read to its end if and only if it returns nothing after its first short read |
| `MessagesOut.UnackedIsSentMinusAcked` | src/blip/MessageOut.cc:87-109 | After any frames and ACKs the unacknowledged bytes are the bytes sent less the highest count accepted |
| `MessagesOut.MessageOut.constructor` | src/blip/MessageOut.cc:34-42 | A new message holds its payload and data source, has sent nothing, and has nothing unacknowledged |
| `MessagesOut.MessageOut.ReadFromDataSource` | src/blip/MessageOut.cc:189-202 | Replaces the buffer by the next read and drops the source after a short one |
| `MessagesOut.MessageOut.DataToSend` | src/blip/MessageOut.cc:167-179 | Returns the unsent payload, or else the refilled buffer |
| `MessagesOut.MessageOut.WriteData` | src/blip/MessageOut.cc:60-67 | The loop copies what the recursive filling describes, and runs the checksum over it |
| `MessagesOut.MessageOut.NextFrameToSend` | src/blip/MessageOut.cc:45-103 | The object produces exactly the frame, flags, progress state and new counts of the function that the frame properties are proved of |
| `MessagesOut.MessageOut.ReceivedAck` | src/blip/MessageOut.cc:106-109 | Lowers the unacknowledged bytes, and ignores counts of bytes not yet sent |
| `Codecs.Crc32Append` | src/util/Codec.cc:55-57 | The running checksum depends on the bytes only and not on how they are cut into writes |
| `Codecs.Crc32Next` | src/util/Codec.cc:55-57 | One byte more is one step more on the complement of the checksum, so the checksum depends on every byte |
| `Codecs.Codec.WriteRaw` | src/util/Codec.cc:78-86 | Copies the longest prefix that fits, keeps the rest, and adds exactly that prefix to the checksum |
| `Codecs.Codec.WriteChecksum` | src/util/Codec.cc:59-62 | Writes four bytes that decode to the running checksum |
| `Codecs.Codec.ReadAndVerifyChecksum` | src/util/Codec.cc:65-74 | Accepts if and only if there are four bytes and they decode to the running checksum |
| `Messages.FrameRoundTrip` | src/blip/BLIPConnection.cc:349-358 | The receiver decodes from a frame exactly the number, flags and payload that were encoded |
| `Messages.FlagsRoundTrip` | include/blip_cpp/BLIPProtocol.hh:38-44 | The flags octet decodes to the flags it was made of, and takes one varint octet; which bit is which, see FlagBits |
| `Messages.FlagBits` | include/blip_cpp/BLIPProtocol.hh:29-46 | The octet written for flags: bits 0 to 2 are 0, 1, 2, 4, 5 for request, response, error, ACK of a request, ACK of a response; 0x10, 0x20, 0x40 are set if and only if urgent, no reply, more coming; 0x08 and 0x80 are clear |
| `Messages.FrameOctets` | src/blip/BLIPConnection.cc:345-358 | The bytes of an encoded frame are the shortest varint of its number, an octet with its flags, and its payload |
| `Messages.OctetsRead` | src/blip/BLIPConnection.cc:404-414 | Any bytes that begin with two varints are a frame if and only if both are below 2^64: the first is the number, the lowest octet of the second has the flags by the table of FlagBits, the rest is the payload |
| `Messages.NoHeader` | src/blip/BLIPConnection.cc:409-411 | Bytes in which one of the two varints does not end are no frame |
| `Bytes.VarIntRoundTrip` | src/blip/BLIPConnection.cc:350-411 | A varint reads back as the number written, with the length written, whatever follows |
| `Bytes.VarIntMaxLengths` | src/blip/BLIPConnection.cc:347-350 | Varints of 64-bit and 32-bit numbers take at most 10 and 5 bytes |
| `Bytes.VarIntWritten` | src/blip/BLIPConnection.cc:347 | A number is written as the shortest varint for it: seven bits to an octet, the lowest first, the high bit set in each but the last |
| `Bytes.VarIntRead` | src/blip/BLIPConnection.cc:409-410 | Of any bytes, a varint is read if and only if some octet has its high bit clear; the first such ends it, and the value is that of the seven-bit groups |
| `Bytes.XorByteBits` | src/websocket/WebSocketProtocol.hh:374-379 | Each bit of a masked octet is set if and only if those of data and mask differ |
| `MessagesIn.FrameAccepted` | src/blip/Message.cc:150-257 | A frame with the next bytes of a well-formed message and the right checksum is accepted, extends what is assembled by exactly its data, and the last one yields exactly the properties and body, wherever the frames are cut |
| `MessagesIn.PropsSizeFromPrefix` | src/blip/Message.cc:189-208 | What has been assembled of a message determines where its properties end |
| `MessagesIn.MessageIn.UpdateAcknowledge` | src/blip/Message.cc:273-288 | Counts a frame, and asks for an ACK with the total count when 50000 bytes are unacknowledged |
| `MessagesIn.MessageIn.ReadFrame` | src/blip/Message.cc:291-299 | Appends the whole frame to the body in pieces of 4096 bytes, all of it in the checksum |
| `MessagesIn.MessageIn.ReadFirst` | src/blip/Message.cc:182-209 | Reads the size of the properties and what follows it in the first five bytes, or fails as the source throws |
| `MessagesIn.MessageIn.ReadMore` | src/blip/Message.cc:211-238 | Completes the properties before it adds to the body |
| `MessagesIn.FirstAcceptedIff` | src/blip/Message.cc:182-251 | Of any bytes, a first frame is accepted if and only if its last four bytes, as a big-endian number, are the checksum of its data; the data begins with a varint of at most five bytes, below 2^32 and at most 102400; the properties, if complete, end in NUL; and if no more is coming they are complete |
| `MessagesIn.FirstAccepted` | src/blip/Message.cc:177-257 | It then holds everything behind the size, properties first, takes its flags from the frame, and reports End for a last frame and Beginning for one that completes the properties of anything but an error |
| `MessagesIn.NextAcceptedIff` | src/blip/Message.cc:211-257 | Of any bytes, a later frame is accepted if and only if the checksum is right, properties it completes end in NUL, and they are complete if no more is coming; it adds exactly its data, keeps the flags, and reports End, Beginning or Other by the same rule |
| `MessagesIn.FrameCounts` | src/blip/Message.cc:161-163 | Every frame, bad or not, counts with its checksum; at 50000 bytes beyond the last ACK one is wanted, of all the bytes of the message so far |
| `MessagesIn.MessageIn.Received` | src/blip/Message.cc:150-257 | The object changes, fails and asks for ACKs exactly as the function that these conditions are proved of; if it accepts, the last four bytes are the running checksum of the data |
| `MessageBuilders.LookupRoundTrip` | src/blip/MessageBuilder.cc:85-118 | For any NUL-free pairs, looking a name up in the encoded block gives the value of the first pair with that name, or nothing if there is none |
| `MessageBuilders.EncodedStrings` | src/blip/MessageBuilder.cc:85-96 | The encoded properties are the names and values in turn, each followed by a NUL |
| `MessageBuilders.StringsJoin` | src/blip/Message.cc:391-409 | The strings of any NUL-terminated block hold no NUL and, with one behind each, are the block |
| `MessageBuilders.FoundFirst` | src/blip/Message.cc:391-409 | What is looked up is the string behind the first one at an even place that equals the name; nothing if there is none |
| `MessageBuilders.Lookup` | src/blip/Message.cc:391-409 | For any NUL-terminated block, the value is the string behind the first equal one at an even place; no read goes past the end |
| `MessageBuilders.StrLen` | src/blip/Message.cc:400-403 | Finds the first NUL without leaving the block |
| `MessageBuilders.MessageBuilder.constructor` | src/blip/MessageBuilder.cc:36-40 | A request has the Profile property if one is given, and nothing else |
| `MessageBuilders.MessageBuilder.Reply` | src/blip/MessageBuilder.cc:43-49 | A reply is as urgent as its request |
| `MessageBuilders.MessageBuilder.AddProperty` | src/blip/MessageBuilder.cc:91-96 | Appends one pair to the encoded list |
| `MessageBuilders.MessageBuilder.FinishProperties` | src/blip/MessageBuilder.cc:105-118 | Writes size and properties once, and fails if and only if they exceed 102400 bytes |
| `MessageBuilders.MessageBuilder.Write` | src/blip/MessageBuilder.cc:121-126 | Appends to the body behind the properties |
| `MessageBuilders.MessageBuilder.Finish` | src/blip/MessageBuilder.cc:129-132 | Yields a well-formed message of the pairs added and the body written, as the delivery theorems require it |
| `BlipConnection.BLIPIO.constructor` | src/blip/BLIPConnection.cc:105-133 | A new connection has empty queues and maps, may write, and checksums at their start value |
| `BlipConnection.BLIPIO.FindPosition` | src/blip/BLIPConnection.cc:275-293 | The backward scan stops exactly where the insertion rule puts the message |
| `BlipConnection.BLIPIO.RequeueMessage` | src/blip/BLIPConnection.cc:275-298 | The outbox afterwards is the old one with the message inserted by that rule, and nothing else has changed |
| `BlipConnection.BLIPIO.FreezeMessage` | src/blip/BLIPConnection.cc:302-307 | The icebox gains the message at its end |
| `BlipConnection.BLIPIO.AddResponse` | src/blip/BLIPConnection.cc:380-385 | The reply is awaited from now on, an entry that exists is kept |
| `BlipConnection.BLIPIO.MakeFrame` | src/blip/BLIPConnection.cc:343-358 | The bytes of the next frame, header and checksum included: at most 4096 for a normal message that an urgent one follows, at most 16384 otherwise, within 1024 of that if more is coming |
| `BlipConnection.BLIPIO.SendFrame` | src/blip/BLIPConnection.cc:340-371 | Sends the bytes of that frame, whose size, octets and remainder NextFits, FrameOnWire and FrameLeaves state, and stores whether the socket takes more |
| `BlipConnection.BLIPIO.WriteFrameTo` | src/blip/BLIPConnection.cc:334-387 | One round of the loop does what the sender model does with one frame, on queues, codec, maps and socket |
| `BlipConnection.BLIPIO.WriteToWebSocket` | src/blip/BLIPConnection.cc:328-388 | The loop writes frames while the socket takes them, and ends |
| `BlipConnection.BLIPIO.OnWebSocketWriteable` | src/blip/BLIPConnection.cc:320-324 | Clears the block, then writes |
| `BlipConnection.BLIPIO.ThawMessage` | src/blip/BLIPConnection.cc:311-316 | Moves the message from the icebox to its place in the outbox, then writes |
| `BlipConnection.BLIPIO.QueueMessage` | src/blip/BLIPConnection.cc:254-271 | Numbers a new request, queues and writes; a connection that is closed or closing changes nothing and says so |
| `BlipConnection.BLIPIO.QueueNextAck` | src/blip/Message.cc:273-288 | Takes the first ACK wanted, makes its message as acknowledge does, and queues it |
| `BlipConnection.BLIPIO.FindIn` | src/blip/BLIPConnection.cc:66-71 | Finds the first message with this number that is, or is not, a response |
| `BlipConnection.BLIPIO.OnAck` | src/blip/BLIPConnection.cc:488-512 | Does what the model of ACKs says, in the outbox before the icebox, and goes on writing if a message thaws |
| `BlipConnection.BLIPIO.PendingRequest` | src/blip/BLIPConnection.cc:516-535 | Finds or creates the request of a frame, or fails without any change |
| `BlipConnection.BLIPIO.PendingResponse` | src/blip/BLIPConnection.cc:539-551 | Finds the awaited reply of a frame, or fails without any change |
| `BlipConnection.BLIPIO.PutBackMessage` | src/blip/BLIPConnection.cc:453-456 | Puts the message of a bad frame back, unless it is an error reply |
| `BlipConnection.BLIPIO.HandleFrame` | src/blip/BLIPConnection.cc:423-475 | A frame that is no ACK changes messages, maps, codec, ACKs wanted and replies reported complete exactly as the receiver model says, in the bad cases up to how far the message was read |
| `BlipConnection.BLIPIO.OnFrame` | src/blip/BLIPConnection.cc:404-478 | Decodes the header, then does what the type of the frame demands, or fails |
| `BlipConnection.BLIPIO.OnWebSocketMessages` | src/blip/BLIPConnection.cc:399-484 | Handles a batch up to its first bad frame, after which the connection closes with an error |
| `BlipConnection.BLIPIO.CancelAll` | src/blip/BLIPConnection.cc:554-568 | Reports exactly the requests queued, frozen or awaiting a reply, and empties everything |
| `BlipConnection.BLIPIO.OnClosed` | src/blip/BLIPConnection.cc:226-246 | Handles what is still pending, then cancels everything, once |
| `BlipConnection.WriteAllEnds` | src/blip/BLIPConnection.cc:328-388 | writeToWebSocket ends with the outbox empty or the socket full, after no more frames than there are bytes and messages to send |
| `BlipConnection.AckReceivedSteps` | src/blip/BLIPConnection.cc:509-511 | Handling an ACK and thawing amount to the step of the network model, followed by writing |
| `BlipConnection.CancelledIsClosed` | src/blip/BLIPConnection.cc:226-246 | Closing the object is the step Close of the life of a connection, with exactly its disconnection reports |
| `BlipConnection.WriteRoundIsStep` | src/blip/BLIPConnection.cc:334-387 | A round of the write loop of the object is the step Write of the network model, and puts the encoding of its frame on the wire |
| `BlipConnection.FrameInIsStep` | src/blip/BLIPConnection.cc:399-484 | Handling the encoding of a frame is the step Deliver of the network model, and fails exactly when that does |
| `WebSocketFrames.ChunkedRoundTrip` | src/websocket/WebSocketProtocol.hh:334-452 | For any list of messages, any masks and any split of the bytes into chunks, the messages of the chunks, each taken with what the chunks before left over, are exactly that list |
| `WebSocketFrames.WireRoundTrip` | src/websocket/WebSocketProtocol.hh:334-382 | A stream of formatted messages is well framed and parses as exactly those messages |
| `WebSocketFrames.StreamAppend` | src/websocket/WebSocketProtocol.hh:384-452 | Wherever a stream is cut, the two parts, with what is left of the first, have the messages of the whole and leave the same rest |
| `WebSocketFrames.ChunkingIndependence` | src/websocket/WebSocketProtocol.hh:384-401 | However a stream is chunked, the same messages come out |
| `WebSocketFrames.FormatReads` | src/websocket/WebSocketProtocol.hh:334-382 | One formatted message followed by anything reads back as itself, masked or not, for all three length encodings |
| `WebSocketFrames.FormatOctets` | src/websocket/WebSocketProtocol.hh:334-382 | The octets of a formatted message: 0x80 + opcode; the mask bit of a client; the length in seven bits, or 126 and two octets, or 127 and eight octets, the highest first; the key; payload octet i, masked with octet i modulo 4 of the key |
| `WebSocketFrames.HeadOctets` | src/websocket/WebSocketProtocol.hh:411-444 | What any octets are as a header: its size, the opcode, and the length by the same table; there is none if and only if they end inside it |
| `WebSocketFrames.FrameFits` | src/websocket/WebSocketImpl.cc:137-150 | The buffer of sendOp has room for the frame if and only if the sender is a server or the message is shorter than 65536 bytes |
| `WebSocketFrames.UnmaskTwice` | src/websocket/WebSocketProtocol.hh:373-379 | Masking twice with the same key restores the data |
| `WebSocketFrames.MaskInPlace` | src/websocket/WebSocketProtocol.hh:374-379 | Masks exactly the payload in place |
| `WebSocketFrames.FormatMessage` | src/websocket/WebSocketProtocol.hh:334-382 | The bytes written are the frame that the round trips and FormatOctets are proved of |
| `WebSocketProtocols.UnmaskPrecise` | src/websocket/WebSocketProtocol.hh:108-118 | Moves a payload down over its own header while unmasking it, in groups of four and a tail, although source and destination overlap |
| `WebSocketProtocols.UnmaskPreciseCopyMask` | src/websocket/WebSocketProtocol.hh:120-124 | The same when the mask itself is overwritten |
| `WebSocketProtocols.RotateMask` | src/websocket/WebSocketProtocol.hh:126-133 | Rotating by an offset makes the mask start that much earlier |
| `WebSocketProtocols.UnmaskInplace` | src/websocket/WebSocketProtocol.hh:135-146 | Unmasks exactly the given bytes |
| `WebSocketParsers.UnmaskFurther` | src/websocket/WebSocketProtocol.hh:203-249 | Unmasking a payload in two parts, with the mask rotated in between, is unmasking it at once |
| `WebSocketProtocols.WebSocketProtocol.ConsumeWhole` | src/websocket/WebSocketProtocol.hh:178-197 | Any frame that is there completely is unmasked and handed on, and the bytes behind it are untouched; if it is refused the opcode stays pushed |
| `WebSocketProtocols.WebSocketProtocol.ConsumePart` | src/websocket/WebSocketProtocol.hh:198-212 | Any frame that is cut off begins or extends a message with the part that is there, and the mask is turned to where it goes on |
| `WebSocketProtocols.WebSocketProtocol.ConsumeMessage` | src/websocket/WebSocketProtocol.hh:160-213 | For any header and any state: the opcode is pushed or the connection closed, the length is checked as an int, and the frame is taken whole or in part; stops exactly where the source does |
| `WebSocketProtocols.WebSocketProtocol.ConsumeContinuation` | src/websocket/WebSocketProtocol.hh:215-252 | The next bytes of a frame complete it or extend it; a fragment that is refused leaves the parser in the middle of the frame |
| `WebSocketProtocols.WebSocketProtocol.ParseFrame` | src/websocket/WebSocketProtocol.hh:411-444 | For any bytes the object takes the step of the parser on values: refuses what RefusedIff says, reads a header as HeadOctets says, handles a frame as FrameHandled says, or leaves a header that is cut off |
| `WebSocketProtocols.WebSocketProtocol.Spill` | src/websocket/WebSocketProtocol.hh:445-448 | Keeps exactly the bytes of a header that is cut off, which always fit |
| `WebSocketProtocols.WebSocketProtocol.Consume` | src/websocket/WebSocketProtocol.hh:384-401 | Whatever the bytes and whatever came before, the object does what the parser on values does, of which the rest is proved |
| `WebSocketProtocols.WebSocketProtocol.ConsumeAll` | src/websocket/WebSocketProtocol.hh:384-401 | The same for any sequence of chunks |
| `WebSocketProtocols.WebSocketProtocol.ConsumeWire` | src/websocket/WebSocketProtocol.hh:334-401 | For any list of messages, any masks and any chunks: a parser between two frames that is called on every chunk of what formatMessage writes hands on exactly that list, if at most its last message is refused |
| `WebSocketStreams.RoundTripIff` | src/websocket/WebSocketProtocol.hh:334-452 | A list of messages that formatMessage writes comes out of every chunking of its bytes, whatever the masks, if and only if at most its last message is refused |
| `WebSocketStreams.ChunkMeaning` | src/websocket/WebSocketProtocol.hh:402-449 | One call of _consume on a chunk of a stream hands on exactly the messages up to and including the first that is refused, hence all of them if and only if at most the last is refused |
| `WebSocketStreams.BufferMeaning` | src/websocket/WebSocketProtocol.hh:402-449 | The same for a buffer joined with spilled bytes; if none is refused, what is kept is what the stream leaves over |
| `WebSocketStreams.ChunksMeaning` | src/websocket/WebSocketProtocol.hh:384-401 | However a stream is chunked of which no message is refused, the parser does what its messages do, and keeps what the stream leaves over |
| `WebSocketStreams.ChunksMatter` | src/websocket/WebSocketProtocol.hh:178-189 | Behind a refused text the rest of the buffer is dropped: in one chunk the next message is lost, in two it is not |
| `WebSocketStreams.StuckInFrame` | src/websocket/WebSocketProtocol.hh:215-238 | If the refused text ends in a later chunk, the parser stays in the middle of its frame and takes the first byte of the next message for payload |
| `WebSocketStreams.ConsumeTakes` | src/websocket/WebSocketImpl.cc:208-254 | Whatever the bytes of a chunk, and whatever came before: what is delivered and held then is no more than what was held before and the chunk |
| `WebSocketStreams.SmallConsume` | src/websocket/WebSocketImpl.cc:226-254 | Whatever the bytes, no message that is put together or answered is longer than 2^20 bytes |
| `WebSocketStreams.RefusedIff` | src/websocket/WebSocketProtocol.hh:418-424 | For any bytes between two frames: the connection is closed with a protocol error, handing nothing on, if and only if a reserved bit is set, the opcode is 3-7 or 11-15, a control frame is long or not final, a continuation has nothing to continue, a third message is begun, a text follows a frame that is not final, or the lower 32 bits of the length exceed 2^20 |
| `WebSocketStreams.LengthCut` | src/websocket/WebSocketProtocol.hh:175-205 | Of a length of 2^32 or more only the lower 32 bits count, if they are within the limit; if that many bytes are there the source reads beyond its buffer |
| `WebSocketStreams.FrameHandled` | src/websocket/WebSocketProtocol.hh:160-213 | Any other frame: the part of its payload that is there is handed on under its opcode, or that of the message it continues; a whole one is done with unless that is refused, and a final one ends its message |
| `WebSocketMessages.TakenIff` | src/websocket/WebSocketImpl.cc:258-279 | A list of messages is taken without an error if and only if the opcodes are known, the texts are UTF-8, and no CLOSE follows the first one ever received |
| `WebSocketMessages.UntilHandsOn` | src/websocket/WebSocketImpl.cc:258-279 | Of a list of messages those up to and including the first refused one are handed on; all of them if and only if at most the last is refused |
| `WebSocketMessages.CloseFlags` | src/websocket/WebSocketImpl.cc:388-412 | A CLOSE sent or received is remembered; the socket is closed by a CLOSE received behind one sent, and by no other message |
| `WebSocketMessages.FragmentedMessage` | src/websocket/WebSocketImpl.cc:226-254 | A message in several frames is put together if and only if all but the first are empty, because the buffer has the size of the first; otherwise it is refused and nothing handed on |
| `WebSocketMessages.Assembler.HandleFragment` | src/websocket/WebSocketImpl.cc:226-254 | Fragments are joined in order into a buffer of the size announced; the last one hands the message on |
| `WebSocketMessages.Assembler.ReceivedMessage` | src/websocket/WebSocketImpl.cc:258-279 | Does what the model of messages says, of which TakenIff, TakeAllDelivers, CloseFlags, PingAnswered and CloseEchoed state what is refused, delivered, closed and answered |
| `WebSocketMessages.Assembler.ReceivedClose` | src/websocket/WebSocketImpl.cc:388-412 | A second CLOSE is refused; the first is echoed, or ends the connection if one was sent |
| `WebSockets.CompletedBytes` | src/websocket/WebSocketImpl.cc:208-210 | The bytes reported as completed are never negative, for any chunk of any bytes after any others |
| `WebSockets.HeldIsCurrent` | src/websocket/WebSocketImpl.cc:226-254 | What is held in the current message is what a stream leaves over, less the header of the frame it is in |
| `WebSockets.FramingBytes` | src/websocket/WebSocketImpl.cc:208-210 | A stream is what is delivered, what is held in the current message, and framing |
| `WebSockets.WebSocketImpl.OnReceive` | src/websocket/WebSocketImpl.cc:188-222 | For any bytes: total received = reported as complete + delivered and not freed + held in the current message, kept by every chunk; the bytes reported are never negative; the state is what the parser makes of the chunk; exactly the answer that is left is sent, and its bytes are counted as buffered |
| `WebSockets.WebSocketImpl.ReceiveAll` | src/websocket/WebSocketImpl.cc:188-222 | Over any chunks of any bytes the same equation holds all along, and the frames sent are the answers of the chunks one after the other |
| `WebSockets.ChunksReceived` | src/websocket/WebSocketImpl.cc:188-222 | Over any chunks of a stream of which no message is refused: log, close flags, bytes delivered and bytes held are those of the whole stream, however it is cut |
| `WebSockets.WebSocketImpl.SendAnswer` | src/websocket/WebSocketImpl.cc:206-221 | Takes the answer that is left, and sends it unless it is a PONG behind a CLOSE |
| `WebSockets.CloseEchoed` | src/websocket/WebSocketImpl.cc:388-412 | The first CLOSE is echoed if and only if no PING follows it in the same chunk |
| `WebSockets.PingAnswered` | src/websocket/WebSocketImpl.cc:270-273 | As long as no CLOSE was sent or received, the last PING of a chunk is answered by one PONG with the payload of the PING |
| `WebSockets.NothingAnswered` | src/websocket/WebSocketImpl.cc:134-135 | A chunk without PING and CLOSE, and any chunk after a CLOSE was sent, is not answered |
| `WebSockets.ChunkAnswered` | src/websocket/WebSocketImpl.cc:188-222 | The same of the frames that onReceive sends for any chunk of a stream of which no message is refused, wherever it is cut |
| `WebSockets.TakeAllDelivers` | src/websocket/WebSocketImpl.cc:288-295 | The delegate gets exactly the texts and binary messages, each as it came and in their order |
| `WebSockets.WebSocketImpl.FreeMessage` | src/websocket/WebSocketImpl.cc:48-64 | Freeing a delivered message moves its bytes to those reported |
| `WebSockets.WebSocketImpl.SendOp` | src/websocket/WebSocketImpl.cc:129-162 | Buffers the frame of any message and says whether there is room, unless a CLOSE has been sent |
| `WebSockets.WebSocketImpl.OnWriteComplete` | src/websocket/WebSocketImpl.cc:165-185 | Notifies exactly when the buffer falls to its limit and the socket is not to be closed |
| `BackPressure.RunLosesNoWakeUp` | src/websocket/WebSocketImpl.cc:129-185 | In every interleaving of sends, write completions and actor turns before a CLOSE is sent, the actor is blocked only while a write over the limit, a notification or a turn is still to come |
| `BackPressure.QuietIsWriteable` | src/blip/BLIPConnection.cc:320-371 | Once everything is written and every turn taken, the actor may write, unless a CLOSE has been sent |
| `BackPressure.SendLosesNoWakeUp` | src/websocket/WebSocketImpl.cc:129-162 | A send leaves the actor unblocked or with a wake-up to come if and only if no CLOSE has been sent or a wake-up was to come already |
| `BackPressure.BlockedAfterClose` | src/websocket/WebSocketImpl.cc:134-135 | After a CLOSE a refused send leaves the actor blocked with no wake-up to come |
| `BackPressure.StaysBlocked` | src/websocket/WebSocketImpl.cc:134-185 | Then it never sends again and never gets a turn, in any run in which no other CLOSE is sent and the socket does not connect again |
| `BackPressure.NotifiedForEachFall` | src/websocket/WebSocketImpl.cc:165-185 | In every interleaving without a CLOSE, the delegate is notified exactly once for each time the buffer has risen above 65536 bytes and fallen again |
| `Utf8.IsValidUtf8` | src/websocket/WebSocketProtocol.hh:272-303 | Accepts a byte string if and only if it encodes some sequence of Unicode scalar values, and stays in bounds on all inputs |
| `Utf8.CharacterLength` | src/websocket/WebSocketProtocol.hh:281-300 | The tests on one character of several octets pass if and only if the string starts with an encoded scalar value, and then give its length |
| `Utf8.SameStart` | src/websocket/WebSocketProtocol.hh:281-300 | No encoded character is the start of another |
| `Batchers.NothingStranded` | src/util/Batcher.hh:52-84 | In every run, with stale, duplicate and unscheduled pops: what was popped, then what waits, is what was pushed; what waits is fetched by a call already scheduled; with no call outstanding nothing waits |
| `Batchers.RunKeeps` | src/util/Batcher.hh:52-84 | Items waiting imply a scheduled call whose generation is not stale |
| `Batchers.CallsExactly` | src/util/Batcher.hh:52-84 | In every run: with items waiting exactly one call of the current generation is scheduled, two once a batcher with a latency has been full, and none without; a stale call fetches nothing |
| `Batchers.Batcher.Push` | src/util/Batcher.hh:52-70 | Adds the item and schedules what the model says, a second call when the batch is full |
| `Batchers.Batcher.Pop` | src/util/Batcher.hh:76-84 | Takes the whole batch and starts a new generation, or nothing if the call is stale |
| `Mailboxes.MutualExclusionAndOrder` | src/util/ThreadedMailbox.cc:105-122 | In every interleaving at most one call of a mailbox runs; calls begin in the order pushed; a mailbox with calls is about to be rescheduled, in the scheduler queue or running |
| `Mailboxes.QuietIsDone` | src/util/ThreadedMailbox.cc:143-156 | No lost work: with idle threads and an empty scheduler queue every call has run |
| `Mailboxes.AlwaysEnabled` | src/util/ThreadedMailbox.cc:213-228 | A scheduler thread that takes a mailbox always finds a call in it, and still finds that call when it has run |
| `Mailboxes.RunKeeps` | src/util/ThreadedMailbox.cc:208-228 | Pending reschedules, places in the scheduler queue and running threads of a mailbox add up to 1 if it has calls and to 0 if not |
| `Mailboxes.InTurn` | src/util/ThreadedMailbox.cc:105-122 | Whatever the threads do, the mailbox at position p of the scheduler queue has its call begun by the (p+1)th Begin |
| `Mailboxes.Channel.Push` | src/util/Channel.hh:79-91 | Appends unless closed, and says whether the queue was empty |
| `Mailboxes.Channel.PopNoWaiting` | src/util/Channel.hh:94-108 | Takes the first item if there is one, and says whether the queue is empty now |
| `Mailboxes.ThreadedMailbox.EnqueueCall` | src/util/ThreadedMailbox.cc:143-156 | The scheduler is told exactly when the mailbox was empty |
| `Mailboxes.ThreadedMailbox.PerformNextMessage` | src/util/ThreadedMailbox.cc:213-228 | Performs the first call, drops it, and reschedules exactly if calls are left |

## Left out

- Compression (zlib, flush modes, the kCompressed flag): foreign library behaviour.
- The polynomial of CRC-32, and Fleece's slices, buffers and JSON encoder: byte strings, and an unsigned varint as the wire format defines it, stand in for them. An empty `alloc_slice` counts as present.
- A data source is the list of its future read results; negative results are not modelled.
- Wrap-around of 32-bit byte counters and of the batch generation: excluded by guards, or counted without bound.
- Reference counts, handlers and their dispatch, `Connection` and its states, logging and statistics, the heartbeat, timers and wall-clock timeouts, HTTP, TLS and sockets. `enqueueAfter` is the step `Enqueue` at any later moment.
- Progress reports other than the terminal ones of requests that expect a reply: their byte counts and the reports while a reply is received.
- Closing is not a step of the two-peer network; `Endings` covers it for one connection against any peer.
- `MessageBuilder`: integer properties, `makeError`, `jsonBody` and `reset`.
- `Scheduler::stop`, closed scheduler queues and the waiting of `Channel::pop`: the mailbox claims are for a running scheduler. `GCDMailbox` is not part of this model.
- `parseClosePayload` and the status codes of the close handshake; compressed WebSocket frames.
- WebSocketProtocols.WebSocketProtocol.Consume: says nothing of what the source does once a frame has made it read beyond its buffer (`overrun`).
- WebSockets.WebSocketImpl.OnReceive: the same.
- The copying of the spill inside `_consume`: `consume` has always emptied the spill before, so that branch is never taken.
- The reassembling half of `WebSocketImpl` is a class of its own, `Assembler`, so that the parser can call it.
- WebSockets.WebSocketImpl.SendOp: its buffer has room for every frame; what the source sends where its own has not (`WebSocketFrames.FrameFits`) has no meaning.
- MessagesIn.MessageIn.Received: requires a payload of at least four bytes, the only ones that the source reads within bounds.
- BlipConnection.BLIPIO.HandleFrame: after an error it states which messages are in the maps but not how far the message of the bad frame was read, because the connection closes; `ObjectLives.ObjectEndsRequests` holds all the same.
- BlipConnection.BLIPIO.OnFrame: the same.
- BlipConnection.BLIPIO.OnWebSocketMessages: the same.
- BlipConnection.BLIPIO.OnClosed: the same, for messages that are cancelled anyway.
- Mailboxes.ThreadedMailbox.PerformNextMessage: runs the two steps of a thread in sequence; what other threads do in between is in the step model.
- Theorems.AllAcked: states the bound for requests; for replies it is false, see `LostAcks.StuckIffUnheard`, and `ReplyTheorems.AllRepliesAcked` has it for the runs in which no ACK of a reply is lost.
