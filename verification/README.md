# privsep: a Dafny model of the IPC stack

The `privsep` crate splits a program into a privileged parent and unprivileged children that talk
over Unix socket pairs.  This project models the four parts that make this work, and proves what
they promise each other:

* **Control messages** (`privsep/src/net/ancillary.rs`).  `Ancillary` has the CMSG macros of
  section 20.3 of RFC 3542, over offsets into a byte buffer and with the platform differences as
  parameters (`Abi`), the layout of a well-formed buffer, and what the iterator yields on any
  bytes.  `ControlBuffer` has the in-place code: the append with its header walk, the
  `SocketAncillary` object and the iterators.
* **Messages on a stream** (`privsep/src/imsg.rs`, `privsep/src/net/fd.rs`).  `Kernel` is one
  direction of a stream socket with the descriptor barrier of unix(7).  `Imsg` has the header
  format, framing and sending.  `Receivers` is `recv_message` as a step system with any number of
  concurrent futures, each of which may be dropped where it waits.  `Descriptors`, `Drift`,
  `Lateness` and `Pairing` say where descriptors end up, for the assumptions in `Schedules`: reads
  that go as far as they can or reads of any size, with cancelled receives or without.  `Handler` has the object itself, whose methods are
  proved to be runs of that system and whose descriptors pass through `ControlBuffer`.
* **The connection table** (`privsep-derive/src/lib.rs`).  `Derive` is the symmetric closure of the
  declared connections and the generated rows of flags.
* **The handshake** (`privsep/src/process.rs`).  `Handshake` is a step system of the parent, its
  children and one queue of messages per child, with its invariant; `Liveness` proves that it
  never gets stuck, always ends, and in which state.  `Process` has the parent's and the child's
  own loops, proved against the step system, and `StartUp` puts the two together: what the child's
  code makes of what the parent's code has sent.
* **All of it together.**  `EndToEnd` runs the handshake over byte streams and the receive loop and
  proves that it refines the handshake over queues; `Progress` that it ends; `ShortReads` exactly
  when a child can panic.

`Bytes` holds fixed-width integers and sequence facts.

## What the proofs found

These are properties one might expect that the code does not have on all inputs, with the exact
condition under which it has them.

* *Messages and their descriptors.*  A receiver that reads alone gets every message with its own
  descriptor, over all arrival times, **if and only if** (`Pairing.PairingIff`)
  * with reads that go as far as the barrier rule and the 65535-byte slice let them, as Linux does:
    no message with a descriptor follows a message without one that is shorter than the maximal
    65535 bytes, whether or not receives are cancelled;
  * with reads of any size and no cancelled receive: no message but the first has a descriptor;
  * with reads of any size and cancelled receives: no message has a descriptor.

  If the first k messages have a descriptor each, full reads return each of them with its own,
  whatever bytes and descriptors are sent after them (`Pairing.FirstReceives`).
* *The handshake and short reads.*  No run of the handshake over byte streams panics a child if and
  only if reads go as far as they can or no child waits for more than one connect
  (`ShortReads.NeverPanicsIff`).  The refinement, the end and the end state are proved for both.
  Framing, conservation and order do not need either.
* *Late descriptors.*  For any number of receivers and any whole messages whose descriptors differ,
  some run returns a descriptor with a later message than its own if and only if there are two
  receivers and a message other than the last has a descriptor (`Lateness.LateIff`).  Neither
  short reads nor cancelled receives are needed for it, or add to it.
* *Self-connections.*  The derive macro accepts a child that lists itself.  The parent skips the
  pair and the child waits for it forever: the handshake can complete if and only if no child
  lists itself (`Liveness.CompletesIffNoSelf`, `Liveness.DerivedHandshakeCompletes`).
* *Echoing a header.*  Sending back a received header, as the example services do, works if and only
  if the received message had no payload (`Imsg.EchoIffUnitPayload`): the length field is added
  to, not set.  A send from a length field of at least 16 leaves a frame on the stream if and only if
  it returns `Ok`; after any other outcome that wrote something the receiver has lost track
  (`Imsg.FrameIffSent`).  A header whose length field is below 16 is sent with `Ok`
  exactly when the kernel cut the message short (`Imsg.SmallerLengthFieldSendsAPart`).
* *Reserved ids.*  The doc comment at `privsep/src/imsg.rs:232` says that ids 0 to 10 are
  reserved; the code refuses ids below 10 only.  The model follows the code.

## Model

| member | source | states |
|---|---|---|
| `Ancillary.AlignRoundsUp` | privsep/src/net/ancillary.rs:158 | CMSG_ALIGN, by repeated steps of the alignment, is the next multiple of any alignment in the sense of division with remainder. |
| `Ancillary.AlignedLenIsSpace` | privsep/src/net/ancillary.rs:158-217 | For every valid platform, aligning CMSG_LEN(n) gives CMSG_SPACE(n), which is aligned: the identity that makes CMSG_NXTHDR step exactly over one appended message. |
| `Ancillary.LinuxSpace` | privsep/src/net/ancillary.rs:158-217 | On 64-bit Linux data starts at 16, CMSG_LEN(n) is 16 + n, and CMSG_SPACE(n) is the least multiple of 8 that is at least that. |
| `Ancillary.LinuxNext` | privsep/src/net/ancillary.rs:466-481 | On 64-bit Linux and any bytes: the walk goes on from a header to n exactly if the header's length covers it, n is the next multiple of 8 behind what it claims, and there the next header and what it claims, rounded up, fit the buffer. |
| `Ancillary.FieldsOfRecord` | privsep/src/net/ancillary.rs:213-233 | In any surroundings, the length, level, type and data slice read back at an appended message's offset are those written. |
| `Ancillary.NextOfRecord` | privsep/src/net/ancillary.rs:197-199 | CMSG_NXTHDR from a message gives null if nothing follows it and otherwise, when what follows is acceptable, exactly the message's end. |
| `Ancillary.FdsRoundTrip` | privsep/src/net/ancillary.rs:257-271 | Reading descriptor units back from their bytes gives the same list, negative values included. |
| `Ancillary.CredsRoundTrip` | privsep/src/net/ancillary.rs:257-271 | The same for 12-byte credential units. |
| `Ancillary.HeadersAdvance` | privsep/src/net/ancillary.rs:446-486 | On any buffer contents whatever, header offsets strictly increase, so iteration ends; where CMSG_NXTHDR peeks, no header after the first claims bytes behind the buffer. |
| `Ancillary.SlicesAreDisjoint` | privsep/src/net/ancillary.rs:446-486 | On any contents, a visited header and all the bytes its length claims end before every later visited header. |
| `Ancillary.WellFormedIffInBounds` | privsep/src/net/ancillary.rs:414-416 | Iteration yields no slice that leaves the buffer if and only if every visited header's length covers its own header and ends inside the buffer. |
| `Ancillary.ParseLayout` | privsep/src/net/ancillary.rs:443-488 | Iterating from the start of laid-out messages, at any offset, yields exactly those messages in order. |
| `Ancillary.RoundTrip` | privsep/src/net/ancillary.rs:393-488 | On every platform variant, what iteration yields on a laid-out buffer is the list of messages laid out, and the buffer is well-formed. |
| `Ancillary.HeadersOfLayout` | privsep/src/net/ancillary.rs:443-488 | On every platform variant, header i of laid-out messages is found right behind the first i messages. |
| `Ancillary.ClassifyByConstants` | privsep/src/net/ancillary.rs:418-432 | Level 1 with type 1 is a descriptor message, with type 2 a credentials message; anything else is reported as unknown with its level and type. |
| `ControlBuffer.ZeroedHeaderEndsTheWalk` | privsep/src/net/ancillary.rs:201-206 | At the zeroed tail CMSG_NXTHDR returns null, or the same pointer on platforms that do that: the two ways the loop can end. |
| `ControlBuffer.LastHeader` | privsep/src/net/ancillary.rs:195-211 | The header walk ends on both conventions, always on the offset that was the length before the call, never on null. |
| `ControlBuffer.AddToAncillaryData` | privsep/src/net/ancillary.rs:140-236 | Succeeds exactly if the data length fits 32 bits and the padded message fits the buffer; then the buffer is the layout of the old messages and the new one, bytes behind it untouched; a refused call changes neither buffer nor length. |
| `ControlBuffer.SocketAncillary.constructor` | privsep/src/net/ancillary.rs:538-544 | A new object holds no messages. |
| `ControlBuffer.SocketAncillary.AddFds` | privsep/src/net/ancillary.rs:624-633 | Appends one SCM_RIGHTS message with these descriptors, or changes nothing; success exactly when it fits. |
| `ControlBuffer.SocketAncillary.AddCreds` | privsep/src/net/ancillary.rs:643-652 | Appends one SCM_CREDENTIALS message with these credentials, or changes nothing; success exactly when it fits. |
| `ControlBuffer.SocketAncillary.Clear` | privsep/src/net/ancillary.rs:697-700 | Forgets all messages. |
| `ControlBuffer.SocketAncillary.GetMessages` | privsep/src/net/ancillary.rs:562-567 | The iterator will yield exactly the messages added since creation or `clear`, in order, and its buffer is well-formed. |
| `ControlBuffer.TypedRoundTrip` | privsep/src/net/ancillary.rs:393-434 | An added descriptor or credential message is classified as that kind, with the same units. |
| `ControlBuffer.OneFdRecord` | privsep/src/net/ancillary.rs:213-233 | The 24 bytes of a one-descriptor message on 64-bit Linux: length 20, SOL_SOCKET, SCM_RIGHTS, the descriptor, four bytes of padding. |
| `ControlBuffer.OneCredRecord` | privsep/src/net/ancillary.rs:643-652 | The 32 bytes of a credentials message: length 28, SOL_SOCKET, SCM_CREDENTIALS, pid, uid, gid, four bytes of padding. |
| `ControlBuffer.OneFdOffsets` | privsep/src/imsg.rs:105-111 | On 64-bit Linux one-descriptor messages lie at multiples of 24, where the walk finds them, and a 128-byte buffer holds exactly five. |
| `ControlBuffer.Messages.Next` | privsep/src/net/ancillary.rs:446-487 | One call yields the first of the remaining items and leaves the rest; at the end it keeps returning none. |
| `ControlBuffer.DataIter.Next` | privsep/src/net/ancillary.rs:260-270 | Exactly if a whole unit is left, reads the typed unit from its bytes and drops those from the front; otherwise returns none and changes nothing. |
| `ControlBuffer.CollectUnits` | privsep/src/net/ancillary.rs:257-271 | Reading descriptors until the iterator ends yields exactly the whole units of the data, in order. |
| `ControlBuffer.CollectRights` | privsep/src/imsg.rs:174-178 | The receiver's nested loops, over messages and over the units of each, obtain exactly the descriptors of all SCM_RIGHTS messages, in order. |
| `ControlBuffer.AllAddedRights` | privsep/src/imsg.rs:174-188 | For every succession of `add_fds` and `add_creds`, what the receiver's loops obtain is all the descriptor lists put together, in order; credentials contribute nothing. |
| `ControlBuffer.AllRightsAppend` | privsep/src/imsg.rs:174-188 | The descriptors of two runs of items, whatever they are, are those of the first followed by those of the second. |
| `Kernel.TakeConserves` | privsep/src/imsg.rs:165-172 | A read of any size splits the unread bytes and the unread descriptors into what it returns and what remains, in order (the barrier rule of unix(7)). |
| `Kernel.TakeShape` | privsep/src/imsg.rs:165-172 | What a read delivers in descriptors is the descriptor list of exactly one segment, the last one it touches; only that segment can be left split, and then without descriptors. |
| `Imsg.HeaderRoundTrip` | privsep/src/imsg.rs:216-229 | The 16-byte header decodes to the header that was encoded. |
| `Imsg.HeaderBytesRoundTrip` | privsep/src/imsg.rs:143-147 | Any 16 bytes are the encoding of the header they decode to. |
| `Imsg.HeaderLayout` | privsep/src/imsg.rs:216-229 | Every field of the header lies little-endian and unpadded at its offset in the C struct: 0, 4, 6, 8 and 12. |
| `Imsg.SplitStream` | privsep/src/imsg.rs:143-152 | However much of the stream is buffered, nothing is split off before its first frame is complete, and then exactly that frame, leaving the rest of the stream. |
| `Imsg.SendOutcomes` | privsep/src/imsg.rs:83-122 | Which of closed, unserializable, too long and I/O error a refused send reports, in this order; it succeeds only on an open handler, with a payload that serializes and fits, and with the whole length written, and it leaves nothing on the stream unless the kernel reports bytes written. |
| `Imsg.SentIffWholeFrame` | privsep/src/imsg.rs:89-122 | From a header with length field at least 16, a send returns `Ok` if and only if the field was 16, the total fits 16 bits and everything was written; one whole frame with the sender's pid and the true length is then on the stream. |
| `Imsg.FrameIffSent` | privsep/src/imsg.rs:113-122 | What a send leaves on the stream is a frame if and only if the send returned `Ok` with a whole header written; from a length field of at least 16, if and only if it returned `Ok`. |
| `Imsg.SmallerLengthFieldSendsAPart` | privsep/src/imsg.rs:92-120 | From a smaller length field, `Ok` means exactly that the kernel cut the message short by the difference. |
| `Imsg.SendReceiveRoundTrip` | privsep/src/imsg.rs:89-198 | For every serializer with decode after encode the identity: what a successful send wrote is split off whole, with id, flags, peer id unchanged, pid and length filled in, and decodes to the value sent. |
| `Imsg.NewMessageArrives` | privsep/src/imsg.rs:239-258 | A message made by `new` arrives with its id, flags 0, peer id 0, the sender's pid, the true length and its payload; one made by `connect` with id 1 and the peer's id. |
| `Imsg.NewHeaderIsComplete` | privsep/src/imsg.rs:239-247 | A new header is the one its creator sends with an empty payload. |
| `Imsg.EchoIffUnitPayload` | privsep/examples/simple.rs:83-92 | Sending a received header back succeeds, and writes a frame, if and only if the received message had no payload. |
| `Imsg.EchoesForever` | privsep/examples/simple.rs:83-92 | A message without payload can be echoed any number of times: every echo is accepted and received, and only the pid changes. |
| `Receivers.EveryRunDelivers` | privsep/src/imsg.rs:140-198 | For any number of receivers, all segment and read sizes, cancellations, and decode failures: returned frames, buffer and unread bytes make up the bytes sent, and the completed receives returned the sent frames in order, each once. |
| `Receivers.SplitIsNextFrame` | privsep/src/imsg.rs:149-152 | Whatever a completing receive splits off, before it looks at the payload, is exactly the next frame sent: a payload that fails to decode costs its own frame only. |
| `Receivers.RunConservesBytes` | privsep/src/imsg.rs:140-189 | Every run of the step system keeps frames returned, then buffer, then unread equal to the bytes sent. |
| `Receivers.RunDeliversInOrder` | privsep/src/imsg.rs:140-189 | From any state in which it holds, every run keeps the returned frames a prefix of the frames sent. |
| `Receivers.RunBoundsBuffer` | privsep/src/imsg.rs:143-172 | The read buffer never holds more than 131069 bytes, and fewer than 65535 whenever a read is due, whatever the headers say. |
| `Receivers.DropLosesNothing` | privsep/src/imsg.rs:164-168 | A future can be dropped before its first poll and whenever it waits for the socket; that closes the descriptor it holds and touches neither the stream nor the buffer. |
| `Descriptors.EveryRunConservesFds` | privsep/src/net/fd.rs:33-45 | Over all runs with any number of receivers and on all exits, each received descriptor is held by one unfinished receive, returned once or closed once. |
| `Descriptors.StepConservesFds` | privsep/src/imsg.rs:174-198 | The same for each single step, including end of stream, errors and dropped futures. |
| `Descriptors.EveryRunReturnsInOrder` | privsep/src/imsg.rs:169-198 | A single receiver returns descriptors in the order they were sent. |
| `Drift.SingleReceiverIsNeverLate` | privsep/src/imsg.rs:136-198 | With one receiver and whole messages, receive j returns message j, and a descriptor it returns was sent with message j or a later one. |
| `Lateness.ReturnsMessage` | privsep/src/imsg.rs:140-189 | With any number of receivers, receive j returns message j. |
| `Lateness.LateIff` | privsep/src/imsg.rs:140-189 | For any number of receivers, all read sizes, with or without cancelled receives, and any whole messages with different descriptors: some run returns a descriptor with a later message if and only if there are two receivers and a message other than the last has a descriptor. |
| `Pairing.PairingIff` | privsep/src/imsg.rs:136-198 | With one receiver, every schedule returns every message with its own descriptor if and only if: for full reads, no descriptor follows a shorter-than-maximal message without one; for reads of any size, only the first message has one, or none if receives may be cancelled. |
| `Pairing.FirstReceives` | privsep/src/imsg.rs:136-198 | With full reads, if the first k segments sent are whole messages with one descriptor each, the first k receives that complete return each message with its own, whatever follows and however often receives are cancelled. |
| `Pairing.Mispaired` | privsep/src/imsg.rs:140-189 | For every stream that breaks the full-read condition, a run with full reads and no cancelled receive in which some message is returned with a descriptor not its own. |
| `Pairing.ShortReadsMispair` | privsep/src/imsg.rs:174-188 | For every stream that breaks the condition for reads of any size, a run in which some message is returned without its own descriptor. |
| `Handler.Handler.SendMessage` | privsep/src/imsg.rs:64-74 | Exactly the ids below 10 are refused as reserved, with the stream untouched; anything else has the outcome of the send function. |
| `Handler.Handler.SendMessageInternal` | privsep/src/imsg.rs:77-123 | The result and the segment left on the stream are those of the send function, with the descriptor parsed back out of the control buffer; `Ok` means open, serialized, fitting and accepted by the kernel; a send refused before or by the kernel leaves the stream untouched; the full-buffer error cannot occur. |
| `Handler.Handler.ReadOnce` | privsep/src/imsg.rs:155-188 | One await, read and descriptor loop on the object is the step system's read. |
| `Handler.Handler.RecvMessage` | privsep/src/imsg.rs:126-199 | The whole method is a run of the step system that uses awaits one by one, each read in turn and none while a complete message is buffered.  It returns the first complete message as soon as there is one, with its descriptor, or an error if the payload does not decode; otherwise it ends exactly as the next await says: end of stream, read error, or dropped if there is none left.  What has been sent grows by exactly the arrivals of the awaits used. |
| `Handler.Handler.AwaitMessage` | privsep/src/imsg.rs:140-189 | The loop: it stops exactly at the first await that finds a complete message buffered, or that is not a read. |
| `Handler.AwaitReads` | privsep/src/imsg.rs:164-172 | An await with anything in the socket reads at least one byte of it, and appends what it reads to the buffer in stream order. |
| `Handler.ReceivesWhatArrives` | privsep/src/imsg.rs:126-199 | A receive on an empty socket that then gets a message in one piece uses that one await and returns this message, header, first descriptor and payload. |
| `Handler.RoomForDescriptors` | privsep/src/imsg.rs:155-156 | The 128-byte control buffer has room for 28 descriptors of one read, and for no more. |
| `Handler.KeepFirst` | privsep/src/imsg.rs:174-188 | Of the descriptor held and those read, in this order, the first is kept and all others are closed, in order. |
| `Derive.ClosureIsLeastSymmetric` | privsep-derive/src/lib.rs:129-142 | The closure is symmetric, contains the declarations, and lies in every symmetric relation that does. |
| `Derive.MirrorAll` | privsep-derive/src/lib.rs:129-142 | The nested loops compute that closure for every iteration order, or name an undeclared target. |
| `Derive.Close` | privsep-derive/src/lib.rs:118-142 | Collecting and closing succeeds if and only if every declared target is a variant. |
| `Derive.DeriveMatrix` | privsep-derive/src/lib.rs:118-228 | Children are flagged for each other exactly if one declares the other; the matrix is symmetric, and free of self-connections exactly if no child declares itself. |
| `Handshake.PairIffFlag` | privsep/src/process.rs:218-237 | The parent connects a and b exactly when a waits for b. |
| `Handshake.AcceptPanicsIff` | privsep/src/process.rs:343-354 | A child panics exactly at a message whose id is not 1, that has no descriptor, or that names a peer it does not wait for; otherwise that peer, and no other, is taken from the wait set and gets the descriptor. |
| `Handshake.KidAccepts` | privsep/src/process.rs:342-355 | The next message for a child that listens is an awaited connect, and taking it keeps the child's share of the invariant. |
| `Handshake.StepKeepsInv` | privsep/src/process.rs:239-248 | Every step of parent or child keeps the invariant. |
| `Handshake.RunKeepsInv` | privsep/src/process.rs:216-355 | The invariant holds in every reachable state, for every order of pairs and steps. |
| `Liveness.WaitSetIsQueuedOrUnsent` | privsep/src/process.rs:335-354 | In every reachable state no child has panicked, and its wait set is the disjoint union of the peers in its queue and those not yet sent. |
| `Liveness.NeverStuck` | privsep/src/process.rs:239-355 | While anyone waits, a handshake step is enabled, even if every queue holds at most one message. |
| `Liveness.FiveStepsPerPair` | privsep/src/process.rs:239-355 | No run takes more than five handshake steps per pair, and it has finished exactly when it has taken them all. |
| `Liveness.EndState` | privsep/src/process.rs:239-248 | At the end children a and b hold opposite ends of one socket pair exactly if the matrix connects them, and the parent has closed every end. |
| `Liveness.SocketsAreDistinct` | privsep/src/process.rs:240 | Different pairs of children use different sockets. |
| `Liveness.CompletesIffNoSelf` | privsep/src/process.rs:228-340 | With a symmetric matrix the handshake can complete if and only if no child is connected to itself. |
| `Liveness.DerivedHandshakeCompletes` | privsep-derive/src/lib.rs:183-197 | For the matrix of any declarations: it can complete if and only if no child declares itself. |
| `Liveness.PairsAreWaitSets` | privsep/src/process.rs:218-340 | The children paired with a by the parent are the wait set of a. |
| `Liveness.TwicePairsIsSumOfWaitSets` | privsep/src/process.rs:218-340 | Twice the number of pairs is the sum of all wait set sizes. |
| `Process.Spawn` | privsep/src/process.rs:133-213 | Fails without privileges, and on a table that does not start with the parent; otherwise a peer is usable exactly if its process is to be connected, by its own socket. |
| `Process.Parent.ConnectPair` | privsep/src/process.rs:240-247 | One loop body is three steps of the system, after which this pair is done and both ends are closed. |
| `Process.Parent.Connect` | privsep/src/process.rs:216-251 | The loop, for any pair order, is a run of the system that ends with nothing left to send and nothing open, each child having been sent a connect for exactly its wait set. |
| `Process.TakeConnect` | privsep/src/process.rs:343-354 | Panics exactly when the step system's child does, and otherwise updates wait set and peer table like it. |
| `Process.NewChild` | privsep/src/process.rs:270-362 | For every sequence of received messages, ends of stream and errors, the child ends ready, waiting, panicked or failed exactly as the step system's child would, with the same table, having taken messages only while it waited. |
| `Process.StreamIsTakenOrQueued` | privsep/src/process.rs:239-248 | In every run, what was queued for a child and sent to it is what it has taken, then what is queued, in order. |
| `StartUp.KidAbsorbs` | privsep/src/process.rs:342-355 | In every run, a child's state is what its own code makes of the packets it has taken, each taken while it listened. |
| `StartUp.UsableIffConnected` | privsep/src/process.rs:104-115 | Once the parent is done, `Child::new` on all that the parent has sent it, with anything behind it, ends ready; using a peer then does not panic if and only if it is the parent or the row says connected. |
| `StartUp.OppositeEnds` | privsep/src/process.rs:240-247 | Two connected children started this way have the opposite ends of one socket pair in their tables. |
| `EndToEnd.StepRefines` | privsep/src/process.rs:342-355 | Every step over byte streams is one step over queues or none, and keeps the invariant. |
| `EndToEnd.WireHandshakeRefinesQueues` | privsep/src/imsg.rs:140-198 | With full reads, or reads of any size if no child waits for more than one connect: every run of the handshake over byte streams and the receive loop is a run over queues of messages with their descriptors, whatever the parent's program sends after the connects, messages cut short included, and no child panics. |
| `ShortReads.NeverPanicsIff` | privsep/src/imsg.rs:164-188 | That condition is exact: no run panics a child if and only if reads are full or no child waits for more than one connect. |
| `Progress.WireNeverStuck` | privsep/src/imsg.rs:140-189 | Under the same condition some handshake step is enabled over byte streams until the handshake has finished. |
| `Progress.WireHandshakeEnds` | privsep/src/process.rs:342-355 | Under the same condition, and whatever the parent's program sends in between, no run has more than fifteen handshake steps per pair and two per process with full reads, or the same with a read for each byte; one that cannot continue has finished. |
| `EndToEnd.WireEndState` | privsep/src/process.rs:342-355 | Where such a run over byte streams has finished, two children hold opposite ends of one socket pair exactly if the matrix connects them, and the parent holds none. |
| `EndToEnd.WireSocketsAreDistinct` | privsep/src/process.rs:240 | There, too, different pairs of children use different sockets. |

## Left out

- Process creation and privileges: fork, execve, sessions, chroot, user and group changes, signals, `daemon`, `set_cloexec`, and the `assert!(M <= N)` on table sizes.
- I/O failures while the parent connects, and `Fd::is_open` in the child: the handshake's sends succeed and its descriptors are open.
- Process ids and indices that do not fit 32 bits: `Message::connect` truncates; the wire handshake is for at most 2^32 processes.
- `Handler::shutdown`: only its flag, as an early error; what closing an owned descriptor does is up to the system.
- The readiness and retry code of `privsep/src/net/stream.rs`: a read or write is one step of the kernel model, at the await.
- The serializers: any partial encode and decode; in the wire handshake a unit payload always decodes.
- Buffer capacity (`reserve`, `advance_mut`): the bound on the contents is proved, not the allocation.
- A `sendmsg` that the kernel splits into several segments (it is one segment here), and descriptor lists the kernel truncates because they exceed the receiver's control buffer (28 per segment at most here).
- Descriptor renumbering between processes and `Fd::duplicate`: a descriptor is an identity that moves.
- Arrivals between two awaits of one receive are in the `RecvMessage` method; other receivers running between its iterations are in the step system only.
- Control-message payloads whose CMSG_SPACE exceeds 32 bits, address wrap-around in CMSG_NXTHDR, and platforms that differ in more than the `Abi` parameters (the order or padding of the header fields).
- What a child's program receives once its start-up is over: the wire handshake follows each stream until its child stops listening; `Receivers` and `Handler` are about any use.
- The rest of the derive macro: attribute parsing, case conversion, the check for a `Parent` variant, quoting.
- The `log` crate, the getters of `SocketCred`, the example programs beyond their echo.
