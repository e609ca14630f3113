# memif: shared-memory rings and their handshake, modelled and proved

memif connects two processes, a slave and a master, by packet rings in a memory region that the slave
allocates, and by a control channel on which the slave describes that region to the master. This
project models the Go implementation in `memif-new/memif` and proves what it keeps, over every
interleaving of the two peers, every run of the handshake and every sequence of life-cycle events.

## How it is built

The data path has three levels.

* `memory.dfy`, `queue.dfy`: the region as an array of bytes. Class `Queue` has the code's `WritePacket` and
  `ReadPacket`, loops over descriptors and all. Each is proved to do exactly what a run of steps does on
  the slots that the bytes encode, and to touch no byte outside its ring and buffers.
* `ring.dfy`: the same two calls as step machines on slots, one shared access a step (load an index, fetch
  or store a descriptor, copy to or from a buffer, publish an index), with every 16-bit truncation of the code.
* `system.dfy`, `invariant.dfy`, `fifo.dfy`: the two machines interleaved arbitrarily; history variables hold
  unbounded counters and the packets sent and delivered. An invariant kept by every step gives the
  FIFO refinement, ownership of slots and capacity of posted buffers.
* `calls.dfy`: what one call of either kind does while the peer goes on with anything it likes.

`layout.dfy` and `setup.dfy` do the slave's layout arithmetic, with the widths of the code, and
`initializeQueues` on bytes, and connect them to the initial state of the rings. `sharing.dfy` says what
comes of giving the two rings of a pair the same buffers; `duplex.dfy` puts both rings into the bytes of
one region, interleaves all four peers, and proves both rings FIFOs if their buffers are apart.

The control path: `messages.dfy` is the codec of the 128-byte frames; `control.dfy` says as a function what
one end does with one event, and `effects.dfy` says the same of each message field by field; `handshake.dfy`
composes two ends, either free to disconnect or vanish at any moment; `world.dfy` says what one event does to
all of a socket's interfaces and channels, and `socket.dfy` has the classes `Socket`, `Interface` and
`ControlChannel`, whose methods are proved to do just that and to keep the socket valid.

## What holds, and where the code falls short

* S2M and M2S rings are FIFOs of what each written packet turns into (`Fifo.FifoRefinement`). As written, a
  packet longer than one buffer turns into its first buffer's worth repeated, because `packet_writer.go:77`
  copies from `pkt[:]`. `Fifo.AsWrittenPayload` says exactly which packets survive; `Config.corrected`
  selects the corrected source `pkt[n:]`, and with it all do (`Fifo.FifoCorrected`). No corrected variant
  is used unless a name or a `requires` says so.
* The 16-bit `packetBufferOffset` (`interface.go:361`) is the end of the rings exactly when that end is below
  2^16 (`Layout.BuffersStartAfterRings`); one queue pair needs rings of at most 2^10 slots.
* `initializeQueues` places descriptors right exactly for queue 0 (`Layout.DescriptorsArePlacedRightForQueueZero`).
  So data-path claims start from queue 0 (`Setup.QueueZeroStartsEmpty`).
* The S2M and the M2S ring of queue 0 are given the same buffers, slot by slot; other slots have buffers apart
  from each other exactly if the last buffer offset, computed in 32 bits, does not wrap
  (`Sharing.BuffersOverlapExactly`).
* So the two directions of a pair do not work together: `Sharing.APacketIsLost` and `Sharing.AChunkIsLost` are runs
  that lose a packet, the one unread, the other not even published yet. `Sharing.CopyLeavesIntact` is the exact
  condition, copy by copy and at any moment: copying bytes into a slot leaves the other ring intact, whatever the
  bytes, if and only if that slot holds neither unread bytes of the other ring nor a chunk of a write under way there.
  Every run of the four peers without a copy into such a slot keeps both rings FIFOs
  (`Duplex.SharedAreFifosWithoutClash`). `Sharing.CrossTalk` is what can be told from the indices at a call's
  entry: for a call that nobody disturbs, and about packets published by then.
  The FIFO theorems of `Fifo` and `Calls` are about one ring whose buffers nobody else writes. With the receive base
  corrected (`Duplex.CorrectedBase`, labelled so), the buffers are apart and both rings are FIFOs under every
  interleaving, without a condition (`Duplex.BothAreFifos`, from the region of `Duplex.CorrectedRegion`).
* `ReadPacket` panics on a caller's slice if and only if the last buffer of the oldest unread packet begins beyond
  it (`Calls.PanicsExactly`; `Calls.EmptySlicePanics` is a case); a last buffer that is merely too long is cut,
  while the count returned is the whole packet's.
* With several pairs, `initializeQueues` stores beyond the rings. It panics exactly if the last store starts
  beyond the region (`Setup.InitializeQueues`, `Setup.StoresEndInside`), which takes buffers of less than 8 bytes.
* `setDescLength` stores 16 bits; capacity is restored for certain exactly for buffers below 2^16 bytes
  (`Fifo.RefillRestores`), which is assumed of M2S rings.
* `parseHello` overwrites the S2M limit of the peer (`control_channel.go:508-509`). The negotiated count is within
  it if and only if the slave is configured within it or the M2S limit is no larger
  (`Control.NegotiatedWithinLimits`, with a failing Hello in `Control.S2MLimitIsLost`). Peers running this code send
  255 for both.
* The master's interface is unfit for another connection exactly if it closes between the region message
  and the last one, since `disconnect` fails on a region that is not mapped yet
  (`Handshake.WhoIsFitAfterClosing`, `Sockets.Interface.UserDisconnect`). A handshake refused for too few
  queue pairs ends there.
* A slave told of a disconnect still sends the next message of its queue into the closed channel
  (`Handshake.SlaveToldGone`).
* Two calls are accepted that the socket's bookkeeping does not survive: a connection request of an interface
  that has a listed channel, and an Init on a channel that has an interface. Exactly these
  (`Sockets.Interface.RequestConnection`, `Sockets.ControlChannel.HandleMessage`).
* A hang-up before the master has bound an interface dereferences a nil interface, and nothing else in any
  run does (`Handshake.PanicsOnlyOnEarlyHangUp`).

## Assumptions

Both peers run this code. Memory is sequentially consistent, the machine little-endian, 16-bit accesses
atomic. Descriptor and buffer accesses are single steps; `Fifo.NoSlotIsContended` is why nothing is lost by
that. There is one region, as in the code, whose ring structs always name region 0. Rings have at most
2^15 slots. System calls other than unmapping an unmapped region, and user callbacks, succeed. Error texts
are parameters.

## Model

| member | source | states |
|---|---|---|
| Fifo.FifoRefinement | memif-new/memif/packet_reader.go:24-91 | after any interleaving of writer and reader steps, either direction, what was read is in order the payloads of the first packets published; no read ends in the incomplete-chain error |
| Fifo.FifoCorrected | memif-new/memif/packet_writer.go:22-95 | with the corrected slice at line 77, packets of any length: delivered is a prefix of sent, byte for byte |
| Fifo.FifoAsWritten | memif-new/memif/packet_writer.go:22-95 | as written, if every submitted packet fits one buffer: delivered is a prefix of sent, byte for byte |
| Fifo.AsWrittenPayload | memif-new/memif/packet_writer.go:54-80 | as written, a packet arrives unchanged iff it fits one buffer or is its own first buffer's worth repeated whole; the count returned is its length iff it fits one buffer or fills its last, and never less |
| Fifo.CorrectedPayload | memif-new/memif/packet_writer.go:54-80 | with the corrected slice the concatenation of all chunks is the packet |
| Fifo.SentWereSubmitted | memif-new/memif/packet_writer.go:22-95 | no run publishes a packet that no caller submitted |
| Calls.EveryReadReturnsOldest | memif-new/memif/packet_reader.go:24-91 | in any reachable state, whatever both peers do until the call returns: ReadPacket hands out the packet that was the oldest unread at its entry, or nothing exactly if there was none, moves its index past exactly that packet, and on the slave ends with head = lastTail + size |
| Calls.EveryWriteSendsIffItFits | memif-new/memif/packet_writer.go:22-95 | in any reachable state, whatever both peers do until the call returns: WritePacket publishes iff ceil(len/C) (1 for an empty packet) is at most the slots free at its entry, then moves its index by exactly that; otherwise it returns 0 and nothing published has changed. Unread cells stand and free slots keep offset, region and capacity either way |
| Fifo.ReadReturnsOldest | memif-new/memif/packet_reader.go:24-91 | the same of the sequential run that ReadPacket on bytes is proved equal to: the result, the private index and the published one, for a call during which the writer rests |
| Fifo.WriteSendsIffItFits | memif-new/memif/packet_writer.go:28-95 | the same of the sequential run that WritePacket on bytes is proved equal to, for a call during which the reader rests |
| Fifo.FinishWriteSends | memif-new/memif/packet_writer.go:56-90 | a write that finishes while the reader rests keeps the invariant, whether it publishes or is given up, so a retry starts from an equivalent state |
| Fifo.FinishReadReturns | memif-new/memif/packet_reader.go:58-88 | a read that finishes while the writer rests ends idle with the packet it is bound to return and every consumed slot posted again |
| Fifo.FinishReadIsReaderRun | memif-new/memif/packet_reader.go:24-91 | the interleaved reader, left alone, does what the sequential ReadPacket does |
| Fifo.FinishWriteIsWriterRun | memif-new/memif/packet_writer.go:22-95 | the interleaved writer, left alone, does what the sequential WritePacket does |
| Fifo.NoSlotIsContended | memif-new/memif/packet_writer.go:43-83 | in every reachable state the next accesses of the two peers are to different slots |
| Fifo.WriterSlotIsFree | memif-new/memif/packet_writer.go:43-83 | the writer touches only posted, unpublished slots |
| Fifo.ReaderSlotIsNotFree | memif-new/memif/packet_reader.go:47-86 | the reader touches only published unread slots, and refills only consumed slots not posted again; never a slot the writer may take |
| Fifo.MasterCapacity | memif-new/memif/packet_writer.go:47-54 | the capacity the master takes from a descriptor is the slave's buffer size, after any writes, aborted chains and refills |
| Fifo.MasterStaysWithinLengths | memif-new/memif/packet_writer.go:47-78 | over any descriptors whatever, a write of the master stores nothing beyond the length that each descriptor had at its entry |
| Fifo.RefillRestores | memif-new/memif/memif_unsafe.go:48-50 | the 16-bit length store restores every length up to the buffer size iff that size is below 2^16 |
| RingInvariant.RunKeeps | memif-new/memif/packet_writer.go:22-95 | the ring invariant (chains whole, window intact, capacities whole, indices residues of unbounded counters) holds after any run |
| RingInvariant.NextKeeps | memif-new/memif/packet_reader.go:24-91 | every action of either peer keeps the ring invariant |
| RingInvariant.CountFree | memif-new/memif/packet_writer.go:28-36 | WritePacket's 16-bit free count is the true number of posted, unpublished slots, and its capacity premises hold |
| RingInvariant.CountUnread | memif-new/memif/packet_reader.go:34-45 | ReadPacket's 16-bit unread count is the true number of published, unconsumed slots |
| RingInvariant.ReleaseStartsRefill | memif-new/memif/packet_reader.go:75-83 | publishing the reader's index keeps the history, and the slave's 16-bit refill count is exactly the slots up to lastTail + size |
| RingInvariant.ReadCopyAdvances | memif-new/memif/packet_reader.go:58-72 | copying a buffer appends the next chunk of the packet being read; the unread count never runs out inside a chain |
| RingInvariant.PutAdvances | memif-new/memif/packet_writer.go:56-90 | storing a filled descriptor completes one cell of the packet and either ends the chain, goes on, or gives up with all capacities whole |
| RingInvariant.RefillAdvances | memif-new/memif/packet_reader.go:83-86 | the refill's 16-bit store makes one more consumed slot whole again |
| RingInvariant.RefillLeavesWriter | memif-new/memif/packet_reader.go:83-86 | refilling disturbs nothing that a write under way relies on |
| RingInvariant.TouchLeavesReader | memif-new/memif/packet_writer.go:62-84 | a writer's store disturbs nothing that a read under way relies on |
| RingInvariant.LocalSlot | memif-new/memif/packet_writer.go:63-67 | masking the untruncated local slot selects the slot of the unbounded counter, across the 65535 to 0 wrap, and truncating it publishes that counter's residue |
| Bits.MaskIsMod | memif-new/memif/packet_writer.go:23 | bitwise and with 2^k - 1 is the remainder modulo 2^k |
| Bits.SameWordSameSlot | memif-new/memif/packet_reader.go:25 | counters with equal low 16 bits select equal slots in every ring of up to 2^16 slots |
| Queues.Queue.WritePacket | memif-new/memif/packet_writer.go:22-95 | on the bytes of the region: returns and leaves what the slot-level run does, and changes no byte outside this ring and its buffers |
| Queues.Queue.ReadPacket | memif-new/memif/packet_reader.go:24-91 | on the bytes: result, private index and region are those of the slot-level run; the caller's slice has the bytes copied, cut to its length, and beyond them what it held, also on an error or a panic; it panics iff some buffer of the chain before the last one taken ends beyond the slice; an error or a panic leaves all state; the other index and every byte outside this ring's indices, descriptors and buffers stay |
| Queues.ReadTakesOneChain | memif-new/memif/packet_reader.go:47-72 | whatever the ring holds, a read takes the buffers up to the first one without the chain flag and returns their bytes |
| Queues.ErrorExactlyIfChainEndless | memif-new/memif/packet_reader.go:58-61 | and it is the incomplete-chain error iff every unread descriptor has the flag |
| Calls.PanicsExactly | memif-new/memif/packet_reader.go:58-68 | in any reachable state with no read under way: the panic of the row above happens iff there is an unread packet and (ceil(len/C) - 1) * C of the oldest one exceeds the caller's slice |
| Queues.Queue.Refill | memif-new/memif/packet_reader.go:79-87 | the slave's refill loop on the bytes does what the slot-level steps from release to repost do |
| Queues.Queue.GetDescBuf | memif-new/memif/memif.go:158-160 | copies out as many of the descriptor's sixteen bytes as lie in the region, and keeps the rest of the buffer |
| Queues.Queue.PutDescBuf | memif-new/memif/memif.go:163-165 | stores as many of the sixteen bytes as lie in the region, and nothing elsewhere |
| Queues.Queue.ReadHead | memif-new/memif/memif_unsafe.go:25-28 | the little-endian word at the head field |
| Queues.Queue.ReadTail | memif-new/memif/memif_unsafe.go:31-34 | the little-endian word at the tail field |
| Queues.Queue.WriteHead | memif-new/memif/memif_unsafe.go:37-40 | stores the low 16 bits at the head field, nothing elsewhere |
| Queues.Queue.WriteTail | memif-new/memif/memif_unsafe.go:43-46 | stores the low 16 bits at the tail field, nothing elsewhere |
| Queues.Queue.SetDescLength | memif-new/memif/memif_unsafe.go:48-50 | stores only the low 16 bits of the length field |
| Queues.SetFlags | memif-new/memif/memif.go:187-189 | changes the flags field of a descriptor, to 16 bits of the value, and no other field |
| Queues.SetLength | memif-new/memif/memif.go:195-197 | changes the length field only, to 32 bits of the value |
| Queues.SetOffset | memif-new/memif/memif.go:199-201 | changes the offset field only, to 32 bits of the value |
| Queues.OnlyGrows | memif-new/memif/packet_reader.go:58-72 | a packet being read never gets shorter, so a chain that overran the caller's slice panics or errs, and returns nothing short |
| Memory.DescRoundTrip | memif-new/memif/memif.go:138-205 | reading back an encoded descriptor gives its five fields |
| Memory.RingFormat | memif-new/memif/memif.go:138-224 | byte by byte: head at 6, tail at 64, descriptors of 16 bytes from 128 on with flags, region, length, offset and metadata at 0, 2, 4, 8 and 12, little-endian |
| Setup.HeaderFormat | memif-new/memif/memif.go:218-224 | byte by byte: a fresh header is cookie 0x3E31F20 at 0, flags 1 at 4, zero at 6 and at 64 |
| Memory.StoreDesc | memif-new/memif/memif.go:163-165 | storing a descriptor's bytes changes that slot of the slot-level view and nothing else |
| Memory.StoreChunk | memif-new/memif/packet_writer.go:77 | copying a chunk into a slot's buffer overwrites that buffer's start and changes nothing else of the ring |
| Memory.StoreLength | memif-new/memif/memif_unsafe.go:48-50 | the 16-bit store replaces the low half of one descriptor's length and changes nothing else |
| Memory.StoreHead | memif-new/memif/memif_unsafe.go:37-40 | publishing head changes that index alone |
| Memory.StoreTail | memif-new/memif/memif_unsafe.go:43-46 | publishing tail changes that index alone |
| Layout.RingsTile | memif-new/memif/memif.go:252-269 | the 2*NQ rings are disjoint and cover exactly the bytes below 2*NQ*(128 + 16*2^log2) |
| Layout.RingPlaces | memif-new/memif/memif.go:260-266 | S2M ring k lies at k*(128 + 16*2^log2), M2S ring k at (NQ + k) times that |
| Layout.RegionSizeIs | memif-new/memif/interface.go:360-370 | with or without overflow, the region's size is the 16-bit end of the rings and the buffers of (2*NQ mod 2^16) rings, in 32 bits |
| Layout.BuffersStartAfterRings | memif-new/memif/interface.go:360-364 | the 16-bit packetBufferOffset is the end of the rings iff that end is below 2^16, else it lies inside the rings |
| Layout.OnePairBound | memif-new/memif/interface.go:361 | with one pair: iff log2 is at most 10 |
| Layout.RegionIsRingsAndBuffers | memif-new/memif/interface.go:366-370 | without overflow the region's size is the rings and one buffer per slot of every ring |
| Layout.BuffersInside | memif-new/memif/interface.go:357-370 | without overflow every packet buffer lies above all rings and inside the region |
| Layout.DescriptorsArePlacedRightForQueueZero | memif-new/memif/interface.go:439-443 | initializeQueues stores a slot's descriptor at its place iff the queue is 0; otherwise beyond the ring |
| Sharing.BuffersOverlapExactly | memif-new/memif/interface.go:439-465 | of the descriptors that initializeQueues leaves in the bytes of queue 0: slot by slot the two rings name the same buffers, and different slots, of either ring, name buffers apart iff packetBufferOffset + (size - 1) * bufferSize is below 2^32 |
| Sharing.WriteFills | memif-new/memif/packet_writer.go:53-83 | a whole write call that no other peer disturbs, successful or given up, copies the first min(N, free) chunks to as many free slots' buffers and changes no other buffer byte |
| Sharing.CopyLeavesIntact | memif-new/memif/packet_writer.go:54-78 | for a ring in any reachable state, calls of both peers under way or not: copying a nonempty chunk of a given length into slot t from outside keeps the ring's invariant, whatever its bytes, iff t holds neither unread bytes nor a chunk of the write under way |
| Sharing.CrossTalk | memif-new/memif/packet_writer.go:53-83 | for two rings over the same buffers and an undisturbed call: every write of a given length leaves the packets that the other ring had published at its entry intact iff it is going to use no slot that holds unread bytes of the other ring, as told by the indices and lengths before the call |
| Sharing.APacketIsLost | memif-new/memif/interface.go:441-464 | a run of both directions of one pair from their initial states in which a packet sent by the slave is read by the master as one of its own |
| Sharing.AChunkIsLost | memif-new/memif/interface.go:441-464 | a run in which the same happens to a chunk that the slave has copied and not published, though nothing was unread when the master's write began |
| Duplex.BuffersShared | memif-new/memif/interface.go:441-464 | in the bytes of the region, with the code's layout: whatever one ring's peers store, the other ring keeps indices and descriptors and has the same buffers |
| Duplex.SharedAreFifosWithoutClash | memif-new/memif/packet_writer.go:53-83 | the layout as written, in the bytes of one region: after any interleaving of all four peers' steps in which no copy of bytes hits a slot that the other ring holds something in, each ring's reads have handed out, in order, what the first packets sent on it turn into |
| Duplex.BothAreFifos | memif-new/memif/packet_reader.go:24-91 | two rings with buffers apart in the bytes of one region: the same after any interleaving whatever of all four peers' steps |
| Duplex.EveryActionIsPossible | memif-new/memif/packet_writer.go:22-95 | every action of the four-peer system can be taken in the region, by stores inside the ring's own bytes |
| Duplex.CorrectedLayoutIsApart | memif-new/memif/interface.go:357-370 | with the corrected receive base the two rings of queue 0 and their buffers are apart and fit the region that the code allocates; with the code's own base the buffers are always the same |
| Duplex.CorrectedRegion | memif-new/memif/interface.go:445-466 | from the region that initializeQueues leaves, with only the M2S descriptors of queue 0 given the corrected base: both rings are apart and in the initial state |
| Setup.InitializeQueues | memif-new/memif/interface.go:412-470 | on any region: panics iff the last store for some ring starts beyond it; otherwise, if the region holds the rings, every ring has its header (cookie, flags, zero indices) and queue 0 of either direction all its descriptors |
| Setup.StoresEndInside | memif-new/memif/interface.go:412-470 | in the region of addRegion, without overflow: no store starts beyond it iff 8*((NQ-1)*size - 1) is at most NQ*bufferSize*size, and none reaches beyond it iff 8*(NQ-1) is at most NQ*bufferSize |
| Setup.FreshRegion | memif-new/memif/interface.go:357-470 | from nothing to the rings: a zeroed region of addRegion's size after initializeQueues, without overflow, panics exactly by that condition and else holds queue 0 of either direction in the initial state of the interleaved system |
| Setup.PutRing | memif-new/memif/memif.go:272-274 | stores a fresh ring header and nothing outside it |
| Setup.InitRing | memif-new/memif/interface.go:422-443 | one turn of a queue loop panics iff its last store starts beyond the region, and else leaves the header, every descriptor that lies wholly in the region, and every byte below the ring |
| Setup.QueueZeroStartsEmpty | memif-new/memif/interface.go:412-470 | without overflow, queue 0 of either direction is an empty ring whose descriptors each offer their own whole buffer |
| Messages.RoundTrip | memif-new/memif/control_channel.go:453-812 | every message parses back from its encoding followed by arbitrary padding to 128 bytes |
| Messages.WireFormat | memif-new/memif/memif.go:38-136 | byte by byte: type numbers 1 to 8 and the place of every field, little-endian and packed |
| Messages.ParsedIsEncoded | memif-new/memif/control_channel.go:812-927 | a frame that parses starts with the encoding of what it parses to |
| Messages.FrameCarriesOneMessage | memif-new/memif/memif.go:89-136 | no frame carries two messages |
| Handshake.Agreement | memif-new/memif/control_channel.go:628-694 | in every reachable state with both ends connected: the master's end is an offered master interface with the slave's id, running with its own numbers; the slave runs with the lesser of its own and the Hello's 255 and 14, and its own buffer size; each side's receive rings are the other's transmit rings index by index in type, size and offset, NQ of each, where the layout puts them; both hold exactly one region, of equal size and mapped; each knows the other's names |
| Handshake.FirstFrame | memif-new/memif/control_channel.go:517-538 | in every run, the first frame to reach the master is, byte by byte, an Init of version 2.0 with the slave's own id, a zero secret and its application's name, or the news that the slave is gone |
| Handshake.TurnTaking | memif-new/memif/control_channel_unsafe.go:28-35 | while neither end has gone, exactly one message is in flight until both are connected, and none after |
| Handshake.Completes | memif-new/memif/control_channel.go:812-918 | an undisturbed handshake within the master's limits connects both ends with message number 4*NQ + 7 and not before |
| Handshake.OutcomeIff | memif-new/memif/control_channel.go:540-573 | an undisturbed handshake connects iff some free master interface has the slave's id, and the first such has no secret and at least as many pairs as the slave negotiates |
| Handshake.Fails | memif-new/memif/control_channel.go:676-678 | otherwise the master closes on the first message it cannot take (with too few queue pairs, the S2M ring whose index is its NQ) and tells the slave, which closes |
| Handshake.NeverConnected | memif-new/memif/control_channel.go:540-573 | and then no run whatever, disturbed or not, connects both ends |
| Handshake.RunKeeps | memif-new/memif/control_channel.go:285-330 | the handshake invariant holds after any run of deliveries, disconnects and hang-ups |
| Handshake.MasterTakes | memif-new/memif/control_channel.go:812-927 | a master that took k messages of the slave's script takes the next and answers, or at its limit closes and says so |
| Handshake.PanicsOnlyOnEarlyHangUp | memif-new/memif/control_channel.go:289-308 | in no run does the slave use a missing interface, and the master does exactly on a hang-up before it has taken the Init |
| Handshake.WhoIsFitAfterClosing | memif-new/memif/control_channel.go:398-427 | at any point, before the Hello, in the handshake and connected, a closing slave is as new; a closing master that has bound an interface is iff it has not taken the region message or is connected |
| Control.NegotiatedWithinLimits | memif-new/memif/control_channel.go:506-512 | negotiated NQ and log2 are the lesser of the slave's own and the peer's M2S and size limits, the buffer size is its own; the peer's S2M limit is kept iff the slave is configured within it or the M2S limit is no larger |
| Effects.HelloSays | memif-new/memif/control_channel.go:467-478 | the Hello sent: version 2.0, 255 regions and pairs, log2 14, the application's name |
| Effects.ScriptSays | memif-new/memif/control_channel.go:836-868 | the slave's messages, one by one and field by field: Init with its id, its regions, its transmit rings as S2M and receive rings as M2S, numbered from 0, Connect with its name |
| Effects.HelloDoes | memif-new/memif/control_channel.go:493-515 | a Hello is taken iff version 2.0 is within its limits; then the numbers, the region and every ring of the interface, and the messages queued, are these; else the channel closes and says so |
| Effects.InitDoes | memif-new/memif/control_channel.go:540-574 | an Init is taken iff version and secret fit and there is an interface; that is then bound, with its own numbers and the peer's name |
| Effects.AddRegionDoes | memif-new/memif/control_channel.go:600-626 | an unmapped region of this size is appended, iff the index is at most 255 |
| Effects.AddRingDoes | memif-new/memif/control_channel.go:662-694 | a ring of this kind, size and offset is appended to the receive queues if S2M, else to the transmit queues, iff the index is below NQ |
| Effects.ConnectDoes | memif-new/memif/control_channel.go:714-772 | all regions are mapped, the peer's name is taken, the channel is connected; a Connect is answered with the interface's own name |
| Effects.DisconnectDoes | memif-new/memif/control_channel.go:795-810 | the channel closes; if a region cannot be unmapped the queue is dropped and the peer told, else the next queued message still goes out |
| Effects.HangUpDoes | memif-new/memif/control_channel.go:289-308 | a hang-up closes the channel and says nothing, and panics iff there is no interface |
| Effects.PanicsWithoutInterface | memif-new/memif/control_channel.go:812-918 | which messages dereference a missing interface |
| Worlds.MessageStaysOnItsChannel | memif-new/memif/control_channel.go:219-234 | of all of a socket's channels and interfaces, a message changes the channel it came on, that channel's interface and the one an Init binds, as the event function says, and no other |
| Worlds.FirstFreeIsFirst | memif-new/memif/control_channel.go:554-557 | an Init is given the first interface in the list that has the id, is a master's and has no channel |
| Worlds.CandidateIsFirstOffer | memif-new/memif/control_channel.go:554-571 | which is the one that the handshake theorems offer it |
| Sockets.Interface.InitializeQueues | memif-new/memif/interface.go:412-470 | appends NQ rings per direction at the offsets of the layout |
| Sockets.Interface.Connect | memif-new/memif/interface.go:473-507 | maps every region that is not mapped, changes nothing else but the peer's name, and reports what the cookie comparison and the callback, given as a parameter, come to |
| Sockets.Interface.Disconnect | memif-new/memif/interface.go:198-236 | drops queues, regions and channel, or, with a region unmapped, only the queues |
| Sockets.Interface.UserDisconnect | memif-new/memif/interface.go:189-195 | keeps the socket valid; disconnects the interface iff its channel was listed, and frees it iff moreover all regions are mapped; tells the peer |
| Sockets.Interface.RequestConnection | memif-new/memif/interface.go:274-298 | refused for a master; otherwise a new listed channel bound to the interface; the socket stays valid iff the interface had no listed channel |
| Sockets.ControlChannel.SendMsg | memif-new/memif/control_channel_unsafe.go:28-35 | takes exactly the oldest queued message, if any |
| Sockets.ControlChannel.EnqueueScript | memif-new/memif/control_channel.go:836-868 | queues Init, the regions, NQ S2M rings, NQ M2S rings and Connect, in that order |
| Sockets.ControlChannel.Close | memif-new/memif/control_channel.go:400-427 | leaves the list, tells the peer if asked, disconnects the interface; the error cases exactly; socket stays valid |
| Sockets.ControlChannel.ParseInit | memif-new/memif/control_channel.go:540-574 | binds exactly the first free master interface with the id, iff version and secret fit; no other interface changes; the socket stays valid iff the channel does not get a second interface |
| Sockets.ControlChannel.HandleMessage | memif-new/memif/control_channel.go:285-330 | channel, interface and what goes out are those of the event function, or a missing interface is dereferenced exactly when it says so; no other interface changes; the socket stays valid iff no second Init is accepted |
| Sockets.ControlChannel.HandleDisconnect | memif-new/memif/control_channel.go:795-810 | on a received Disconnect, including the failed close that answers with a Disconnect of its own |
| Sockets.ControlChannel.HandleHangUp | memif-new/memif/control_channel.go:289-308 | closes without a message, then dereferences a missing interface iff there is none; the socket stays valid |
| Sockets.Socket.NewInterface | memif-new/memif/interface.go:303-333 | refused iff an interface with this Id and this role exists; otherwise appends an idle interface whose configured numbers are kept and whose zeros become 1 pair, log2 10 and 2048 bytes |
| Sockets.Socket.Accept | memif-new/memif/control_channel.go:254-273 | a new listed channel without an interface, and a Hello sent |
| Sockets.Socket.HandleEvent | memif-new/memif/control_channel.go:219-331 | what polling finds changes the channel it names as the event function says, and its interface, and sends what that says; no other channel or interface changes |
| Sockets.Socket.Meet | memif-new/memif/interface.go:189-345 | the same of the user's calls: creation, connection request, disconnect |
| Sockets.Socket.Serve | memif-new/memif/control_channel.go:99-128 | any sequence of creations, requests, accepts, messages, hang-ups and disconnects has, until a panic ends it, the effects of its events one after another on all interfaces and channels, and sends just what they send; all along (Id, role) pairs are unique, listed channels and interfaces paired one to one, unpaired interfaces without anything left of earlier connections |
| Sockets.CandidateIsIdle | memif-new/memif/control_channel.go:553-573 | the interface an Init is given is the first in the list that is a master with that id and has no channel, it is idle, and there is none iff there is no such interface |

## Left out

- `memif-attach` and `_examples`: glue around libraries and command lines.
- epoll, eventfd, memfd, mmap, descriptor passing: an abstract reliable ordered channel of frames, and an array of bytes.
- Interrupts (`interrupt`, ring flags after set-up): wake-up only, no effect on ring contents.
- Hardware memory ordering and torn reads: sequential consistency is assumed.
- `Socket.Delete`, `Interface.Delete`, listener set-up and removal: list surgery that the handshake does not depend on.
- Sockets.ControlChannel.HandleMessage: `connect()` is taken to succeed here; `Setup.InitializeQueues` shows that the headers hold the cookie, and the callback is the user's.
- Sockets.Interface.Connect: the comparison of the ring headers' cookies and the callback are one parameter.
- Handshake.Agreement: one connection of two interfaces that are idle at its start, and two sockets are not composed over many; `Sockets.Socket.Serve` is about one socket. An interface that closed with a region unmapped is not idle, and no handshake is claimed for it.
- Sockets.Socket.Serve: `Interface.Delete` and `Socket.Delete` are not among the events; passes over requests of an interface that has a listed channel and Inits on a channel that has an interface, which are exactly what would end validity.
- Setup.InitializeQueues: queues above 0 are promised their header only, as their descriptors are stored elsewhere; event descriptors are not modelled.
- Fifo.FifoRefinement: one ring at a time, for queue 0; other queues have no usable descriptors, and the other direction of the pair must not clash with it (`Duplex.SharedAreFifosWithoutClash`).
- Queues.Queue.WritePacket: the contract ties the bytes before and after a call; that the accesses in between come in the order of the steps of `ring.dfy` is by correspondence of the two texts.
- Handshake.OutcomeIff: the candidate interface stays free until the Init arrives; a second slave racing for it is not composed.
- Non-conforming peers, and the secret a slave would send: it always sends zeros.
- Queues.Queue.ReadPacket: the two descriptor-and-copy passages of the source are one method `Take`, and those of the writer one method `Fill`.
