# NetXen NIC driver: protocols and data structures

A Dafny model of the parts of the NetXen 10G Ethernet driver that are protocols rather than
register access, with proofs of what they keep. Ring sizes, thresholds and numbers of pollers
or functions are parameters everywhere; the shipped constants are instances.

| file | subject |
|---|---|
| `Circular.dfy`, `Bits.dfy`, `Multisets.dfy`, `Options.dfy` | ring positions, masks, conservation, options |
| `PexqLayout.dfy`, `Pexq.dfy` | the PexQ doorbell queue: batch enqueue, completion requests, doorbells, flow control |
| `PendingCmds.dfy`, `TxPackets.dfy`, `TxRing.dfy` | the transmit ring shared by packets, firmware commands, the overflow queue and reclaim |
| `RxPosting.dfy` | returning receive buffers to the card, as an interleaved step system |
| `StatusRing.dfy` | the status ring parser |
| `MacFilter.dfy` | MAC filter synchronisation |
| `DeviceReset.dfy` | the device state register and the recoveries that claim it |
| `WordBytes.dfy`, `MemAgent.dfy` | byte access to card memory through an 8-byte agent |
| `HashTable.dfy`, `MemPool.dfy`, `LroKeys.dfy`, `LroTable.dfy`, `LroRace.dfy` | the LRO flow table, alone and under interleaving |
| `BounceAllocator.dfy` | the bounce-page allocator |

Rings are specified against logs that only grow: entry i of a log is in slot i mod n, and
`Circular.Window` says which part of the log is still intact in the ring. Code that updates
state in place is a class whose methods are proved against functions of the old state; the
protocols whose steps interleave, receive posting, device reset and the LRO table, are state
machines over their locked sections and unlocked accesses, with theorems about all runs.

## How rings are shared

Senders on the transmit ring hold the transmit lock and reclaim does not. The state of a sender
between two of its writes is the predicate `Ahead`; every step of reclaim and of the card has
it as pre- and postcondition, for arbitrary half-written contents. `Adapter.Meanwhile` is any
number of such steps, and every sender calls it between any two of its writes: command by
command, and within a packet descriptor by descriptor. Senders test their room against an index
that may be older than the current one (`ReadEarlier`).

On the status ring the card writes while the parser runs. `CardMayWrite` is any number of its
writes, and the parser calls it before every message, between its look at the first and at the
last descriptor, between any two descriptors it hands back, and before each of the two words a
handler reads in a descriptor that has been handed back.

## Assumptions about the environment

- The card consumes descriptors in order and never beyond the announced producer.
- The card publishes only completion indices requested by syncs that have been rung.
- The card reports only receive handles it has fetched and not yet reported.
- The card writes status descriptors in order and at any time, into slots it owns, with legal descriptor counts: a chained LRO message has 2 to 7 descriptors, a queue message at most 5. Whether it also stays within one turn of the consumer register is a parameter of the ring; only the chained LRO messages depend on it.
- The card responds to LRO requests only for flows it has been asked for and has not responded for since.
- Only one reclaim of the transmit ring runs at a time (`tx_cpu_excl`, `driver/unm_nic_main.c:6902-6906`).
- Spin locks make their sections atomic; kernel allocation succeeds or fails arbitrarily, as a parameter.
- Filter commands succeed. The API lock is always obtained. PCI error recovery resumes a function only when every function has come through slot_reset; the theorems on device reset say what holds without that.

## Where the code does not do what it is for

- Memory agent: the mask for the second word of a spanning write is inverted (`driver/unm_nic_hw.c:1600`, and line 1412 of its 128M twin). It keeps the bytes to be replaced, which are then or-ed with the data, and clears the bytes to be kept. Writes within one word are plain byte writes; spanning ones are so exactly under the condition of `MemAgent.PlainWriteExactlyWhen`. Reads are right everywhere.
- LRO keys: the IPv4 comparator ignores the source address while the hash uses it. A flow that differs only in its source address is present or absent depending on its bucket, and a card response may free the entry of another source (`LroKeys.OtherSourceIsFreed`, exactly when: `FreedExactlyWhen`, `OtherSourceFreedExactlyWhen`). Node ownership does not depend on it.
- LRO rollback: when a request fails, the driver deletes by key and frees its own node without comparing the two. If the entry has been removed in between, as by the removal of its context, the node is freed twice (`LroRace.NodeIsFreedTwice`, exactly when: `RunOwnsExactlyWhen`).
- LRO teardown: it does not wait for callers between two locked sections, and then reaches the BUG of the node pool (`LroRace.TeardownTooEarly`, exactly when: `TeardownHitsBugExactlyWhen`).
- Chained LRO messages: the first descriptor is handed back to the card before the handler reads it (`driver/unm_nic_main.c:7934` and 7946). On a full ring the slot is the card's next one, and the handler may read the wrong message (`StatusRing.ChainedHeadIsOverwritten`, `FullRingOverwrites`, exactly when: `RightWithinLimitExactlyWhen`). With a card that respects the consumer register `StatusRing.StatusRing.Process` is right for all messages.
- Hash table: only the comparison with the last entry survives the insertion loop, so buckets do not stay sorted (`HashTable.BucketBecomesUnsorted`, exactly when: `StaysDescendingExactlyWhen`); uniqueness of keys is unaffected.
- MAC filter: a multicast list that contains the own or the broadcast address makes the card lose it later (`MacFilter.ListedTwiceIsLost`, exactly when: `StaysInSyncExactlyWhen`).
- Bounce pages: a run that starts before the first free page of the queue and reaches beyond it is not found (`BounceAllocator.StraddlingRunIsReached`, exactly when: `FailedSearch`). Pages of a fragment behind its array of 24 are never returned (`BounceAllocator.VmkBounce.FreeFrag`); the call for linear data (`driver/unm_nic_main.c:5648`) does not check the number.
- Device state: the first function to be resumed makes the register READY while others still wait for their resume (`DeviceReset.OverlapBeforeResume`, exactly when: `NoOverlapUntilResumeExactlyWhen`). A watchdog that gives up on a transmit timeout leaves TX_TIMEOUT in the register, where it stays (`TimeoutIsLeft`, exactly when: `GivenUp`).
- PexQ: a batch of more than 8(t-1) messages can never be sent, whatever the card does (`PexqLayout.TooLargeIsNeverAdmitted`); with thresholds above 95 the log of four doorbells can also be too short (`FourDoorbellsAreNotEnough`, exactly when: `Pexq.PexqDbell.Schedule`).

## Model

| member | source | states |
|---|---|---|
| `Pexq.PexqDbell.Schedule` | driver/nx_pexq.c:159-279 | A batch is rung whole or refused whole. On success the ring stream grows by exactly the user messages in order with syncs interleaved and the doorbells rung announce that range once, in order, each but the last full or ending with the buffer. Refusal leaves stream, accepted messages and doorbells as they were. For every threshold success holds exactly when the batch fits under the pending limit and its doorbells fit the four-entry log; up to 95 (32 is shipped) the first condition implies the second, and from 11 to 95 the "free count is 0" and "too many doorbells" failures never occur. |
| `Pexq.PexqDbell.Prepare` | driver/nx_pexq.c:181-245 | The enqueue loop ends for any request size; whatever its outcome the pending slots are intact; on success its local index, counters and doorbell log are those of the new stream, with fewer than the maximum pending. |
| `Pexq.PexqDbell.PutMessage` | driver/nx_pexq.c:195-209 | One turn writes the next entry of the layout: a sync exactly when the free counter says so, which is exactly at the sync positions, and never two in a row. |
| `Pexq.PexqDbell.LogMessage` | driver/nx_pexq.c:210-233 | The doorbell log announces all messages but those in the open segment; a segment closes at the buffer end or at 255; the loop gives up only at the pending limit or at the fourth closing. |
| `Pexq.PexqDbell.Commit` | driver/nx_pexq.c:248-264 | Taking over the local copies and ringing the log keeps the queue invariant: index, counters, phase, and doorbells covering the whole stream from position 0. |
| `Pexq.PexqDbell.UpdatePending` | driver/nx_pexq.c:89-132 | Taking over completions keeps new_idx = compl_idx + pending and free + pending = N; it reports progress exactly when the card had published something new, across the index wrap. |
| `Pexq.PexqDbell.CardPublish` | driver/nx_pexq.c:63-86 | Any completion the card may publish, on request of a rung sync, is again a multiple of the threshold and keeps the invariant. |
| `Pexq.AnnounceAppend` | driver/nx_pexq.c:254-264 | Doorbells of consecutive batches together announce the concatenated range once and in order. |
| `PexqLayout.LayoutCarriesBatch` | driver/nx_pexq.c:186-234 | The messages written for a batch are its user messages in order, with syncs exactly at positions t-1 mod t, each asking for the index after its own. |
| `PexqLayout.FreeCountFindsPhase` | driver/nx_pexq.c:196-198 | The mask test on the free counter selects exactly the positions t-1 mod t of the message stream. |
| `PexqLayout.UserAtPosition` | driver/nx_pexq.c:195-212 | User message number u of the whole life of the queue is at stream position u + u/(t-1). |
| `PexqLayout.LayoutLength` | driver/nx_pexq.c:186-234 | Closed form of the number of slots a batch takes, syncs included, from any starting position. |
| `PexqLayout.AdmissionRule` | driver/nx_pexq.c:215-241 | A non-empty batch fits exactly when the user messages of the eight completion periods from the last completion have room for it. |
| `PexqLayout.NoWedge` | driver/nx_pexq.c:89-245 | With t messages pending there is an unanswered sync; when all syncs are answered, fewer than t are pending and every batch of up to 7(t-1) messages is admitted. |
| `PexqLayout.TooLargeIsNeverAdmitted` | driver/nx_pexq.c:215-241 | A batch of more than 8(t-1) messages is refused in every state, however idle the card. |
| `PexqLayout.AdmittedMeans` | driver/nx_pexq.c:213-241 | Both admission conditions, in terms of the messages the batch really puts into the ring; with thresholds up to 95 four doorbells are enough for every batch that fits. |
| `PexqLayout.ClosingStep` | driver/nx_pexq.c:210-232 | The closed-form count of doorbells closed, and of messages in the open one, follows the loop message by message across the buffer end. |
| `PexqLayout.FourDoorbellsAreNotEnough` | driver/nx_pexq.c:222-228 | Counterexample for a larger threshold: a batch of 1013 messages fits and is refused for want of a doorbell entry. |
| `TxRing.Adapter.SendCmdDescs` | driver/unm_nic_main.c:8535-8620 | A batch of 1 to 64 commands is accepted whole, to the ring when nothing is queued and it fits, else to the overflow queue, or refused whole; -EINVAL exactly for other sizes, -ENOMEM exactly when it must be queued and no block can be had. |
| `TxRing.Adapter.SendDirect` | driver/unm_nic_main.c:8589-8617 | The commands go to consecutive ring slots, whose packet slots are emptied, and the producer is announced after the last. |
| `TxRing.Adapter.ProcPending` | driver/unm_nic_main.c:8142-8192 | The drain moves whole blocks from the head of the queue to the ring in order; it stops only when nothing is left or the next block does not fit, 64 slots for a full one and as many as it holds for the one being filled; it makes progress exactly when there is a block that fits, and empties the queue whenever all of it fits. |
| `TxRing.Adapter.DrainBlocks` | driver/unm_nic_main.c:8163-8185 | The drain loop writes whole blocks in order until the next one does not fit, by the same measure. |
| `TxRing.Adapter.EmptyRingDrains` | driver/unm_nic_main.c:8142-8192 | When the card has caught up and anything is queued, the next block fits, so the drain makes progress. |
| `TxRing.Adapter.NothingWritten` | driver/unm_nic_main.c:8187-8189 | The test "producer unchanged" means no block was written: a drain never goes a whole turn. |
| `TxRing.Adapter.XmitFrame` | driver/unm_nic_main.c:5532-5815 | Busy exactly when the tested room is too small; a sent packet is ceil(f/4) buffer descriptors and its header descriptors, appended to the ring, recorded once in its first slot; a dropped one (no carrier, or a failed mapping) changes no history. Holds with any steps of the card and of reclaim between any two of its writes. |
| `TxRing.Adapter.FillBuffers` | driver/unm_nic_main.c:5558-5778 | Writing the first descriptor and the fragments produces the packet layout behind the producer without disturbing what the card may still read; failing half way leaves everything announced intact. The half-written packet survives whatever the card and reclaim do between two writes. |
| `TxRing.Adapter.FillMore` | driver/unm_nic_main.c:5661-5778 | The fragment loop fills buffer after buffer into the packet layout, clearing a new descriptor at every fourth, with the card and reclaim at work between any two writes. |
| `TxRing.Adapter.PutHeaders` | driver/unm_nic_main.c:5238-5316 | Header descriptors follow the buffer descriptors, within the room tested, with the card and reclaim at work between any two writes. |
| `TxRing.Adapter.SendPacket` | driver/unm_nic_main.c:5798-5801 | Publishing a packet records it at its first slot and nothing at its other slots. |
| `TxRing.Adapter.CardTakes` | driver/unm_nic_main.c:8670-8672 | The card takes announced descriptors in order, and gets what was announced, even while a sender is half way through writing. |
| `TxRing.Adapter.ReclaimBegin` | driver/unm_nic_main.c:8670-8671 | Reading both indices without the lock is safe between any two writes of a sender. |
| `TxRing.Adapter.ReclaimOne` | driver/unm_nic_main.c:8672-8701 | One turn of reclaim frees exactly the packet recorded at its position, never touches the slot at the producer, and keeps both the ring invariant and the half-written state of a sender. |
| `TxRing.Adapter.ReclaimEnd` | driver/unm_nic_main.c:8703-8731 | Storing the reclaimed index widens the room of every sender and disturbs none; "all done" exactly when the card has nothing more to report. |
| `TxRing.Adapter.Meanwhile` | driver/unm_nic_main.c:8670-8731 | Any number of steps of the card and of reclaim, at any moment of a send, keep the announced ring and the half-written part of the sender, do not touch the sender's slot, and only widen its room. |
| `TxRing.Adapter.ProcessCmdRing` | driver/unm_nic_main.c:8658-8732 | A whole reclaim passes min(128, outstanding) positions and has then freed exactly the packets recorded before that point. |
| `TxRing.Adapter.Histories` | driver/unm_nic_main.c:8658-8732 | In every state: the commands the card has taken are a prefix of those accepted; the packets freed are a prefix of those accepted and lie before what the card has taken; outstanding slots hold exactly the rest and every other slot but the producer's holds none. |
| `TxRing.Adapter.SendersAndReclaimAreDisjoint` | driver/unm_nic_main.c:5548-5556 | No slot a sender may write within tested room is one reclaim may still clear, however old the consumer index it tested. |
| `TxRing.RoomTests` | driver/unm_nic_main.c:5548-5556 | Both room computations on slot numbers, across the wrap, mean: one slot of the ring stays empty. |
| `TxPackets.BufferPositions` | driver/unm_nic_main.c:5661-5776 | Buffer i is in slot i mod 4 of descriptor i div 4, and no other slot holds a buffer; the first descriptor and no other names the packet and its number of buffers. |
| `TxPackets.DescCountIsCeiling` | driver/unm_nic_main.c:5539-5540 | (f + 3) >> 2 descriptors are enough for f buffers and none of them is empty. |
| `TxPackets.NextBuffer` | driver/unm_nic_main.c:5661-5776 | Filling in one more buffer is the packet layout of one more buffer, with a new descriptor at every fourth. |
| `PendingCmds.Pending.QueueOne` | driver/unm_nic_main.c:8200-8233 | Appends one command to the waiting ones, moving the block to the list exactly when it is full; fails only without a block. |
| `PendingCmds.Pending.MakeAvailable` | driver/unm_nic_main.c:8238-8263 | Succeeds exactly when the current block has room, a free block exists or allocation succeeds; changes nothing that waits. |
| `PendingCmds.Pending.QueueList` | driver/unm_nic_main.c:8268-8289 | The whole batch is queued, or none of it, the latter exactly when no block can be had. |
| `PendingCmds.Pending.Dequeue` | driver/unm_nic_main.c:8113-8135 | Hands out the oldest block exactly when all of it fits; what waits is that block followed by the rest. |
| `PendingCmds.Pending.constructor` | driver/unm_nic_main.c:8047-8053 | The queue starts empty. |
| `RxPosting.StepKeepsInv` | driver/unm_nic_main.c:7713-7833 | Every step of every poller and of the card keeps the invariant: each buffer in one place, at most one poster, counts equal list lengths, unfetched descriptors intact. |
| `RxPosting.RunKeepsInv` | driver/unm_nic_main.c:7713-7833 | The invariant holds after every interleaving of any number of pollers and the card. |
| `RxPosting.EachBufferInOnePlace` | driver/unm_nic_main.c:7713-7833 | In every reachable state each of the ring_size buffers is in exactly one of: shared list, a poller's list, the poster's list, posted, on the card; the posting flag is set exactly when there is a poster, and there is at most one; posted minus returned never exceeds the ring. |
| `RxPosting.NoOverwrite` | driver/unm_nic_main.c:7726-7777 | In every reachable state the slot about to be written holds no unfetched descriptor, the card fetches the handle posted under that number, and the doorbell names the slot before the announced end. |
| `RxPosting.RoomInRing` | driver/unm_nic_main.c:7726-7758 | While a buffer is in hand fewer than ring_size descriptors are unfetched; the code needs no room test. |
| `RxPosting.GiveBackStep` | driver/unm_nic_main.c:7759-7766 | After a failed allocation the remainder and its corrected count go back to the shared list without losing a buffer. |
| `RxPosting.LockElects` | driver/unm_nic_main.c:7808-7830 | The locked section of a poller: with no poster and at least one buffer, shared or its own, it becomes the poster with all of them in order, leaves the shared list empty and sets the flag; in every other case its buffers join the shared ones and it goes on. |
| `RxPosting.PostDirectElects` | driver/unm_nic_main.c:8799-8816 | The same for unm_post_rx_buffers, with the shared list alone; in every other case nothing changes. |
| `RxPosting.LookSees` | driver/unm_nic_main.c:7801-7804 | A poller goes to the lock exactly when there is a buffer on the shared list or its own. |
| `RxPosting.BuffersGoBackToCard` | driver/unm_nic_main.c:7713-7833 | Progress: in every reachable state with no poster and a buffer to post, any idle poller alone can post them, shared ones first, in order, announced to the last; if allocation fails after k, the others are on the shared list in order. |
| `RxPosting.SharedListGoesBackToCard` | driver/unm_nic_main.c:8789-8820 | The same through unm_post_rx_buffers. |
| `RxPosting.RoundPosts` | driver/unm_nic_main.c:7729-7780 | A poster can post any number of its buffers, in order; the rest go back in order, producer and doorbell are up to date and the flag is clear. |
| `RxPosting.PosterCanFinish` | driver/unm_nic_main.c:7758-7780 | Wherever a poster is, it can finish alone, leaving nothing unannounced and the flag clear. |
| `RxPosting.SinglePollerKeepsOrder` | driver/unm_nic_main.c:7713-7833 | With one poller the card gets its buffers back in the order in which it reported them, behind the initial ones, in every run and however often allocation fails. |
| `RxPosting.LockStep` | driver/unm_nic_main.c:7808-7830 | The locked section that splices, elects and takes keeps the invariant from any state of the other pollers. |
| `RxPosting.RingStep` | driver/unm_nic_main.c:7770-7778 | The masked doorbell value is the slot before the producer, out of order returns included. |
| `RxPosting.InitInv` | driver/unm_nic_main.c:2985-3018 | The initial free list holds every buffer once. |
| `Bits.PredecessorExactlyForPow2` | driver/unm_nic_main.c:7775 | (producer - 1) & (ring_size - 1) is the previous slot for all producers exactly when the ring size is a power of two. |
| `Bits.MaskIsRemainder` | include/nic_cmn.h:189-190 | Masking with size - 1 is the remainder for a power of two, as the ring macros demand. |
| `Circular.NextIsSuccessor` | include/nic_cmn.h:195 | get_next_index follows the remainder of the position plus one. |
| `Circular.SlotDistance` | driver/nx_pexq.c:106-110 | The wrap-corrected index difference is the number of positions between them. |
| `Circular.WindowPush` | driver/unm_nic_main.c:8593-8611 | Writing the next entry of a ring destroys none of the entries still needed while one slot is spare. |
| `StatusRing.StatusRing.Process` | driver/unm_nic_main.c:7862-8040 | With the card writing at any moment of the call: exactly the complete messages at the consumer are handled, in ring order and at most max, of what the card had written by the last look; they are the right messages, except that the first descriptor of a chained one is wrong if the card has come round to it, which a card that respects the consumer register never does. The saved consumer is again at a message boundary and each descriptor passed over has been returned once; the result is the number handled, cut to 1 when an incomplete chained message stops the loop. |
| `StatusRing.StatusRing.HandleMessages` | driver/unm_nic_main.c:7883-8025 | The loop stops at max messages or at one that is not complete when looked at, although the stream grows under it; what it handled are the messages of the stream so far, in all parts unless a handler was overtaken. |
| `StatusRing.StatusRing.HandleNext` | driver/unm_nic_main.c:7883-8025 | One turn of the loop handles the message at the consumer exactly when it is complete at that look, and keeps the state of the loop. |
| `StatusRing.StatusRing.TakeMessage` | driver/unm_nic_main.c:7884-8024 | A message is taken when its last descriptor is host-owned, with all its descriptors returned, and is the right one unless its handler was overtaken; an incomplete one is left untouched. |
| `StatusRing.StatusRing.TakeKind` | driver/unm_nic_main.c:7901-8021 | Each kind of message collects exactly the bodies of its own descriptors, with the owner test on its last descriptor; of a chained one the first descriptor is what its slot holds when the handler reads it. |
| `StatusRing.StatusRing.TakeChained` | driver/unm_nic_main.c:7912-7953 | The handler of a chained message gets the middle descriptors copied before, and the first one as its slot, handed back already, reads after whatever the card has written meanwhile; it is overtaken exactly when the card has come round to that slot. |
| `StatusRing.StatusRing.ReadHead` | driver/unm_nic_main.c:7530-7606 | Reading the two words of a descriptor handed back, at two moments: each is of that position or of the same slot a turn later, depending on what was written at that moment. |
| `StatusRing.RightWithinLimitExactlyWhen` | driver/unm_nic_main.c:7934-7947 | Every legal continuation leaves the right words in a slot handed back exactly when the card stays within one turn of it. |
| `StatusRing.FullRingOverwrites` | driver/unm_nic_main.c:7934-7947 | On every full ring with a chained message in front, the next descriptor the card writes, if it differs, is what the handler reads instead of the first descriptor. |
| `StatusRing.ChainedHeadIsOverwritten` | driver/unm_nic_main.c:7934-7947 | A concrete ring of eight on which that happens. |
| `StatusRing.StatusRing.TakeMiddle` | driver/unm_nic_main.c:7936-7994 | The middle descriptors of a long message, or their words, are copied in order and each is returned once. |
| `StatusRing.StatusRing.TakeQueue` | driver/unm_nic_main.c:7968-8000 | A long queue message gets header and words from its own descriptors as they were when its last one was seen, although they are handed back on the way. |
| `StatusRing.StatusRing.CardWrite` | include/nic_cmn.h:1142-1204 | The card appends a descriptor wherever it owns the next slot; the parser invariant is kept. |
| `StatusRing.StatusRing.CardMayWrite` | include/nic_cmn.h:1142-1204 | Any number of card writes at any moment only append to the stream, keep the view of what the parser has not passed over, and leave the words of a slot handed back until the card comes round to it. |
| `StatusRing.ParseInvertsConcat` | driver/unm_nic_main.c:7883-8025 | Parsing inverts concatenation: of whole messages, one after the other and perhaps followed by the beginning of another, exactly these messages are found and exactly their descriptors passed. |
| `StatusRing.ParseStopsAtLimit` | driver/unm_nic_main.c:7883 | With a smaller limit exactly the first messages are found. |
| `StatusRing.QueueMessageWords` | driver/unm_nic_main.c:7962-8010 | The words of a long queue message: header and first value from its first descriptor, two values in order from each further one but the last. |
| `StatusRing.OtherMessages` | driver/unm_nic_main.c:7901-8010 | All other kinds of message in terms of their descriptors: one descriptor, or for a chain all but the last, in order. |
| `StatusRing.WordsInOrder` | driver/unm_nic_main.c:7987-7994 | Reading on gives two words a descriptor, body[0] before body[1]. |
| `StatusRing.ParseInTwo` | driver/unm_nic_main.c:7883-8038 | Parsing in two calls is parsing in one: message boundaries do not depend on how calls are cut. |
| `StatusRing.ParseOfLonger` | driver/unm_nic_main.c:7883-8025 | Descriptors that arrive later do not change messages already complete. |
| `StatusRing.DoneGrows` | driver/unm_nic_main.c:7883-8025 | The state of a half-done call does not depend on what the card writes afterwards. |
| `StatusRing.ParseStop` | driver/unm_nic_main.c:7921-7933 | When the next message is incomplete, asking for more handles no more. |
| `StatusRing.PassOne` | driver/unm_nic_main.c:8022-8023 | Handing back a descriptor leaves all later host-owned ones as they are and makes its slot the card's. |
| `StatusRing.HostMeansWritten` | driver/unm_nic_main.c:7893-7899 | The owner bit of a slot tells exactly whether the card has written that position. |
| `MacFilter.Adapter.AddMacTo` | driver/unm_nic_main.c:5016-5055 | Keeps an old cell, finds an address already listed, or makes a new cell, as the list function says; -1 exactly when a new cell was needed and could not be had. |
| `MacFilter.Adapter.SetMultiList` | driver/unm_nic_main.c:5062-5123 | One call sends a removal for every cell left over and an addition for every new cell, removals first, frees exactly the cells left over, and sets the miss mode; the card filter afterwards is what these commands make of it. |
| `MacFilter.CommandsMakeTheFilter` | driver/unm_nic_main.c:5109-5121 | Replaying the commands of a call on the card gives the filter all theorems speak of. |
| `MacFilter.AskedFor` | driver/unm_nic_main.c:5076-5106 | Which mode each combination of flags and list length sets, and how often a call asks for each address: own and broadcast always, the list only in the dropping mode. |
| `MacFilter.AddAllTally` | driver/unm_nic_main.c:5076-5106 | Per address: cells kept, deleted and added, as functions of how often it was listed, is wanted and could be allocated. |
| `MacFilter.CellsConserved` | driver/unm_nic_main.c:5070-5121 | Every old cell is kept or freed, once; every other cell is newly made. |
| `MacFilter.SetMultiCounts` | driver/unm_nic_main.c:5062-5123 | What list and card filter hold for an address after a call, from any state before it. |
| `MacFilter.StaysInSyncExactlyWhen` | driver/unm_nic_main.c:5062-5123 | Card filter and list still agree after a call exactly when no mentioned address has more cells than mentions, whether or not allocation succeeds. |
| `MacFilter.ListedTwiceIsLost` | driver/unm_nic_main.c:5062-5123 | Counterexample to unconditional agreement: a multicast list that contains the own or the broadcast address, followed by one that does not; the address stays in the list and is removed from the card. |
| `MacFilter.MoreCellsThanMentions` | driver/unm_nic_main.c:5062-5123 | The whole failing family: an address mentioned less often than it has cells is lost by the card. |
| `MacFilter.AlwaysInSync` | driver/unm_nic_main.c:5062-5123 | Over any sequence of calls without repeats, failing allocations included, card and list agree and hold no address twice; if the last call could allocate they hold exactly the wanted addresses. |
| `MacFilter.CommandsAreTheDifference` | driver/unm_nic_main.c:5062-5123 | Without repeats the removals are exactly old minus new and the additions exactly new minus old. |
| `DeviceReset.StepKeepsInv` | driver/unm_nic_main.c:6146-6353 | Every step keeps: an active recovery owns the register, if resume waits for all functions or there is only one. A recovery starts only from READY or joins the active AER recovery; FAILED is never left. |
| `DeviceReset.Safety` | driver/unm_nic_main.c:6146-6353 | In every interleaving of timeout tasks, AER handlers (failing slot resets included) and the watchdog: reset, timeout and AER recovery never overlap, grants are legal, FAILED is final, and a watchdog that gave up leaves the register as it is. |
| `DeviceReset.OverlapWithoutBarrier` | driver/unm_nic_main.c:6161-6172 | Counterexample for two or more functions when one may resume while another still recovers: the register becomes READY and a reset is granted during an AER recovery. |
| `DeviceReset.NoOverlapExactlyWhen` | driver/unm_nic_main.c:6161-6242 | Recoveries, an AER recovery counted up to slot_reset, never overlap in any run exactly when resume waits for all functions or there is at most one. |
| `DeviceReset.OverlapBeforeResume` | driver/unm_nic_main.c:6161-6172 | Counterexample with an AER recovery counted up to resume, barrier or not: the first of two functions to be resumed makes the register READY and a timeout is granted. |
| `DeviceReset.NoOverlapUntilResumeExactlyWhen` | driver/unm_nic_main.c:6161-6242 | With an AER recovery counted up to resume, recoveries never overlap in any run exactly when there is at most one function. |
| `DeviceReset.DisconnectedSticks` | driver/unm_nic_main.c:8928-8935 | After a failed slot_reset the register says AER for good. |
| `DeviceReset.GrantedExactlyWhen` | driver/unm_nic_main.c:6172-6242 | A timeout or a reset is granted exactly from READY, an AER recovery exactly from READY to function 0 or into one that is there; a refused claim changes nothing. |
| `DeviceReset.LooksExactlyWhen` | driver/unm_nic_main.c:6258-6285 | The watchdog passes its first look exactly at READY or TX_TIMEOUT, and its second finds a timeout exactly at TX_TIMEOUT. |
| `DeviceReset.RecoveryEnds` | driver/unm_nic_main.c:6146-6172 | Timeout and reset recoveries end in READY and so does a resume after an AER; another resume leaves the register alone. |
| `DeviceReset.ReadyAgainExactlyWhen` | driver/unm_nic_main.c:6146-6353 | From a reachable state the register can become READY again exactly when the watchdog has not given up and no slot_reset has failed. |
| `DeviceReset.GivenUp` | driver/unm_nic_main.c:6285-6343 | A watchdog that gives up leaves FAILED exactly if a reset had been granted to it, else TX_TIMEOUT, in every continuation. |
| `DeviceReset.TimeoutIsLeft` | driver/unm_nic_main.c:6285-6291 | A run that leaves TX_TIMEOUT in the register with the watchdog stopped. |
| `DeviceReset.StoppedExactlyWhen` | driver/unm_nic_main.c:6257-6353 | The watchdog timer is not re-armed exactly when it has given up. |
| `MemAgent.MemoryAgent.Write` | driver/unm_nic_hw.c:1566-1638 | Memory afterwards is exactly what AgentPoke says; on a hung agent every byte is as before or as intended. |
| `MemAgent.PlainWriteExactlyWhen` | driver/unm_nic_hw.c:1596-1602 | Exact condition, for every memory and data, under which a write is a plain byte write: it stays in one word, or the second word had nothing to clear or to keep. |
| `MemAgent.PlainWriteGuard` | driver/unm_nic_hw.c:1566-1602 | For a given offset and size the write is a plain byte write on all memories and data exactly when it does not reach into a second word. |
| `MemAgent.SpanningWriteDamages` | driver/unm_nic_hw.c:1599-1602 | Counterexample: the non-zero byte just behind a spanning write is cleared. |
| `MemAgent.MemoryAgent.Read` | driver/unm_nic_hw.c:1663-1738 | A read of any size at any offset, spanning or not, returns exactly those bytes and changes nothing; -1 only when the agent hangs. |
| `MemAgent.MemoryAgent.Fetch` | driver/unm_nic_hw.c:1701-1706 | Fetching only the needed 32-bit halves gives the right bytes in their places. |
| `MemAgent.MemoryAgent.ReadWords` | driver/unm_nic_hw.c:1572-1578 | The read-back before a partial write is the old words. |
| `MemAgent.MemoryAgent.StoreWords` | driver/unm_nic_hw.c:1608-1633 | The merged words are stored one after another; after a hang a prefix of them has been. |
| `MemAgent.ReadAfterWrite` | driver/unm_nic_hw.c:1566-1738 | After a write within one word a read at the same place returns the data and a read elsewhere what was there. |
| `MemAgent.Merge0Byte` | driver/unm_nic_hw.c:1596-1597 | The first mask replaces exactly the addressed bytes. |
| `MemAgent.Merge1Byte` | driver/unm_nic_hw.c:1599-1602 | The second mask as coded: addressed bytes are or-ed with the old ones, the others cleared. |
| `MemAgent.ExtractByte` | driver/unm_nic_hw.c:1716-1721 | The shifts and masks of the read pick the addressed bytes of both words in order. |
| `HashTable.HashTbl.Insert` | driver/nx_hash_table.c:127-162 | Inserts at the place the surviving comparison gives exactly when no equal key is in the bucket, else changes nothing; keys of a bucket stay pairwise unequal. |
| `HashTable.HashTbl.Get` | driver/nx_hash_table.c:167-192 | Returns the node of the key's bucket that compares equal, or none. |
| `HashTable.HashTbl.Delete` | driver/nx_hash_table.c:197-222 | Unlinks exactly the node that Get would return. |
| `HashTable.HashTbl.Destroy` | driver/nx_hash_table.c:80-99 | Every stored node is handed to the callback exactly once and the table is empty. |
| `HashTable.InsertIsMapUpdate` | driver/nx_hash_table.c:127-162 | After an insertion the keys equal to the new one find it and all others find what they found before. |
| `HashTable.DeleteIsMapRemoval` | driver/nx_hash_table.c:197-222 | After a deletion the keys equal to the deleted one find nothing and all others find what they found before. |
| `HashTable.MapExactlyWhenRespected` | driver/nx_hash_table.c:104-192 | Every well-formed table is a finite map over key classes exactly when equal keys share a bucket. |
| `HashTable.RespectedIsMap` | driver/nx_hash_table.c:167-192 | With a hash that respects the comparator every stored node is found under every equal key. |
| `HashTable.InsertedKeepsBucket` | driver/nx_hash_table.c:140-156 | Wherever the node is put, its bucket stays free of equal keys and holds one node more. |
| `HashTable.StaysDescendingExactlyWhen` | driver/nx_hash_table.c:140-156 | A bucket in descending order stays so exactly when it has fewer than two entries or the new key belongs behind the last entry but one. |
| `HashTable.NeverAscending` | driver/nx_hash_table.c:140-156 | A bucket that has an entry is never in ascending order after an insertion. |
| `HashTable.BucketBecomesUnsorted` | driver/nx_hash_table.c:140-156 | A concrete sorted bucket that an insertion leaves unsorted. |
| `LroKeys.CmpZeroIsSameFlow` | driver/nx_hash_table.c:227-269 | The comparator is zero exactly for equal flows, where for IPv4 the source address does not take part. |
| `LroKeys.EqualKeys` | driver/nx_hash_table.c:227-269 | Equal IPv6 keys are the same key; equal IPv4 keys differ in the source address and the unused address words only. |
| `LroKeys.LroHashDoesNotRespectComparator` | driver/unm_nic_lro.c:103-116 | Counterexample: two IPv4 keys that compare equal and hash to different buckets, so the LRO table is not a map over flows. |
| `LroKeys.SameBucketExactlyWhen` | driver/unm_nic_lro.c:103-116 | Two sources of one flow share a bucket exactly when the fold of their difference is 0, whatever the other fields. |
| `LroKeys.ShareBucketExactlyWhen` | driver/unm_nic_lro.c:103-116 | Closed form: the bucket of any two flows is the same exactly when the exclusive ors of all bytes of address and ports, halves of the destination bytes exchanged, agree in the low five bits. |
| `LroKeys.OneFieldDiffers` | driver/unm_nic_lro.c:108-115 | Exactly when flows that differ in their destination address only, or in one port only, share a bucket. |
| `LroKeys.ExchangedPortsShareBucket` | driver/unm_nic_lro.c:108-115 | Shifting one port does not help: a flow and the one with its ports exchanged always share a bucket. |
| `LroKeys.SmallSourceIsBucket` | driver/unm_nic_lro.c:108-116 | Each of the 32 buckets is used: sources 0 to 31 of a flow are in buckets 0 to 31. |
| `LroKeys.FreedExactlyWhen` | driver/unm_nic_lro.c:332-348 | A card response frees a stored flow that compares equal exactly when the two share a bucket; with 32 or more buckets, a power of two, exactly when the fold of the difference of their sources is 0. |
| `LroKeys.OtherSourceFreedExactlyWhen` | driver/unm_nic_lro.c:332-348 | A response frees an entry of another source exactly when the bucket of its key holds an equal flow of another source. |
| `LroKeys.OtherSourceIsFreed` | driver/unm_nic_lro.c:332-348 | A witness: sources 0 and 32 share a bucket, and the response for one frees the entry of the other. |
| `LroKeys.LroComparatorIsNoOrder` | driver/nx_hash_table.c:238-241 | In wrapping arithmetic the comparator does not order the keys. |
| `MemPool.Pool.Alloc` | driver/nx_mem_pool.c:116-135 | Hands out the first free node, or none when all are out; every node stays on the free list or out, once. |
| `MemPool.Pool.Free` | driver/nx_mem_pool.c:140-161 | Returning a node that is out never reaches the BUG and puts it at the tail. |
| `MemPool.Pool.Destroy` | driver/nx_mem_pool.c:90-111 | The BUG is avoided exactly when nothing is out, and then every free node is given to kfree. |
| `MemPool.EachNodeOnce` | driver/nx_mem_pool.c:116-161 | The pool invariant means each node is on the free list or out, not both, not twice. |
| `LroTable.LroState.Initiate` | driver/unm_nic_lro.c:165-213 | Run alone, all outcomes (no node, key present, request refused, success) keep "handed out = in the table"; the failing ones leave the table as it was and the node back in the pool. |
| `LroTable.LroState.AddEntry` | driver/unm_nic_lro.c:182-188 | A node whose key is present goes back to the pool, else it is in the table. |
| `LroTable.LroState.Rollback` | driver/unm_nic_lro.c:207-212 | While the node is still in the table, the delete by key after a refused request removes that very node and restores table and pool. |
| `LroTable.RollbackRestores` | driver/unm_nic_lro.c:207-212 | Deleting a key just inserted finds the inserted node and gives the bucket back, in order. |
| `LroTable.LroState.HandleResponse` | driver/unm_nic_lro.c:332-355 | A card response removes at most one node, of the same flow as far as the comparator goes, from its bucket and returns it to the pool; nothing else changes. |
| `LroTable.LroState.DeleteCtx` | driver/unm_nic_lro.c:429-453 | Exactly the nodes of the context leave each bucket; the others keep their order; every node removed is back in the pool. |
| `LroTable.LroState.DeleteCtxFrom` | driver/unm_nic_lro.c:441-449 | For one bucket: what stays, and what is returned to the pool in which order. |
| `LroTable.OfCtxIsFilter` | driver/unm_nic_lro.c:441-449 | A node stays exactly when it was there and belongs to another context. |
| `LroTable.LroState.Cleanup` | driver/unm_nic_lro.c:397-405 | Teardown from any reachable state empties every bucket, returns every table node to the pool in order, gives all pool nodes to kfree, and hits no BUG; without a table it does nothing. |
| `LroTable.LroState.AllDestroyedOnce` | driver/unm_nic_lro.c:397-405 | What teardown gives to kfree is every node of the pool, once. |
| `LroTable.LroState.constructor` | driver/unm_nic_lro.c:357-395 | Starts with every node in the pool and an empty table. |
| `LroRace.StepPlaces` | driver/unm_nic_lro.c:165-453 | One locked section, of any caller, moves nodes between free list, table and callers without adding or losing one, unless it is a rollback that deletes another node than its own. |
| `LroRace.StepOwnsExactlyWhen` | driver/unm_nic_lro.c:206-212 | A step keeps every node in exactly one place exactly when it is not such a rollback. |
| `LroRace.RunOwnsExactlyWhen` | driver/unm_nic_lro.c:165-453 | In every interleaving of additions, card responses and context removals, every node is always in exactly one place exactly when no rollback misses: whenever a rollback deletes, the table still holds the node it inserted. |
| `LroRace.MissedRollback` | driver/unm_nic_lro.c:207-212 | After a rollback that misses its node is in two places, and a node it unlinked instead is in none. |
| `LroRace.ResponseTakesEntry` | driver/unm_nic_lro.c:332-355 | A card response empties its class, leaves exactly the node that was there with the caller to be freed, and touches no other class. |
| `LroRace.InsertTakesClass` | driver/unm_nic_lro.c:182-188 | A caller inserts exactly into an empty class; otherwise it has its node to free. |
| `LroRace.EntriesAreKnown` | driver/unm_nic_lro.c:165-355 | In every run an entry in the table is one the card may still respond for, or one whose request is not answered or being rolled back: no entry is stuck. |
| `LroRace.OwnedMeansNoBug` | driver/nx_mem_pool.c:153-158 | While every node is in one place the pool's counter is never negative. |
| `LroRace.NodeIsFreedTwice` | driver/unm_nic_lro.c:207-212 | A run that reaches the BUG: the context is removed while the request is under way, the request then fails, and the node is freed twice. |
| `LroRace.CounterIsOwners` | driver/nx_mem_pool.c:116-161 | The pool's counter is the number of nodes in the table and in the hands of callers. |
| `LroRace.TeardownHitsBugExactlyWhen` | driver/unm_nic_lro.c:397-405 | Teardown that overlaps callers reaches the BUG of the pool exactly when a node has been added behind it or a caller is between two sections with a node in hand. |
| `LroRace.TeardownTooEarly` | driver/unm_nic_lro.c:397-405 | A run in which it does: a caller has its node and has not inserted it when the empty table is destroyed. |
| `BounceAllocator.VmkBounce.Find` | driver/nx_nic_vmk.c:225-258 | The search ends despite its jump and returns the first admissible run of free pages going round from the head of the free queue, or none when there is none. |
| `BounceAllocator.VmkBounce.HandleLargeAddr` | driver/nx_nic_vmk.c:260-310 | For any length: below the DMA mask nothing is taken; else the fragment gets the first fit, contiguous and free, with its address, just long enough for the data, or -1 and nothing changes. The free queue remains exactly the pages not busy. The pages and their terminating NULL are inside the fragment's array exactly when fewer than 24 pages were taken. |
| `BounceAllocator.VmkBounce.Take` | driver/nx_nic_vmk.c:287-293 | Taking a run removes exactly its pages from the free queue, marks them busy and gives them to the fragment. |
| `BounceAllocator.VmkBounce.FreeFrag` | driver/nx_nic_vmk.c:196-218 | Freeing a fragment, with pages or without, returns exactly its pages within the array of 24, in order, and clears their flags; those behind stay busy with no owner. |
| `BounceAllocator.VmkBounce.ReturnPages` | driver/nx_nic_vmk.c:207-216 | The loop over the array appends exactly those pages to the free queue and clears their flags and no others. |
| `BounceAllocator.VmkBounce.constructor` | driver/nx_nic_vmk.c:139-149 | Starts with all pages free, in order. |
| `BounceAllocator.FirstFitIsUnique` | driver/nx_nic_vmk.c:225-258 | The specification of the search determines its result. |
| `BounceAllocator.FailedSearch` | driver/nx_nic_vmk.c:238-243 | The search fails exactly when every free run of that length starts before the first free page's index and reaches beyond it. |
| `BounceAllocator.StraddlingRunIsMissed` | driver/nx_nic_vmk.c:238-243 | Counterexample to completeness: three free pages in a row and a request for three that fails. |
| `BounceAllocator.StraddlingRunIsReached` | driver/nx_nic_vmk.c:196-310 | A history of requests and returns that leads there. |

## Left out

- Register access, windows, semaphores, delays, interrupts, NAPI, probe and remove, procfs, ioctl, ethtool, SNMP, PHY, firmware loading: hardware plumbing or simple case tables.
- Packet contents, DMA mapping and copying of data: buffers are handles with an address and a length; `virt` and `len` of the bounce copy are not modelled.
- LRO: what a packet must look like before `nx_initiate_lro` is called, and a card that offers 0 flows.
- TxRing.Adapter.XmitFrame: the pull of the tail of packets with more than 14 fragments and the drop when it fails (which unlocks a lock not taken, `driver/unm_nic_main.c:5505-5506`), checksum and segmentation fields, VLAN copies and filter descriptors of ESX are not modelled; the number of header descriptors is a parameter, at most 2.
- TxRing.Adapter.FillBuffers: unmapping after a failed mapping is not modelled, because DMA mapping is not.
- TxRing: stopping and waking the network queue, and teardown of the ring (`nx_free_tx_resources`).
- PendingCmds: `unm_destroy_pending_cmd_desc`.
- Pexq.PexqDbell.Schedule: counters are unbounded integers, where the code has 16-bit ones that suffice for rings of up to 32767 messages; the doorbell word and its reflection register are not modelled.
- RxPosting: one receive ring (rings share no state but the lock); the allocation-failure counter, and the second posting attempt it triggers.
- StatusRing.StatusRing.Process: the handlers are recorded calls; that of chained messages reads each word of the first descriptor once, where the code reads some of their fields again later.
- MemAgent.MemoryAgent.Write: offsets above 32 bits, the bound check and the direct access path; for an aligned 8-byte write the mask, a C shift by the full width, is taken as all ones, and the word it applies to is 0. The 128M pair has the same word arithmetic under a lock and is covered by the same members.
- MemPool.Pool.constructor: the failure of kmalloc half way.
- LroTable.LroState.Cleanup: the callbacks run after the buckets are emptied instead of during it; the node order is the same.
- LroTable.LroState.Initiate: methods of `LroTable` run one at a time; interleaving is the subject of `LroRace`, which abstracts a bucket and a flow to a class of keys.
- BounceAllocator.VmkBounce.HandleLargeAddr: page pointers written behind the array of a fragment (which the fragment loop admits for the NULL only, `driver/unm_nic_main.c:5702-5719`, and the call for linear data at 5648 does not check) are kept as if there were room; what they overwrite is not modelled.
- DeviceReset: the temperature branch of the watchdog, failing to obtain the API lock, and a permanent PCI failure, for which error_detected claims nothing.
- Completion-id bitmap, `unm_nic_new_rx_context_destroy`, multi-context and netqueue operations: no state shared with the above.
