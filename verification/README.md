# Buffers, packets and codecs of the relay server, verified

A Dafny 4.11 model of the hand-written core of a multi-threaded audio/video relay: the event channel between threads,
the path of a frame over the network and its send cache, the page allocator, the ADPCM codec, the chunked byte queue,
H.264 unescaping and bit reading, and the SDP parser with its printer. `dafny verify dfyconfig.toml` checks all of it.

Code that updates memory in place is modelled by classes and loops, each proved against a specification function or
state machine; what the program promises is then proved of the specification. Every induction is written out: Dafny's
automatic induction is turned off wherever it would apply.

**Event channel** (`RingBuffer`, `NodeCounts`, `NodeChain`, `ChannelRuns`, `HgChannel`). Writers append messages to a
chain of 512-byte nodes; one consumer drains the chain into a 4096-byte ring, parses messages there and calls handlers,
which may write again. `ChannelRuns` is the protocol as a transition system, whose steps interleave in any order;
`HgChannel` is the objects, and every method is shown to take exactly the protocol's steps, so that the theorems over
all runs hold of them: exactly-once, in-order delivery; no lost wake-up; and progress if and only if every message has a
body and fits the ring. A chain's memory is bounded by its use: the nodes obtained are as many as were in the chain at
most at one time. A section under the spin lock is one step. A message head is 24 bytes, with the body length at offset
4, little-endian.

**Frames** (`SeqNum`, `RtpPacket`, `Frames`, `Fragments`, `SendCache`, `SendCacheLaws`, `SendStream`, `SendRuns`,
`RepostLaws`, `WireNumbers`, `FragmentLaws`, `RecvStream`, `RecvLaws`, `RoundTrip`). From slicing a payload, through
fragments of at most 990 bytes, ten-byte headers and the 200-slot cache, to reassembly, over any number of hops, with
the number, the tag and every header field of each datagram read off the wire. A frame's tags need the size recorded for
it, and are right exactly if that ends in the last fragment (`FragmentLaws.TagsExactly`). Two promises of the code fail,
and are stated exactly, each with an input. The cache is to answer a re-send request with the packet asked for; it sends
it again, out of memory not given back, exactly under a condition on the sequence numbers, and of the last 200 numbers
of the current lap every one assigned meets it (`RepostLaws.RepostExactly`, `RepostLaws.RecentIsResent`). And no slot is
to point into a released frame; since 200 does not divide 65535, after a wrap one can (`SendCacheLaws.SafeExactly`,
`SendRuns.SessionsSafeExactly`). Reassembly is fed in order, as the sorting step before it has an empty body
(`src/net/protocol/huage_recvstream.cpp:187-194`); `MergeData` takes a middle fragment into an empty chain, and the
model does the same; what is delivered are stretches of the input in sequence (`RecvLaws.StretchesAlways`).

**Pool** (`PoolSpec`, `PoolLaws`, `PageList`, `MyPool`). Bump allocation in pages that are recycled when their counter
reaches zero, with headers written into the pages and read back by free. A page is taken exactly when the last one has
no room.

**Codec** (`AdpcmStep`, `AdpcmSearch`, `AdpcmCodec`, `AdpcmShaping`, `AdpcmBlock`, `AdpcmStart`, `AdpcmEncoder`,
`AdpcmDecoder`, `AdpcmSettle`, `AdpcmRoundTrip`). The look-ahead search, the noise shaper, the block format, encoder and
decoder, and how the step size follows the signal: without shaping and look-ahead a constant input settles within 101
samples from any state (`AdpcmSettling.Settles`). The doubles of the search add up whole numbers and are integers. The
comment that the initial index is the closest one is not quite true of the code (`AdpcmStarts.ClosestExactly`).

**Byte queue** (`ByteQueue`). Chains of nodes refine a plain byte sequence. Its list code is that of the pool, and
shared.

**H.264** (`Nal`, `Bits`). Emulation prevention as a two-sided inverse, with the exact condition under which the code
reads one byte behind its input (its comment has the final 03 of such a unit discarded, but the test for that never
holds); Exp-Golomb codes read back to the exact bit.

**SDP** (`SdpText`, `SdpFields`, `SdpSession`, `SdpRoundTrip`, `SdpOutcomes`, `SdpEndings`, `SdpLoose`, `SdpTail`,
`SdpParser`, `SdpPrinter`). Parsing inverts printing, for sessions whose fields are free of line breaks and, where they
share a line, non-empty and free of its separator; exactly when the version is 0 and there is a time entry. The code's
comment asks for a time line, but the code takes whatever line comes there for one, and dereferences a null pointer when
there is none; `SdpOutcomes.OutcomeExactly` tells the texts apart by their keys. Lines may end in CR LF or LF, but a LF
in front of a CR LF anywhere behind it is not seen: which endings are read right is stated exactly
(`SdpEndings.EndingsExactly`), and a text that mixes them the wrong way is refused (`SdpEndings.MixedFails`).

## Model

| member | source | states |
|---|---|---|
| RingBuffers.PutAppends | src/net/protocol/core/hg_buf.cpp:16-84 | writing behind the occupied part of a cyclic buffer extends the bytes it holds and disturbs none of them |
| RingBuffers.PutWraps | src/net/protocol/core/hg_buf.cpp:43-63 | the two copies around the wrap point are one cyclic copy |
| RingBuffers.CyclicCut | src/net/protocol/core/hg_buf.cpp:89-112 | a cyclic run of bytes splits, at any point, into its front and the run that starts there |
| RingBuffers.RingBuffer.WriteN | src/net/protocol/core/hg_buf.cpp:16-84 | appends exactly min(n, free room) bytes to the bytes held, full and empty told apart by the length, wherever the wrap point is |
| RingBuffers.RingBuffer.ReadN | src/net/protocol/core/hg_buf.cpp:86-114 | fails, without change, exactly when fewer than n bytes are held or none; else yields the oldest n bytes and drops skip of them |
| RingBuffers.RingBuffer.Rewind | src/net/threads/hg_channel.cpp:210-220 | puts the bytes just read back in front: the state before the head was read, across the wrap point too |
| NodeChains.NodeChain.DelchainL | src/net/protocol/core/hg_buf.cpp:117-131 | the oldest node moves from the chain to the front of the free list; no node is lost, shared or in both |
| NodeChains.NodeChain.PushR | src/net/protocol/core/hg_buf.cpp:133-141 | a loose node becomes the newest, empty, one; order and bytes of the others stay |
| NodeChains.NodeChain.NewNode | src/net/protocol/core/hg_buf.cpp:143-183 | a recycled node if there is one, else a fresh one, emptied and pushed; every node stays in exactly one of chain and free list |
| NodeChains.NodeChain.NodesArePeak | src/net/protocol/core/hg_buf.cpp:117-183 | whatever has been done to a chain, it has obtained exactly as many nodes as were in it at most at one time |
| NodeCounts.ObtainedIsPeak | src/net/protocol/core/hg_buf.cpp:117-183 | over all runs of taking and giving back nodes: the number obtained is attained in the chain at some point and exceeded at none |
| NodeChains.NodeChain.GetSingleOrIdleBuf | src/net/protocol/core/hg_buf.cpp:184-209 | afterwards the newest node has room, whose size is returned; an empty node was added exactly if the newest one had none |
| NodeChains.NodeChain.Fill | src/net/threads/hg_channel.cpp:76-85 | bytes stored in the newest node extend what it holds, and no other node's bytes |
| NodeChains.NodeChain.Consume | src/net/threads/hg_channel.cpp:135-141 | a partial drain drops the first bytes of the oldest node only |
| NodeChains.NodeChain.Advance | src/net/threads/hg_channel.cpp:135-145 | the chain's byte stream loses exactly the bytes taken; the node is recycled exactly when all of it was |
| ChannelRuns.FrontOfStream | src/net/threads/hg_channel.cpp:162-224 | parsing a prefix of a stream of well-formed messages at its head finds the first message and its true length |
| ChannelRuns.FifoStep | src/net/threads/hg_channel.cpp:60-91 | every step of writers and consumer keeps: delivered messages, then ring bytes followed by chain bytes, are what was written, in order |
| ChannelRuns.FifoAlways | src/net/threads/hg_channel.cpp:100-227 | in every run delivery is exactly once and in order, and ring and chain together hold exactly the messages still owed |
| ChannelRuns.DrainedIsReady | src/net/threads/hg_channel.cpp:117-146 | after a drain, if anything is pending and all messages fit, a whole message is at the front of the ring |
| ChannelRuns.CoveredStep | src/net/threads/hg_channel.cpp:92-96 | every step keeps: pending messages are at most the semaphore count, the writers between unlock and post, and one for a Drive at work |
| ChannelRuns.CoveredAlways | src/net/threads/hg_channel.cpp:94-149 | no wake-up is lost in any interleaving of writers, Drive steps and writing handlers |
| ChannelRuns.RestMeansDelivered | src/net/threads/hg_channel.cpp:100-149 | when the consumer sleeps, the count is 0 and no writer is about to post, everything written has been delivered |
| ChannelRuns.DriveDelivers | src/net/threads/hg_channel.cpp:104-149 | a Drive that starts with a message pending delivers at least one |
| ChannelRuns.Stranded | src/net/threads/hg_channel.cpp:176-221 | a run in which a message without a body, or one longer than the ring, stays undelivered for good |
| ChannelRuns.ProgressExactly | src/net/threads/hg_channel.cpp:94-224 | over all runs that write only messages from a given set, nothing is ever stranded if and only if each has a body and fits the ring |
| ChannelRuns.PSizeBack | src/net/threads/hg_channel.cpp:185-200 | bytes 4 to 7 of a head, the low one first, are the body size as a signed 32-bit number |
| ChannelRuns.WakesAlways | src/net/threads/hg_channel.cpp:92-107 | no wake-up too many: over all runs the count, the writers between unlock and post, and the waits that returned add up to the messages written |
| ChannelRuns.ReadyExactly | src/net/threads/hg_channel.cpp:180-225 | in every reachable state the first pending message is delivered exactly when it is in the ring whole, with a body or with something behind it |
| ChannelRuns.OneDrive | src/net/threads/hg_channel.cpp:100-150 | over all runs Drive begins again only when the one before has ended |
| HgChannels.DrainUnique | src/net/threads/hg_channel.cpp:117-146 | conservation of the bytes and a full ring or empty chain determine the result of a drain |
| HgChannels.FrontIsWhole | src/net/threads/hg_channel.cpp:180-203 | in no run does the ring begin with a head that gives a negative body length |
| HgChannels.HgChannel.Store | src/net/threads/hg_channel.cpp:60-91 | the write loop appends the message to the chain's byte stream, over however many nodes |
| HgChannels.HgChannel.WriteChan | src/net/threads/hg_channel.cpp:25-98 | the object takes exactly the protocol's append step and, if asked to, its post step; empty data does nothing |
| HgChannels.HgChannel.MoveToRing | src/net/threads/hg_channel.cpp:117-146 | the drain loop keeps ring bytes followed by chain bytes and stops only with an empty chain or a full ring |
| HgChannels.HgChannel.TakeMessage | src/net/threads/hg_channel.cpp:162-224 | yields the front message exactly when head and body are there whole; else leaves the ring as it was |
| HgChannels.HgChannel.Handlemsg | src/net/threads/hg_channel.cpp:152-227 | delivers until no whole message is left, handlers writing in between; each turn is the protocol's, and what is handled is what becomes delivered |
| HgChannels.HgChannel.Drive | src/net/threads/hg_channel.cpp:100-150 | one call, waiting for the semaphore or not, is begin, drain, deliveries and finish of the protocol, so all run theorems apply to the object; with a message pending, and all of them with a body that fits, at least one is handled |
| HgChannels.WritesStep | src/net/threads/hg_channel.cpp:203-203 | whatever a handler writes, the consumer's phase, ring and deliveries are undisturbed |
| Frames.SlicesFlatten | src/net/common/hg_netabstract.cpp:24-80 | cutting a payload into slices of any positive size loses and reorders nothing, and every slice is non-empty and within the size |
| Frames.CreateFrameStr | src/net/common/hg_netabstract.cpp:13-84 | the chain is cut as the slices of a payload of that size and, given data, holds them; its first node begins with the encoded header of the arguments, and the size returned counts payload and header |
| Frames.FrameHeaderRead | src/net/common/hg_netabstract.cpp:50-65 | each argument of the call is found in its own field of the header, read with the getters |
| RtpPackets.HeaderRoundTrip | src/net/protocol/rtp_packet.cpp:6-17 | every getter recovers its field from the ten bytes of an encoded header |
| RtpPackets.Layout | src/net/protocol/rtp_packet.cpp:6-22 | on the wire the header is one big-endian number of 80 bits: first, comp, six unused bits, cmd, tail, type, number, time stamp, source |
| RtpPackets.GettersRead | src/net/protocol/rtp_packet.cpp:28-102 | of any ten bytes the getters cut the first two into their fields, six unused bits apart, and read the others big-endian |
| RtpPackets.ShortReads | src/net/protocol/rtp_packet.cpp:28-102 | of fewer than ten bytes they make zeros |
| RtpPackets.SetCmdOnly | src/net/protocol/rtp_packet.cpp:124-131 | setting the command in a header is encoding the header with that command: no other bit changes |
| RtpPackets.RtpPacketHead | src/net/protocol/rtp_packet.cpp:6-18 | writes the encoding into the first ten bytes of a buffer and nothing else |
| RtpPackets.BigEndian16 | src/net/protocol/core/tools.c:316-322 | writes the two bytes, high one first, and nothing else |
| SeqNums.SubIsDistance | src/net/protocol/core/tools.c:351-369 | the difference of two sequence numbers is d exactly when d is at most half the modulus and adding d to the older gives the newer |
| SeqNums.NextMod | src/net/protocol/core/tools.c:371-373 | adding one follows the count of packets modulo 65535 |
| Fragmenting.NodeTagged | src/net/protocol/huage_sendstream.cpp:243-319 | with the right size recorded, the fragments of a node are its bytes, in order, each of 1 to 990 bytes, tagged by where they lie in the frame |
| Fragmenting.FragmentsTagged | src/net/protocol/huage_sendstream.cpp:225-321 | the fragments of a whole chain are its bytes, and the tags are start, middles, end, or the lone tag, by position in the frame |
| Fragmenting.OnlyFinalIsLast | src/net/protocol/huage_sendstream.cpp:304-308 | only the final fragment carries a tag that hands over the frame's memory |
| FragmentLaws.NodeFull | src/net/protocol/huage_sendstream.cpp:243-255 | all fragments of a node but its last have 990 bytes, so that there are as few as can be |
| FragmentLaws.ChainTags | src/net/protocol/huage_sendstream.cpp:225-321 | whatever size is recorded for a frame, every byte is sent once and in order, in fragments of 1 to 990 bytes |
| FragmentLaws.TagsExactly | src/net/protocol/huage_sendstream.cpp:255-267 | every fragment is tagged right if and only if the recorded size ends in the last fragment, or is 0 for a lone one |
| SendCaches.NextIsMax | src/net/protocol/huage_sendstream.cpp:176-179 | the number after the last one is newer than it by one, across wraps too |
| SendCaches.TracksAlways | src/net/protocol/huage_sendstream.cpp:157-180 | after any run of sends and re-sends the maximum is the last number assigned, and every slot holds the last fragment whose number falls on it, with its header but for the command bits |
| SendCaches.SendTracks | src/net/protocol/huage_sendstream.cpp:157-180 | a send keeps this |
| SendCaches.ResendTracks | src/net/protocol/huage_sendstream.cpp:89-115 | a re-send keeps this, whatever 16-bit number it asks for |
| SendCacheLaws.OwnsSlotExactly | src/net/protocol/huage_sendstream.cpp:91-97 | of the numbers at most 200 back, a fragment still owns its slot exactly when it lies within one lap below 200, or, across a wrap, in a slot not reached since |
| SendCacheLaws.ReleasedAreRetired | src/net/protocol/huage_sendstream.cpp:164-168 | a frame is released only by the overwriting of its last fragment's slot |
| SendCacheLaws.FreshlyRetired | src/net/protocol/huage_sendstream.cpp:164-175 | the send that releases a frame is the one that overwrites that slot |
| SendCacheLaws.ReleasedOnce | src/net/protocol/huage_sendstream.cpp:157-175 | in no run is a frame released twice, wraps included |
| SendCacheLaws.InTurnIsSafe | src/net/protocol/huage_sendstream.cpp:157-175 | until the first wrap, or when the cache length divides the modulus, no slot points into a released frame |
| SendCacheLaws.WrapDangles | src/net/protocol/core/tools.c:346-349 | for every modulus that the cache length does not divide there is a run with a slot pointing into a released frame |
| SendCacheLaws.SafeExactly | src/net/protocol/core/tools.c:346-349 | over all runs no slot ever points into a released frame if and only if the cache length divides the sequence modulus |
| SendCacheLaws.ProgramSafety | src/net/protocol/huage_sendstream.cpp:157-180 | with 65535 numbers and 200 slots: safe for fewer than 65535 fragments, and a run of exactly 65535 that is not |
| SendStreams.SendFragsConcat | src/net/protocol/huage_sendstream.cpp:229-321 | sending fragments is compositional: first some, then the rest |
| SendStreams.SendStream.ClearPacketWrBufer | src/net/protocol/huage_sendstream.cpp:157-180 | the slot of the number gets the fragment, the frame that slot was keeping is released, the maximum moves forward only |
| SendStreams.SendStream.Post | src/net/protocol/huage_sendstream.cpp:296-313 | one fragment sent is one step of the sender model |
| SendStreams.SendStream.Repost | src/net/protocol/huage_sendstream.cpp:89-115 | a request with any 16-bit number is one step of the sender model, or none outside the distance test |
| SendStreams.SendStream.SendNode | src/net/protocol/huage_sendstream.cpp:243-319 | the inner loop sends exactly the fragments of the node, in order |
| SendStreams.SendStream.SendData | src/net/protocol/huage_sendstream.cpp:225-322 | the nested loops send exactly the fragments of the frame, in order, whatever the node boundaries and whatever size is recorded, tags compared unsigned as in the source |
| WireNumbers.NumberedAlways | src/net/protocol/huage_sendstream.cpp:295-313 | over all runs, re-sends in between included: the n-th fragment goes out as the n-th first sending, under number n modulo 65535, and the getters read its tag and every field of its frame's header |
| WireNumbers.GenuineAlways | src/net/protocol/huage_sendstream.cpp:69-115 | over all runs every datagram ever sent, first or again, is one of the fragments under the number it was assigned |
| WireNumbers.SeenExactly | src/net/protocol/huage_sendstream.cpp:89-115 | whoever sees a datagram and asks for the number it bears a fragments later gets it again, with only the command changed, if and only if a is below the cache length, or, across a wrap, at most that and the slot not reached since |
| WireNumbers.FragsNumbered | src/net/protocol/huage_sendstream.cpp:229-321 | the i-th datagram of a frame has the i-th number behind the last one assigned, and the frame's header fields |
| WireNumbers.FrameOnWire | src/net/protocol/huage_sendstream.cpp:178-321 | what SendData sends for a frame: its fragments in order, numbered on modulo 65535, with command 1 and each argument of the call in its own field |
| SendRuns.SendDataIsRun | src/net/protocol/huage_sendstream.cpp:225-322 | sending a frame extends a run of the sender model by its fragments |
| SendRuns.SessionGrouped | src/net/protocol/huage_sendstream.cpp:225-322 | the history of any number of whole frames satisfies what the release laws ask for |
| SendRuns.SessionSafe | src/net/protocol/huage_sendstream.cpp:157-180 | sending whole frames, until the numbers wrap, never leaves a slot pointing into a released frame and releases none twice |
| RecvStreams.OffsetAlways | src/net/protocol/huage_recvstream.cpp:225-343 | for any tags, sequence matches and lengths the running offset stays within 2097152 and equals the body bytes held, plus 10 behind an accepted start fragment |
| RecvStreams.MergeConserves | src/net/protocol/huage_recvstream.cpp:225-343 | a packet fed ends up in exactly one of partial frame, delivered frame and freed |
| RecvStreams.ConservedAlways | src/net/protocol/huage_recvstream.cpp:214-343 | in any order of arrival no packet is lost, duplicated or freed twice |
| RecvStreams.SizesAlways | src/net/protocol/huage_recvstream.cpp:264-329 | the size given with every delivered frame is that of its bytes, and of one header more exactly if it is a lone packet or was collected behind an accepted start fragment; only a lone packet can be larger than the limit |
| RecvLaws.StretchesAlways | src/net/protocol/huage_recvstream.cpp:225-344 | whatever arrives, the frames delivered are stretches of the input, in the order of the input and without overlap, each a lone packet or a run of fragments in sequence that one end fragment closes; the partial frame is such a run at the end of the input |
| RecvLaws.OutOfSequence | src/net/protocol/huage_recvstream.cpp:331-340 | after a middle or end fragment out of sequence, or a tag that is none, the partial frame is empty, all of it freed with the packet, and nothing delivered |
| RecvLaws.Overflow | src/net/protocol/huage_recvstream.cpp:289-297 | a fragment that would make the frame larger than 2097152 is freed behind the partial frame, and neither is delivered |
| RecvLaws.Collects | src/net/protocol/huage_recvstream.cpp:276-300 | from any state, with or without a start fragment: fragments in sequence are collected as long as they fit, start fragments too large by themselves are passed over |
| RecvLaws.CollectsWhole | src/net/protocol/huage_recvstream.cpp:299-330 | and an end fragment that fits delivers all that was collected, once |
| RecvStreams.RecvStream.MergeDataClear | src/net/protocol/huage_recvstream.cpp:214-224 | all packets held are freed and the partial frame is empty |
| RecvStreams.RecvStream.MergeData | src/net/protocol/huage_recvstream.cpp:225-344 | one call is one step of the receiver model, error returns included |
| RoundTrips.WireCarries | src/net/protocol/huage_sendstream.cpp:296-313 | encoded, sent and decoded again, fragments arrive with their tags and bodies, in order |
| RoundTrips.Completes | src/net/protocol/huage_recvstream.cpp:300-330 | in the middle of a frame, the rest of its fragments complete exactly that frame |
| RoundTrips.Delivers | src/net/protocol/huage_recvstream.cpp:244-330 | from any receiver state the fragments of a frame that fits deliver that frame and nothing else |
| RoundTrips.NoneTooLarge | src/net/protocol/huage_recvstream.cpp:288-306 | without lone packets no delivered frame is larger than the limit |
| RoundTrips.HopExactly | src/net/protocol/huage_sendstream.cpp:225-321 | whatever chain, sender and receiver state, one hop delivers the frame once and whole if and only if it has bytes and its size with the header is within 2097152 |
| RoundTrips.RoundTrip | src/net/common/hg_netabstract.cpp:24-83 | for any payload and slice size: CreateFrameStr, SendData, header encoding and decoding, MergeData deliver one frame with the same bytes and size, under exactly that condition |
| RoundTrips.TravelPreserves | src/net/protocol/huage_recvstream.cpp:244-330 | relaying the reassembled chain over any number of hops preserves the bytes, and every hop delivers exactly one frame |
| PoolSpecs.BumpOk | src/net/protocol/core/hg_pool.c:128-135 | a block carved off at the fill mark is disjoint from the page's other blocks and counted |
| PoolSpecs.UnblockOk | src/net/protocol/core/hg_pool.c:153-155 | after a free the counter is still the sum of the live blocks, and zero exactly when there is none |
| PoolSpecs.AllocInv | src/net/protocol/core/hg_pool.c:110-139 | an allocation keeps the pool's invariant |
| PoolSpecs.FreeInv | src/net/protocol/core/hg_pool.c:144-158 | a free of a live block keeps it |
| PoolSpecs.InvAlways | src/net/protocol/core/hg_pool.c:110-158 | after any allocations and single frees: live blocks, headers included, are disjoint and inside their page, counters are exact, a page is live exactly when its counter is positive, live and recycled pages are all distinct, and as many pages were obtained as were ever live at once |
| PoolSpecs.PeakIsPeak | src/net/protocol/core/hg_pool.c:32-36 | that number is attained at some point of the run and exceeded at none |
| PoolLaws.AllocPlaces | src/net/protocol/core/hg_pool.c:110-139 | a request that fits a page gets the bytes behind those taken from the last live page; a page is taken exactly when that one has no room or there is none, the one recycled longest ago first; a larger request gets nothing |
| PoolLaws.TakenWhenFull | src/net/protocol/core/hg_pool.c:122-126 | in every run a page is taken exactly when the last one's filling and the request exceed a page |
| PoolLaws.HalfFull | src/net/protocol/core/hg_pool.c:110-139 | as long as nothing is freed, all pages but the last, and what is on that one, are at most twice the bytes asked for with their headers |
| PoolLaws.ReusedInOrder | src/net/protocol/core/hg_pool.c:26-50 | in every run the pages used again and those waiting are the pages recycled, in order |
| PageLists.PageList.RightPush | src/net/protocol/core/hg_pool.c:72-87 | the node becomes the last one of a well-formed doubly linked list, the others as they were |
| PageLists.PageList.LeftPopNode | src/net/protocol/core/hg_pool.c:52-70 | the first node leaves the list, the others as they were |
| PageLists.PageList.Unlink | src/net/protocol/core/hg_pool.c:93-107 | a node anywhere in the list leaves it, the others in order and well linked |
| MyPools.WordValue | src/net/protocol/core/hg_pool.c:128-132 | a 32-bit word stored little-endian is read back |
| MyPools.PutHeader | src/net/protocol/core/hg_pool.c:128-132 | a header written at the fill mark can be read back, and nothing below it changes |
| MyPools.HeadersSurvive | src/net/protocol/core/hg_pool.c:128-132 | headers of blocks below the fill mark survive any change at or above it |
| MyPools.PayloadWrite | src/net/protocol/core/hg_pool.c:137-137 | writing inside a block's payload changes no header of the page |
| MyPools.MyPool.NewNode | src/net/protocol/core/hg_pool.c:26-50 | a recycled page, the oldest one, if there is one, else a new one; emptied, and in neither list |
| MyPools.MyPool.Alloc | src/net/protocol/core/hg_pool.c:110-139 | succeeds exactly for requests no larger than a page; hands out the newest block, and changes no byte below the fill mark of any live page |
| MyPools.MyPool.Sizeof | src/net/protocol/core/hg_pool.c:140-142 | the size requested for a live block, whatever was allocated, freed and stored in blocks since |
| MyPools.MyPool.Free | src/net/protocol/core/hg_pool.c:144-158 | nothing for the null pointer; else finds the block's page from the pointer alone, uncounts the block, and recycles the page exactly when it was the last |
| MyPools.MyPool.MidlePop | src/net/protocol/core/hg_pool.c:93-109 | the page moves from the live list to the end of the recycled one |
| MyPools.MyPool.StoreByte | src/net/protocol/core/hg_pool.c:137-137 | callers writing in their own blocks keep the pool valid |
| AdpcmSteps.Magnitude | src/base/adpcm-lib.c:134-137 | the change a code makes is its quarter steps and half of one more, less than 17 eighths lost by rounding, with the sign of bit 3 |
| AdpcmSteps.GreedyCode | src/base/adpcm-lib.c:122-129 | the greedy code has the sign of the distance and as many quarters of the step as fit into it, at most 7 |
| AdpcmSteps.GreedyBound | src/base/adpcm-lib.c:123-147 | with the target less than two steps away the greedy code leaves 8|e| < step + 17, clipping included |
| AdpcmSettling.AdvanceIndex | src/base/adpcm-lib.c:44-47 | codes of magnitude 0 to 3 lower the index by 1, 4 to 7 raise it by 2, 4, 6 and 8, within 0 and 88 |
| AdpcmSettling.TenthLarger | src/base/adpcm-lib.c:29-42 | each step but the last is a tenth larger than the one before, as near as whole numbers go, from 7 to 32767 |
| AdpcmSettling.FarCode | src/base/adpcm-lib.c:122-142 | two steps away or more, the code is 7 or 15, the index rises by 8, and the distance falls by the step and its half, quarter and eighth |
| AdpcmSettling.AttackClimbs | src/base/adpcm-lib.c:44-47 | while the input runs away the index rises by 8 with every sample, so that 11 bring the largest step |
| AdpcmSettling.Settles | src/base/adpcm-lib.c:44-47 | without shaping and look-ahead, from any state, a constant input, as silence is, has the index at 0 and the value within 2 after 101 samples, for good |
| AdpcmSettling.DecodedSettles | src/base/adpcm-lib.c:330-407 | so the decoder of a block encoded that way puts out a held value to within 2 after 101 samples, whatever came before |
| AdpcmSearches.FullIsLeast | src/base/adpcm-lib.c:121-189 | the search returns an error no greater than that of any choice of codes of its depth, greedy at the leaf |
| AdpcmSearches.FullIsAttained | src/base/adpcm-lib.c:121-189 | and there is a choice with that error that begins with the code settled on |
| AdpcmSearches.LeastSquares | src/base/adpcm-lib.c:112-187 | the error returned is the least sum of squared distances between what is wanted and what a decoder puts out, over all choices of codes; the code chosen begins a choice that attains it |
| AdpcmSearches.FirstOfEquals | src/base/adpcm-lib.c:157-184 | of codes with the same error the greedy one is taken, or else the lowest |
| AdpcmSearches.MinimumError | src/base/adpcm-lib.c:121-189 | with its cut-off the recursion returns the same error and the same code as the full 16-way search, at every depth |
| AdpcmBlocks.WhereApart | src/base/adpcm-lib.c:252-270 | no two bytes of codes share a place in a block |
| AdpcmBlocks.HeadPcmInverse | src/base/adpcm-lib.c:303-304 | the sample in a header is read back as the signed number it was |
| AdpcmBlocks.NibbleIsCode | src/base/adpcm-lib.c:260-264 | the code a decoder finds for a sample is the one the encoder chose for it |
| AdpcmBlocks.NibbleInWord | src/base/adpcm-lib.c:367-402 | a block is little-endian words, channel by channel in turn: behind the headers each holds the codes of eight samples, the earliest at the bottom |
| AdpcmBlocks.StartInWord | src/base/adpcm-lib.c:349-361 | a header's word holds the signed sample in its low half, then the index, and a zero on top |
| AdpcmBlocks.Lockstep | src/base/adpcm-lib.c:334-399 | for one or two channels, any look-ahead and any noise shaping, after any number of codes a decoder's value and index are the encoder's |
| AdpcmBlocks.DecodedIsClose | src/base/adpcm-lib.c:191-237 | without shaping and look-ahead each decoded sample is within (step + 17)/8 of its input if that was less than two steps away, however many samples went before |
| AdpcmEncoders.AdpcmContext.ClosestIndex | src/base/adpcm-lib.c:82-86 | the index found lies between the midpoints, rounded down, around its step |
| AdpcmEncoders.AdpcmContext.EncodeSample | src/base/adpcm-lib.c:191-237 | the code is the search's best for the shaped sample, and only this channel's state changes, by that code |
| AdpcmEncoders.AdpcmContext.EncodeChunks | src/base/adpcm-lib.c:245-270 | every byte of the body holds the two codes of its place, low half first, and every channel has taken all its samples |
| AdpcmEncoders.AdpcmContext.EncodeBlock | src/base/adpcm-lib.c:287-316 | 4 * channels * (1 + (n-1)/8) bytes that carry the first sample and index of each channel and then its codes; no samples, no bytes; nothing behind them is written, and a channel not in use stays as it was |
| AdpcmEncoders.BlockCarries | src/base/adpcm-lib.c:301-313 | headers and finished chunks make a block that carries the starting states and all codes |
| AdpcmDecoders.DecodeBlock | src/base/adpcm-lib.c:334-399 | 0 exactly for input too short for its headers, an index above 88 or a reserved byte set; else 1 + 8 * chunks samples per channel, interleaved, each the one the block describes; nothing behind them is written |
| AdpcmDecoders.DecodesToEncoder | src/base/adpcm-lib.c:334-399 | an encoded block is accepted with as many chunks as were encoded, and decodes to the first sample and then the encoder's own reconstructed values |
| AdpcmRoundTrips.FirstExact | src/base/adpcm-lib.c:288-300 | the first sample of each channel comes out of an encoded block exactly |
| AdpcmRoundTrips.RestClose | src/base/adpcm-lib.c:235-262 | every other sample comes out in its own interleaved place, without shaping and look-ahead within about an eighth of the step, as long as it is less than two steps from the one before |
| AdpcmRoundTrips.EncoderLooksAhead | src/base/adpcm-lib.c:190-250 | the code of each sample begins a choice of codes, for it and as many samples of its channel as the look-ahead asked for reaches within the block, with the least sum of squared distances; without any it is the greedy one |
| AdpcmDecoders.DecodableExactly | src/base/adpcm-lib.c:346-366 | a block is given up exactly if it has no room for the headers, or one of them has an index above 88 or a fourth byte that is not zero; else all whole chunks are decoded |
| Nals.StopsAtForbidden | src/h264parse/h264_nal.c:8-50 | the scan stops at the first place that no escaped stream has, or else at the end |
| Nals.PastExactly | src/h264parse/h264_nal.c:17-42 | it goes on to read the byte behind the input if and only if the input ends in 00 00 03 and has no such place |
| Nals.PastAtThree | src/h264parse/h264_nal.c:25-30 | the shortest such input is 00 00 03 |
| Nals.SpaceExactly | src/h264parse/h264_nal.c:47-56 | for an encapsulated string a buffer is large enough exactly if it holds the string, and then both sizes are reported |
| Nals.OutcomeExactly | src/h264parse/h264_nal.c:17-70 | for any input and room: no room, the read behind the input, or both sizes, told by the input alone |
| Nals.EscapesBack | src/h264parse/h264_nal.c:8-56 | escaping the output gives the consumed prefix, less a final 03 in the case of that read |
| Nals.Unescapes | src/h264parse/h264_nal.c:8-56 | unescaping an escaped byte string consumes all of it and returns the string |
| Nals.InverseExactly | src/h264parse/h264_nal.c:8-56 | it inverts the encapsulation of section 7.4.1 of ITU-T H.264, final 03 included, exactly for byte strings that do not end in a zero |
| Nals.EscapedIsClean | src/h264parse/h264_nal.c:13-13 | an escaped stream has no forbidden place |
| Nals.NalToRbsp | src/h264parse/h264_nal.c:2-57 | the outcome and the sizes are those of the scan; -1 exactly for want of room; the buffer gets as much of the output as there is room for, and nothing else changes |
| BitReaders.NumberBack | src/h264parse/bs.c:16-25 | a number written in n bits is read back from them |
| BitReaders.UeBack | src/h264parse/bs.c:68-80 | a code number up to 2^31 - 2 written by section 9.1 of ITU-T H.264 is read back, to the exact bit |
| BitReaders.SignedInverse | src/h264parse/bs.c:81-93 | the signed mapping of section 9.1.1 is inverted |
| BitReaders.AllBack | src/h264parse/bs.c:16-93 | any list of ue, se and plain values lying in a buffer is read back in order, to the exact bit |
| BitReaders.RoundTrip | src/h264parse/bs.c:16-93 | writing such a list into bytes and reading it returns the values and ends right behind the last bit |
| BitReaders.PackOnWire | src/h264parse/bs.c:39-53 | bits packed eight to a byte, most significant first, are read at their positions |
| BitReaders.FirstBits | src/h264parse/bs.c:27-38 | the first bits of a byte on a byte boundary are its high bits, all eight the byte itself |
| BitReaders.ZerosBehind | src/h264parse/bs.c:30-50 | behind the end of the buffer there are only zeros |
| BitReaders.BitReader.ReadU1 | src/h264parse/bs.c:39-53 | the bit at the position, 0 behind the end; the position moves by one |
| BitReaders.BitReader.ReadU | src/h264parse/bs.c:16-25 | the next n bits as a number; the position moves by n |
| BitReaders.BitReader.ReadU8 | src/h264parse/bs.c:27-38 | fast and slow path alike: the next eight bits as a number, the position moves by eight |
| BitReaders.BitReader.ReadUe | src/h264parse/bs.c:68-80 | the code at the position and the position behind it; undefined when more than 30 zeros make the shift leave an int |
| BitReaders.BitReader.ReadSe | src/h264parse/bs.c:81-93 | the signed value of that code |
| ByteQueues.SpanSnoc | src/net/protocol/core/hg_queue.c:115-121 | a node added behind full ones extends the bytes held by its chunk |
| ByteQueues.FirstBytes | src/net/protocol/core/hg_queue.c:147-152 | the next bytes of the first node are the oldest bytes, and skipping them leaves the rest |
| ByteQueues.Conserved | src/net/protocol/core/hg_queue.c:109-169 | over any run of writes, reads and peeks, bytes read followed by bytes left are the bytes written, in order |
| ByteQueues.MyQueue.NewNode | src/net/protocol/core/hg_queue.c:38-61 | a node from the free list, the oldest there, or a fresh one when that is empty |
| ByteQueues.MyQueue.StreamW | src/net/protocol/core/hg_queue.c:109-131 | the bytes are appended, whatever the node boundaries; the byte count follows; nodes come off the front of the free list, new ones only once that is empty; every node stays in exactly one of the two lists |
| ByteQueues.MyQueue.StreamL | src/net/protocol/core/hg_queue.c:133-169 | the oldest bytes, all that were asked for or none; a peek changes nothing; a read drops exactly them and moves used-up nodes, in order, to the free list |
| ByteQueues.MyQueue.DropFirst | src/net/protocol/core/hg_queue.c:151-158 | the used-up node goes from the front of the chain to the end of the free list |
| SdpTexts.EntriesOfLines | src/base/sdp.c:8-37 | printed lines without line breaks in them are loaded again one by one |
| SdpEndings.EndingsExactly | src/base/sdp.c:14-24 | for any clean lines and any runs of CR and LF between them: the lines are loaded as they are if and only if each ends in CR LF, or in LF with no CR LF anywhere behind, or is the last |
| SdpEndings.AlikeLoads | src/base/sdp.c:14-24 | all lines may end in CR LF, or all in LF |
| SdpEndings.RoundTripAnyEnding | src/base/sdp.c:14-24 | with CR LF, or any such endings, a printed session parses to itself exactly when its version is 0 and it has a time entry |
| SdpEndings.MixedFails | src/base/sdp.c:14-24 | one LF in front of a CR LF and the description is refused |
| SdpFields.NumberBack | src/base/sdp.c:65-82 | a printed 64-bit number is read as itself, to its end |
| SdpFields.TimeBack | src/base/sdp.c:87-91 | a time printed with d, h or m behind it is read in days, hours or minutes |
| SdpLoose.NumberRead | src/base/sdp.c:65-86 | a number is read behind blanks and a sign, whatever its digits, and held within 64 bits |
| SdpLoose.NumberMissing | src/base/sdp.c:65-86 | without a digit behind blanks and a sign there is no number |
| SdpLoose.IntegerRead | src/base/sdp.c:65-79 | the conversions i and l take no unit, and an int is what fits 32 bits |
| SdpLoose.RestIsLost | src/base/sdp.c:65-86 | if a number is missing so is the rest of the line: numbers are 0 and texts empty |
| SdpLoose.IntWraps | src/base/sdp.c:73-79 | a number too large for an int is stored modulo 2^32 |
| SdpLoose.SplitSpaced | src/base/sdp.c:44-98 | any run of separators counts as one, and those in front of the first field and behind the last as none |
| SdpFields.SplitBack | src/base/sdp.c:39-101 | fields printed with one separator between them are split into the same fields, the text behind them left over |
| SdpRoundTrips.InfoBack | src/base/sdp.c:256-263 | a printed media line, with or without a port count, gives its fields back |
| SdpRoundTrips.TimesBack | src/base/sdp.c:207-228 | printed time lines with their repeats and offsets are read back up to the next key |
| SdpRoundTrips.ToZonesBack | src/base/sdp.c:231-239 | printed zone pairs are read back |
| SdpRoundTrips.MediasBack | src/base/sdp.c:250-271 | printed media, with title, connection, bandwidths, key and attributes, are read back each for itself |
| SdpRoundTrips.ParseBack | src/base/sdp.c:151-273 | parsing the printout of a session of version 0 with a time entry returns the session |
| SdpRoundTrips.TimeAlways | src/base/sdp.c:206-228 | a session that was parsed has version 0 and a time entry, though the code takes any line for the first one |
| SdpRoundTrips.PrintoutQuiet | src/base/sdp.c:336-403 | no printed line contains a line break |
| SdpRoundTrips.RoundTripExactly | src/base/sdp.c:151-404 | for sessions whose fields can stand in their places, parsing the printed text returns the session if and only if its version is 0 and it has a time entry |
| SdpParsers.SplitValues | src/base/sdp.c:39-101 | the format-driven loop yields the fields and the rest that conversion by conversion reading gives |
| SdpParsers.Reader.LoadNextEntry | src/base/sdp.c:8-37 | the next entry of the text becomes the current one, none when the line is not an entry |
| SdpParsers.Reader.GetTimes | src/base/sdp.c:207-228 | the do-while loop reads the time entries and stops before the first line with another key |
| SdpParsers.Reader.GetMedias | src/base/sdp.c:250-271 | the media loop reads all media up to the first line with another key |
| SdpParsers.SdpParse | src/base/sdp.c:151-278 | on any text the outcome is that of the entry grammar; a null pointer is dereferenced exactly when the three mandatory lines are followed by nothing but lines of the head |
| SdpPrinters.SdpDump | src/base/sdp.c:327-404 | the text printed is the lines of the session's printout |
| NodeChains.NodeChain.Recycle | src/net/protocol/core/hg_buf.cpp:163-174 | the first free node leaves the free list, emptied, and is in neither list |
| NodeChains.NodeChain.Allocate | src/net/protocol/core/hg_buf.cpp:147-153 | a fresh node, empty, in neither list |
| NodeChains.NodeChain.PopLeft | src/net/protocol/core/hg_buf.cpp:119-129 | the pointer work: the second node is the first now, and an emptied chain has no right end |
| HgChannels.HgChannel.StoreSome | src/net/threads/hg_channel.cpp:68-90 | one pass stores a non-empty piece, and the pieces join up |
| HgChannels.HgChannel.Enqueue | src/net/threads/hg_channel.cpp:41-92 | the part under the lock is the append step; the ring is untouched |
| HgChannels.HgChannel.Signal | src/net/threads/hg_channel.cpp:94-96 | the post step |
| HgChannels.HgChannel.Awake | src/net/threads/hg_channel.cpp:104-107 | the step that begins a Drive: the count goes down by one, or stays if the call does not wait |
| HgChannels.HgChannel.MoveNode | src/net/threads/hg_channel.cpp:117-146 | one pass keeps all bytes in order, and leaves a node in the chain only with a full ring |
| HgChannels.HgChannel.DrainLocked | src/net/threads/hg_channel.cpp:108-148 | the part under the lock is the drain step |
| HgChannels.HgChannel.DeliverFront | src/net/threads/hg_channel.cpp:162-224 | a delivery step if a whole message is at the front, else the finish step |
| HgChannels.HgChannel.HandlerWrites | src/net/threads/hg_channel.cpp:203-203 | a handler's calls of WriteChan are append and post steps; the ring is untouched |
| Frames.MakeBuf | src/net/common/hg_netabstract.cpp:34-79 | a node of the chain: its slice if there is data, behind room for the header if it is the first, whose bytes are the encoded header |
| SendStreams.SendStream.PacketHead | src/net/protocol/huage_sendstream.cpp:174-174 | the bytes of the header of a packet are its encoding |
| SendStreams.SendStream.SendFragment | src/net/protocol/huage_sendstream.cpp:243-319 | one pass sends the next fragment of the node: sending the rest afterwards completes sending the node |
| SendStreams.SendStream.SendRest | src/net/protocol/huage_sendstream.cpp:229-321 | one pass sends the next node: sending the rest afterwards completes sending the chain |
| SendStreams.NodeSend | src/net/protocol/huage_sendstream.cpp:243-319 | what is left of a node is its next fragment, of at most 990 bytes, and what is left then |
| SendStreams.ChainSend | src/net/protocol/huage_sendstream.cpp:229-321 | what is left of a chain is its next node and what is left then |
| RecvStreams.RecvStream.FreeChain | src/net/protocol/huage_recvstream.cpp:217-218 | every packet of the partial frame is freed, in order |
| RecvStreams.RecvStream.Deliver | src/net/protocol/huage_recvstream.cpp:268-285 | the partial frame is handed over whole with its size, and the receiver is empty |
| MyPools.MyPool.constructor | src/net/protocol/core/hg_pool.c:7-23 | a new pool is the state of the empty run, with pages that hold a request of the given size and its header |
| PoolSpecs.GrowInv | src/net/protocol/core/hg_pool.c:122-126 | taking a page, recycled or new, keeps all page numbers distinct and all other pages as they were |
| PoolSpecs.RecycleIds | src/net/protocol/core/hg_pool.c:93-109 | moving a page to the recycled list keeps all page numbers distinct |
| PoolSpecs.PeakBounds | src/net/protocol/core/hg_pool.c:32-36 | at no point of a run are more pages live than the peak |
| PoolSpecs.PeakReached | src/net/protocol/core/hg_pool.c:32-36 | at some point as many are |
| MyPools.MyPool.HasRoom | src/net/protocol/core/hg_pool.c:122-122 | the test is whether there is a last page with room for the request |
| MyPools.MyPool.MakeRoom | src/net/protocol/core/hg_pool.c:122-126 | afterwards the last page has room, and pages that were live are as they were |
| MyPools.MyPool.AddPage | src/net/protocol/core/hg_pool.c:122-126 | a recycled or new page becomes the last live one |
| MyPools.MyPool.Place | src/net/protocol/core/hg_pool.c:128-137 | the block is carved off the last page, with its header; nothing below the fill mark changes |
| MyPools.MyPool.Uncount | src/net/protocol/core/hg_pool.c:148-153 | offset and size read back from the header lead to the page and take the block off its counter |
| MyPools.MyPool.Count | src/net/protocol/core/hg_pool.c:148-153 | the page of the block, and no other, loses it |
| PageLists.PageList.BypassRight | src/net/protocol/core/hg_pool.c:95-99 | the left neighbour, or the list itself, skips the node |
| PageLists.PageList.BypassLeft | src/net/protocol/core/hg_pool.c:100-104 | the right neighbour, or the list itself, skips the node |
| AdpcmEncoders.AdpcmContext.constructor | src/base/adpcm-lib.c:69-90 | each channel starts at the index found for its initial delta, everything else zero |
| AdpcmEncoders.AdpcmContext.ShapeNoise | src/base/adpcm-lib.c:199-222 | the three kinds of noise shaping, each with its new filter state, to which the shaping laws apply |
| AdpcmEncoders.AdpcmContext.EncodePair | src/base/adpcm-lib.c:260-264 | two samples give one byte, the earlier in the low half |
| AdpcmEncoders.AdpcmContext.EncodeGroup | src/base/adpcm-lib.c:257-265 | eight samples of a channel give the four bytes of its chunk, and no other byte changes |
| AdpcmEncoders.AdpcmContext.OneGroup | src/base/adpcm-lib.c:255-266 | one pass finishes one channel of the chunk and leaves all other finished bytes alone |
| AdpcmEncoders.AdpcmContext.WriteHeader | src/base/adpcm-lib.c:302-309 | four bytes from which a decoder starts in this channel's state |
| AdpcmDecoders.DecodeOne | src/base/adpcm-lib.c:363-374 | the next sample of a channel stands in its interleaved place; no other channel's or chunk's sample changes |
| AdpcmDecoders.DecodeByte | src/base/adpcm-lib.c:363-389 | a byte gives two samples, the low half first |
| AdpcmDecoders.DecodeGroup | src/base/adpcm-lib.c:362-390 | four bytes give eight samples of one channel, a composite sample apart |
| AdpcmDecoders.DecodeNext | src/base/adpcm-lib.c:360-393 | one pass brings one channel to the end of the chunk and keeps the others |
| AdpcmDecoders.DecodeChunks | src/base/adpcm-lib.c:357-396 | all channels are brought to the end of the block |
| BitReaders.BitReader.constructor | src/h264parse/bs.c:2-9 | a new reader is at bit 0 |
| ByteQueues.MyQueue.constructor | src/net/protocol/core/hg_queue.c:18-35 | a new queue is empty and has no node |
| ByteQueues.MyQueue.Link | src/net/protocol/core/hg_queue.c:85-100 | a node out of both lists becomes the last of the chain |
| ByteQueues.MyQueue.WriteNew | src/net/protocol/core/hg_queue.c:115-121 | a chunk in a node of its own is appended |
| ByteQueues.MyQueue.WriteInto | src/net/protocol/core/hg_queue.c:122-127 | a chunk in the room left in the last node is appended |
| ByteQueues.MyQueue.WriteSome | src/net/protocol/core/hg_queue.c:114-129 | one pass appends the next bytes, as many as go into one node |
| ByteQueues.MyQueue.Peek | src/net/protocol/core/hg_queue.c:143-164 | walking the chain without changing anything yields the oldest bytes |
| ByteQueues.MyQueue.ReadSome | src/net/protocol/core/hg_queue.c:143-164 | one pass takes some of the oldest bytes, and the rest stays |
| ByteQueues.MyQueue.ReadOut | src/net/protocol/core/hg_queue.c:151-158 | a first node read to its end is recycled, and the bytes behind it stay |
| ByteQueues.MyQueue.Read | src/net/protocol/core/hg_queue.c:143-164 | takes exactly the oldest bytes asked for |
| SdpParsers.ReadNumbers | src/base/sdp.c:221-225 | the loop reads numbers to the end of the line |
| SdpParsers.ReadZoneList | src/base/sdp.c:232-239 | the loop reads pairs to the end of the line |
| SdpParsers.Reader.LoadFacultative | src/base/sdp.c:123-128 | takes the current line exactly when it has the key |
| SdpParsers.Reader.LoadMultiple | src/base/sdp.c:130-136 | takes all lines up to the first with another key |
| SdpParsers.Reader.GetConnInfo | src/base/sdp.c:103-110 | a connection line, if there is one |
| SdpParsers.Reader.GetBandwidthInfo | src/base/sdp.c:112-121 | all bandwidth lines up to the first with another key |
| SdpParsers.Reader.GetRepeats | src/base/sdp.c:215-227 | all repeat lines up to the first with another key |
| SdpParsers.Reader.GetZones | src/base/sdp.c:231-241 | the zone line, if there is one |
| SdpParsers.Reader.GetInfo | src/base/sdp.c:256-263 | the fields of a media line: kind, port, port count if a slash follows, protocol, formats |
| SdpParsers.Reader.GetMedia | src/base/sdp.c:253-270 | a media line and the lines that belong to it |
| SdpParsers.GetHead | src/base/sdp.c:188-204 | the optional lines in front of the time lines |
| SdpPrinters.LinesConcat | src/base/sdp.c:336-403 | printing is compositional |
| SdpPrinters.SpacedIsJoined | src/base/sdp.c:361-363 | numbers printed each behind a blank are fields with one separator between them |
| SdpPrinters.DumpTimes | src/base/sdp.c:355-365 | the time lines, each with its repeats |
| SdpPrinters.DumpZones | src/base/sdp.c:367-374 | the zone line, if there are pairs, without a blank at its end |
| SdpPrinters.DumpInfo | src/base/sdp.c:386-392 | the media line, with the port count only if it is not zero |
| SdpPrinters.DumpMedias | src/base/sdp.c:382-403 | all media with the lines that belong to them |
| RepostLaws.RepostSends | src/net/protocol/huage_sendstream.cpp:91-110 | a request that passes the distance test is answered with whatever its slot holds, and not at all if the slot is empty |
| RepostLaws.NeverSent | src/net/protocol/huage_sendstream.cpp:91-97 | of the requests that pass for a number never assigned, 65535 included, exactly the answerable ones find their slot empty |
| RepostLaws.SentAgo | src/net/protocol/huage_sendstream.cpp:91-91 | a number that passes and was assigned within the last 200 was assigned exactly that many fragments ago |
| RepostLaws.ReleasedExactly | src/net/protocol/huage_sendstream.cpp:144-175 | a frame with a fragment sent at most 200 ago has been released exactly when its last fragment is sent and that one's number is not answerable |
| RepostLaws.RepostExactly | src/net/protocol/huage_sendstream.cpp:89-115 | over all histories of whole frames and all 16-bit numbers: the last fragment of that number is sent again, with only the command changed and out of a frame not released, if and only if the request passes the distance test, is answerable, and so is the number of its frame's last fragment, if that is sent; a number never assigned gets no answer if and only if it fails the test or is answerable; answerable is a condition on the two numbers and on whether the counter has wrapped |
| RepostLaws.RecentIsResent | src/net/protocol/huage_sendstream.cpp:89-111 | what a receiver can rely on: of the last 200 numbers of the current lap, every one that has been assigned is sent again, with only the command changed, out of a frame not released; the one that has not, 0 before the first wrap, gets no answer |
| RepostLaws.AssignedExactly | src/net/protocol/huage_sendstream.cpp:296-296 | which numbers have been assigned after n fragments: all after a full round, before that 1 to n |
| RepostLaws.WrapRepost | src/net/protocol/huage_sendstream.cpp:91-111 | whenever the cache length does not divide the modulus, there is a request that passes, for a fragment that still owns its slot, answered out of a frame that has been released |
| RepostLaws.ProgramRepost | src/net/protocol/huage_sendstream.cpp:91-111 | with the program's numbers that input is number 65399 after 65535 fragments |
| RepostLaws.FromReleasedIsWrong | src/net/protocol/huage_sendstream.cpp:100-111 | such an answer is not a right one |
| RepostLaws.ProgramUnsent | src/net/protocol/huage_sendstream.cpp:91-97 | after 150 fragments the requests for 65485 and 65535, never sent, pass and are answered with other packets |
| RepostLaws.LapBehind | src/net/protocol/huage_sendstream.cpp:92-92 | the request exactly 200 behind in the current lap passes and is answered wrong: its slot has just been taken |
| SendCacheLaws.RetiredAreReleased | src/net/protocol/huage_sendstream.cpp:164-168 | the converse: when the slot of its last fragment has been taken, a frame has been released |
| SendRuns.WrapIsSession | src/net/protocol/huage_sendstream.cpp:225-322 | the run that leaves a slot dangling is the sending of whole frames, one of two nodes and the others of one byte |
| SendRuns.SessionsSafeExactly | src/net/protocol/core/tools.c:346-349 | over all sessions of whole frames no slot ever points into a released frame if and only if the cache length divides the modulus |
| Fragmenting.TwoBitTags | src/net/protocol/huage_sendstream.cpp:255-267 | whatever size is recorded, every tag fits its two bits |
| HgChannels.HandlesOne | src/net/threads/hg_channel.cpp:104-149 | a Drive that comes to rest has handled a message if one was pending and all fit |
| AdpcmStarts.StepsGrow | src/base/adpcm-lib.c:29-42 | the table of steps grows |
| AdpcmStarts.FoundOnce | src/base/adpcm-lib.c:81-86 | the search for an initial index ends in one place only |
| AdpcmStarts.ClosestExactly | src/base/adpcm-lib.c:79-86 | for every delta, the index found is one of a closest step if and only if the delta does not lie half below the middle of two neighbouring steps |
| AdpcmStarts.SixteenMissed | src/base/adpcm-lib.c:79-86 | a delta of 16 is itself a step, but gets the index of step 17 |
| AdpcmShapings.StaticFeedsAllBack | src/base/adpcm-lib.c:221-237 | with static noise shaping the filter's state is its initial state plus the sum of all reconstruction errors so far |
| AdpcmShapings.LightIsStatic | src/base/adpcm-lib.c:199-222 | while the weight is below 256, dynamic shaping aims at the same sample as static shaping and keeps the same error |
| AdpcmShapings.FeedbackBounded | src/base/adpcm-lib.c:208-219 | up to a weight of 1280 dynamic shaping never moves a sample by more than the error noted |
| AdpcmShapings.HeavyForgets | src/base/adpcm-lib.c:211-219 | above a weight of 768 the filter keeps nothing of earlier errors |
| AdpcmShapings.WeightMoves | src/base/adpcm-lib.c:204-204 | after t samples the weight is at most 2t from where it was |
| AdpcmShapings.LightFeedsAllBack | src/base/adpcm-lib.c:199-237 | so, as long as the initial weight plus 2t is below 256, dynamic shaping too holds the sum of all errors |
| AdpcmShapings.WeightDescends | src/base/adpcm-lib.c:200-204 | the weight moves by two exactly when there is a prediction and it missed, so that the same prediction comes nearer, by no more than a 512th of it and one |
| AdpcmShapings.HistoryIsInput | src/base/adpcm-lib.c:205-206 | over any number of samples the prediction is made from the last two samples of the channel |
| AdpcmShapings.MiddleShare | src/base/adpcm-lib.c:208-220 | between the weights 256 and 768 the share of the error taken off falls from all to none, and the filter keeps what the sample aimed at |
| AdpcmShapings.HeavyShare | src/base/adpcm-lib.c:208-217 | above 768 a share that grows with the weight is added, but never the error itself |
| AdpcmShapings.OffLeavesFilter | src/base/adpcm-lib.c:197-227 | without shaping the filter stays as it was over any number of samples |
| BitReaders.CountsExactly | src/h264parse/bs.c:73-76 | the reader counts n zeros or more exactly when the next n bits are zeros and more of the buffer follows |
| BitReaders.UndefinedExactly | src/h264parse/bs.c:68-93 | a code has no defined value exactly when it begins with 31 zeros in front of the end of the buffer |
| BitReaders.FourZeroBytes | src/h264parse/bs.c:68-80 | four zero bytes are such a buffer |
| MyPools.MyPool.FreeBlock | src/net/protocol/core/hg_pool.c:148-158 | the part behind the null test |
| MyPools.StoreIn | src/net/protocol/core/hg_pool.c:137-137 | a byte stored in a block's payload changes that byte only and no header |
| MyPools.ReadHeader | src/net/protocol/core/hg_pool.c:148-149 | in front of a block's payload stand its offset and its size |
| SdpOutcomes.HeadExactly | src/base/sdp.c:188-204 | the optional lines use up all lines exactly when their keys are, in order, at most one i, at most one u, any e, any p, at most one c, any b |
| SdpOutcomes.OutcomeExactly | src/base/sdp.c:151-278 | for all inputs, by their keys alone: failure exactly without the three mandatory lines; a null pointer dereferenced exactly when only such optional lines follow; else a session |
| SdpTails.RestIgnored | src/base/sdp.c:188-278 | whatever lines stand behind a text that is parsed, from one with none of the optional keys on, change nothing: unknown lines end the description |
| SdpOutcomes.NoTimeLine | src/base/sdp.c:206-212 | the text v=0, o=x, s=x dereferences a null pointer |
| SdpOutcomes.AttributeForTime | src/base/sdp.c:206-213 | in a text of four lines, an attribute line where the time line is due, whose value does not begin with a number, a sign or a blank, is taken for a time entry of zeros and lost as an attribute |

## Left out

- HgChannels.HgChannel.WriteChan: its callers are taken to pass a head and exactly the body bytes the head announces, or nothing; messages that disagree with their own head are not modelled, nor in HgChannels.HgChannel.Enqueue and HgChannels.HgChannel.HandlerWrites.
- HgChannels.HgChannel.Drive: what handlers do besides writing messages is not modelled, their writes are a parameter.
- NodeChains.NodeChain.NewNode: nodes and their buffers come from the allocator as objects; that both are carved from one pool is not modelled here.
- Frames.CreateFrameStr: sizes are not negative, and slices have at least one byte, as the loop does not end otherwise; buffers of a frame are values, as nothing writes them once they are filled.
- SendStreams.SendStream.Post: cached pointers into a frame's memory are the bytes they point to, and the number of the frame that owns them; sending is appending to a list of datagrams.
- RoundTrips.HopExactly: frame sizes with the header are those an int can record.
- RecvStreams.RecvStream.MergeData: the callback is a list of delivered frames; the chain of a partial frame is a sequence of packets.
- MyPools.MyPool.Alloc: page storage is a sequence field of the page, the pointer handed out is a page and an offset; sizes within 8 of 2^32, whose sum with the header wraps in 32 bits, count as too large.
- AdpcmEncoders.AdpcmContext.EncodeSample: overflow of 32-bit arithmetic in the noise shaper and in the distances of the search is not modelled.
- Nals.NalToRbsp: the byte behind the input, when it is read, is not given a value; the outcome records the read.
- BitReaders.BitReader.ReadUe: codes with more than 30 zeros, where the C shift is undefined, have no value.
- ByteQueues.MyQueue.StreamW: the 32-bit byte count does not wrap; node lengths are positive, as the write loop does not end otherwise; `myQuClear`, which leaves the count stale, is no call of a run.
- SdpParsers.SdpParse: running out of memory is not modelled; the multiplication of a time by its unit does not wrap; pointers into the cut-up text are strings.
- SdpPrinters.SdpDump: printing goes to a string.
- Sockets, epoll, threads, JSON, logging and debug dumps: input and output.
- TCP framing and the pipe between threads (`src/net/common/hg_tcpabstract.cpp`, `src/net/common/hg_pipe.cpp`).
- Session lists, rooms and mixing, timers.
- `FindUseful` and `writeTocache` of the receive stream: the former has an empty body, the latter only feeds it.
- Destroying pools, queues and channels.
- Retransmission requests (`RTP_CMD_REQ_REPOST`) and the direct sending of commands.
- G.711, MD5, colour conversion and the field lists of H.264 parameter sets: easy or finite.
