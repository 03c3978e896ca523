# Verified models of WiFu

WiFu moves transport protocols into user space. This project models its most intricate parts in Dafny and
proves what they are for. `dafny verify dfyconfig.toml` checks everything.

## What is modelled

**Receive reassembly** (`SequenceNumbers`, `PacketBuffer`, `Reassembly`, `Wraparound`, `StreamDelivery`,
`ReceiveBuffer`, `ReceiveRuns`). `TCPPacketBuffer` keeps out-of-order, duplicated and overlapping segments in a
list sorted in circular order, counts the bytes it holds, and hands out the contiguous prefix. The algorithm is written
once, over an `Arithmetic` that is either the 32-bit one of the program or the unbounded one. On unbounded
positions it is proved against sets of covered byte positions and a byte stream; a simulation carries this
over to 32-bit runs; the class, with the program's loops, cached count and erasures, equals the 32-bit steps, and a driver
replays whole runs on it.

**Packet rewriting** (`Bytes`, `InternetChecksum`, `ShimPackets`, `TcpOptions`, `TcpSegments`,
`TcpNesting`, `PacketObjects`). Inserting and removing shim headers between the IP and the transport header,
the Internet checksum with deferred carries (RFC 1071), and the option walks that lower the MSS of SYN segments. The class
`IPPacket` rewrites its 4096-byte buffer in place; each method equals a function of the packet's bytes, and
the lemmas are about those functions. The host's byte order is a parameter.

**Timer scheduler** (`TimerScheduler`, `TimeoutManagement`). A step system in which callers enqueue and
cancel timers while a worker dequeues, checks, waits on a binary semaphore, is woken, interrupted or times
out. The invariant is proved for every interleaving; the methods of the classes are runs of these steps.

**Request and response** (`FrontEndHandshake`, `FrontEndObjects`, `WedgeCalls`, `WedgeTable`). The handshake
of a front-end socket between calling threads and receivers, with the pool and map of socket objects; and the
call table of the kernel wedge, where a reply is matched to a slot by socket and call type while interrupted
callers free slots without taking the lock.

**Two indexes** (`SocketIndex`, `SocketObjects`, `QueryStrings`). The socket collection that follows address
changes, and the printer and parser of query strings.

Classes change their fields as the program does and are tied to functions or steps; step systems cover all
runs of any number of threads. Inputs from the network, the clock and the schedule are parameters or events.

## Where the program does not do what one might expect

Each of these is kept as the code has it, with a lemma that says exactly when it matters.

- The checksum is documented as independent of the byte order of the host (`core/src/packet/ippacket.cc:23-24`).
  It is, exactly if there is no odd last byte or that byte is zero: `InternetChecksum.ByteOrderAgnostic`.
- A shim that does not fit is refused only after the MSS of a SYN has been lowered: `TcpSegments.RejectedInsert`.
- `get_next_header` skips one shim, so behind two shims `tcp_` does not point to a TCP header
  (`ShimPackets.NextHeaderSkipsOneShim`): the third insertion takes a byte of the inner shim for the TCP flags
  (`TcpNesting.InnerShimIsRead`), and with the bit of SYN in it, it may change that shim
  (`TcpNesting.InnerShimIsChanged`). Nested shims on a TCP packet come off like a stack exactly if making room
  changes nothing (`TcpNesting.TcpShimsAreAStack`), and when that is: `TcpNesting.RoomChangesNothing`.
- Moving the first expected number keeps a cached count that may be wrong: `Reassembly.RebaseIsSafe`.
- The order on sequence numbers is not transitive (`SequenceNumbers.NotTransitive`); when it is:
  `SequenceNumbers.TransitiveExactly`, and on which windows it agrees with positions:
  `SequenceNumbers.WindowExactly`. How wide the window of the receive buffer may be:
  `StreamDelivery.WidestWindow`.
- A front-end call can leave with the response to another (`FrontEndHandshake.MixUp`), exactly if a call is sent
  while another one waits: `FrontEndHandshake.OwnResponseExactly`.
- A failed accept stores a pool object under -1; a second one loses the first
  (`FrontEndObjects.FailToAcceptTwice`). When objects are lost: `FrontEndObjects.FrontEnd.FinishAccept`.
- The call numbered 2^32 - 1 gets a slot that still looks free: `WedgeCalls.OwnedUntilRollover`;
  a run that gets there: `WedgeCalls.RolloverSharesSlot`. A reply that finds no slot is written at index -1; when
  that happens: `WedgeCalls.ReplyFindsSlot`, a run that gets there: `WedgeCalls.InterruptedCallLosesReply`.
  A caller's result does not depend on what the daemon returned: `WedgeTable.ReturnValueIsIgnored`.
- A socket removed from the collection comes back with its next address change, if it was ever pushed:
  `SocketIndex.RemovedComesBack`; which sockets are in the collection after a run: `SocketIndex.LiveExactly`.
- Two address pairs can share a key (`SocketIndex.KeysCollide`); which ones do:
  `SocketIndex.KeysCollideExactly`, and that local addresses of one length rule it out:
  `SocketIndex.EqualLengthKeysAreDistinct`.
- The query string parser goes on for ever on strings that fail a simple check: `QueryStrings.ReturnsExactly`.

## Model

| member | source | states |
|---|---|---|
| `SequenceNumbers.LessThanMeasuresDistance` | transport/src/Math.cc:19-23 | `less_than` depends only on how far ahead the second number is on the circle, with the tie at half a circle broken by size |
| `SequenceNumbers.Trichotomy` | transport/src/Math.cc:19-23 | of two different numbers exactly one is less than the other |
| `SequenceNumbers.NotTransitive` | transport/src/Math.cc:19-23 | three numbers for which the order is not transitive |
| `SequenceNumbers.TransitiveExactly` | transport/src/Math.cc:19-23 | of three ascending numbers the first is less than the last if and only if the two steps go less than half way round, or just half way across zero |
| `SequenceNumbers.WindowExactly` | transport/src/Math.cc:19-23 | comparison agrees with positions in every stretch of n positions if and only if n is at most 2^31 |
| `SequenceNumbers.WrapKeepsOrder` | transport/src/Math.cc:19-27 | positions closer than 2^31 compare as their 32-bit numbers do |
| `SequenceNumbers.WrapKeepsIntervals` | transport/src/Math.cc:3-27 | all four `between` functions and `less_than_or_equal` decide the intervals they are named for, on positions in one half circle |
| `SequenceNumbers.BetweenTestsSegment` | transport/src/Math.cc:15-17 | for a segment shorter than 2^31, `between` decides "strictly inside the segment" for every number on the circle |
| `SequenceNumbers.WrapRoundTrip` | transport/src/Math.cc:19-23 | a position is recovered from its 32-bit number if and only if it lies in the half-open circle around a known one |
| `PacketBuffer.Round` | transport/src/TCPPacketBuffer.cc:74-92 | one round of either loop on 32-bit numbers, branch by branch: which suffix of the packet is new and where the sweep goes next |
| `PacketBuffer.OverlapIsInside` | transport/src/TCPPacketBuffer.cc:79-84 | in the overlap branch the part to skip is a proper part of the packet, without any window assumption |
| `Reassembly.LowerBoundSplits` | transport/src/TCPPacketBuffer.cc:16-16 | everything before the position is smaller, what is at it is not |
| `Reassembly.SizeCounts` | transport/src/TCPPacketBuffer.cc:103-147 | for every sorted list, overlapping, nested or disjoint, the sweep counts the distinct covered positions at or after the first expected one |
| `Reassembly.SweepCovers` | transport/src/TCPPacketBuffer.cc:69-98 | a read stops at the first uncovered position, and what it leaves covers exactly what it has not handed out |
| `Reassembly.SweepDelivers` | transport/src/TCPPacketBuffer.cc:69-98 | a read hands out the stream from where it starts to where it stops |
| `Reassembly.SweepPicks` | transport/src/TCPPacketBuffer.cc:69-98 | where packets disagree, each byte handed out is that of the packet with the lowest number among those that reach beyond its position |
| `Reassembly.PlacedIsSorted` | transport/src/TCPPacketBuffer.cc:16-32 | insertion keeps the list strictly sorted and adds nothing but the packet |
| `Reassembly.PlacedCovers` | transport/src/TCPPacketBuffer.cc:16-32 | insertion covers exactly the packet's positions more, whichever of two equally numbered packets is thrown away |
| `Reassembly.PlacedExactly` | transport/src/TCPPacketBuffer.cc:16-32 | which packets the list holds then: of those with one number the longest, of equally long ones the later, and all others |
| `Reassembly.InsertKeeps` | transport/src/TCPPacketBuffer.cc:11-42 | the cached count stays right, even after the erasure at line 39 that does not mark it dirty |
| `Reassembly.InsertCounts` | transport/src/TCPPacketBuffer.cc:11-42 | an insert returns exactly the number of newly covered positions |
| `Reassembly.HeldExactly` | transport/src/TCPPacketBuffer.cc:11-42 | the same for the whole call: a packet with a new number is held if and only if it brings a position that was not covered |
| `Reassembly.ReadCovers` | transport/src/TCPPacketBuffer.cc:57-101 | after a read every pending position is either behind the first expected one or still pending |
| `Reassembly.RebaseIsSafe` | transport/src/TCPPacketBuffer.cc:157-160 | `set_first_sequence_number` keeps the cache right for every number if and only if the cache is dirty or no packet carries data |
| `Reassembly.RunCounts` | transport/src/TCPPacketBuffer.cc:11-147 | over any run, whatever the packets carry: delivered and pending positions are those that arrived, insert results add up to their number |
| `Reassembly.RunStreams` | transport/src/TCPPacketBuffer.cc:11-147 | over any run of packets that carry bytes of one stream: what is delivered is the stream so far |
| `Reassembly.RunSourced` | transport/src/TCPPacketBuffer.cc:11-147 | over any run, whatever the packets carry: each delivered byte is, at its position, a byte of some packet that arrived |
| `Wraparound.SizeWraps` | transport/src/TCPPacketBuffer.cc:103-147 | counting on 32-bit numbers equals counting on positions |
| `Wraparound.SweepWraps` | transport/src/TCPPacketBuffer.cc:57-101 | reading on 32-bit numbers equals reading on positions |
| `Wraparound.InsertWraps` | transport/src/TCPPacketBuffer.cc:11-42 | inserting on 32-bit numbers equals inserting on positions |
| `Wraparound.RunWraps` | transport/src/TCPPacketBuffer.cc:11-147 | simulation: wrapping commutes with whole runs that stay in the window, across 2^32 any number of times |
| `StreamDelivery.RunKeepsCount` | transport/src/TCPPacketBuffer.cc:11-101 | every 32-bit run, whatever the packets carry: what is handed out has arrived; the first expected number is the start plus the bytes handed out mod 2^32; insert results add up to the positions that arrived, and to bytes delivered plus `size()` |
| `StreamDelivery.DeliversPrefix` | transport/src/TCPPacketBuffer.cc:11-101 | every 32-bit run of packets that carry bytes of one stream hands out exactly a prefix of the stream, and the same holds of its counts |
| `StreamDelivery.EveryByteArrived` | transport/src/TCPPacketBuffer.cc:57-101 | where packets disagree about a byte, what is handed out is still, byte by byte, what some arrived packet carries at that position |
| `StreamDelivery.LaterCopyWins` | transport/src/TCPPacketBuffer.cc:22-32 | of two packets with one number the longer is handed out, of two equally long ones the later |
| `StreamDelivery.CacheIsRight` | transport/src/TCPPacketBuffer.cc:103-151 | in every reachable state, whatever the packets carry, the cache is -1 or equals a fresh recomputation, which fits a signed int |
| `StreamDelivery.ReadIsMaximal` | transport/src/TCPPacketBuffer.cc:57-101 | a read hands out the longest run that arrived, whatever the packets carry: the next position never arrived |
| `StreamDelivery.OnlyArrivalsCount` | transport/src/TCPPacketBuffer.cc:11-101 | after a read, lengths, positions and counts depend on the set of arrived positions only, whatever the packets carry |
| `StreamDelivery.OnlyArrivalsMatter` | transport/src/TCPPacketBuffer.cc:11-101 | with one stream, the same holds of the bytes handed out: not order, duplicates, overlaps or earlier reads matter |
| `StreamDelivery.OrderBetweenReadsCounts` | transport/src/TCPPacketBuffer.cc:11-42 | between reads, the same packets in any order and with any duplication give the same total, the same covered positions and the same `size()`, whatever they carry |
| `StreamDelivery.OrderBetweenReads` | transport/src/TCPPacketBuffer.cc:11-42 | with one stream, they also give the same next read |
| `StreamDelivery.InsertNeverAborts` | transport/src/TCPPacketBuffer.cc:34-37 | whatever the packets carry, the asserted difference is never negative: it is the number of positions no earlier packet of the run brought |
| `StreamDelivery.LonePacketExactly` | transport/src/TCPPacketBuffer.cc:11-42 | a lone byte ahead of a new buffer is counted, rather than taken for an old one and lost, if and only if it is less than half a turn ahead, or just half a turn across zero |
| `StreamDelivery.WidestWindow` | transport/src/TCPPacketBuffer.cc:11-42 | for every n: insert results are right in every run whose windows hold n positions if and only if n is at most 2^31 |
| `StreamDelivery.WindowIsNeeded` | transport/src/TCPPacketBuffer.cc:57-101 | without the window a packet one turn ahead is handed out as if it were due |
| `ReceiveBuffer.TCPPacketBuffer.constructor` | transport/src/TCPPacketBuffer.cc:3-5 | a new buffer is empty, not started and dirty |
| `ReceiveBuffer.TCPPacketBuffer.SetFirstSequenceNumber` | transport/src/TCPPacketBuffer.cc:157-160 | changes the first expected number only; keeps the cache right when it is dirty or the list is empty |
| `ReceiveBuffer.TCPPacketBuffer.Size` | transport/src/TCPPacketBuffer.cc:103-147 | the counting loop returns, and caches, the sweep of the model on 32-bit numbers |
| `ReceiveBuffer.TCPPacketBuffer.Insert` | transport/src/TCPPacketBuffer.cc:11-42 | list, cache and result after an insert are those of the model's 32-bit step |
| `ReceiveBuffer.TCPPacketBuffer.GetContinuousData` | transport/src/TCPPacketBuffer.cc:57-101 | the reading loop appends, erases and moves on as the model's 32-bit step |
| `ReceiveRuns.AssertionHolds` | transport/src/TCPPacketBuffer.cc:34-37 | the precondition of an insertion, an assertion of the program, holds in every windowed run, whatever the packets carry |
| `ReceiveRuns.Replay` | transport/src/states/TCPTahoeReliabilityState.cc:365-376 | any run of arrivals, reads and size queries on the object: its state is that of the run, insert results add up to the positions that arrived, and if the packets carry bytes of one stream, what was read is the stream so far |
| `InternetChecksum.ComputeChecksum` | core/src/packet/ippacket.cc:318-331 | for every buffer of 16-bit length the two loops compute the checksum; the fold inside the first loop never runs and the last loop takes at most two rounds |
| `InternetChecksum.SumStaysSmall` | core/src/packet/ippacket.cc:319-329 | the running sum stays below 2^31 and two carries finish the fold |
| `InternetChecksum.DeferredCarry` | core/src/packet/ippacket.cc:318-331 | deferring carries gives the complement of the one's-complement sum folded at every word |
| `InternetChecksum.StoreAdds` | core/src/packet/ippacket.cc:186-190 | a number stored at an even offset adds itself to the sum |
| `InternetChecksum.StoredChecksumVerifies` | core/src/packet/ippacket.cc:186-190 | storing the checksum taken over a zeroed field makes the checksum of the whole zero, at any even offset and for any length |
| `InternetChecksum.ByteOrderAgnostic` | core/src/packet/ippacket.cc:318-331 | hosts of both byte orders store the same two bytes if and only if there is no non-zero odd last byte |
| `InternetChecksum.Rfc1071Example` | core/src/packet/ippacket.cc:318-331 | the numerical example of section 3 of RFC 1071, on hosts of both byte orders |
| `Bytes.WrapsAround` | core/src/packet/ippacket.cc:214-214 | 16-bit sums and differences of lengths wrap mod 2^16 and undo each other |
| `ShimPackets.RecalculatedVerifies` | core/src/packet/ippacket.cc:186-190 | recalculation makes the 20-byte header verify, and changes a packet if and only if it did not carry that checksum |
| `ShimPackets.ShimmedLayout` | core/src/packet/ippacket.cc:219-245 | where header, WiFu header, shim and rest are after an insertion |
| `ShimPackets.ShimmedHeader` | core/src/packet/ippacket.cc:222-228 | protocol 253, length enlarged mod 2^16, valid header checksum, every other header byte kept |
| `ShimPackets.ShimRoundTrip` | core/src/packet/ippacket.cc:205-316 | a shim that fits comes off again: every byte and the length are restored, with a recalculated header checksum |
| `ShimPackets.RestoredExactly` | core/src/packet/ippacket.cc:205-316 | the restored packet is the original if and only if the original carried the recalculated checksum |
| `ShimPackets.ShimsAreAStack` | core/src/packet/ippacket.cc:205-316 | where making room does nothing, as for packets that are not TCP, any number of nested shims that fit come off like a stack: each removal undoes the last insertion that is left, and the original remains with a recalculated header checksum |
| `ShimPackets.FitsExactly` | core/src/packet/ippacket.cc:211-216 | in numbers: a shim goes in if and only if datagram length plus 4 plus its length, modulo 2^16, is at most 1500 |
| `ShimPackets.InsertedExactly` | core/src/packet/ippacket.cc:211-248 | in bytes, for every number of header words: behind the header come 1, the kind, the old protocol, the length, the shim and the rest; the header says 253 and the new length, and its 20 bytes verify |
| `ShimPackets.RemovedExactly` | core/src/packet/ippacket.cc:285-316 | in bytes: a packet whose protocol is not 253 keeps all its bytes; from any other exactly the WiFu header and the shim are taken out, and protocol and length are set back |
| `ShimPackets.NextHeaderSkipsOneShim` | core/src/packet/ippacket.cc:192-203 | behind one shim `get_next_header` finds what followed the IP header; this is the header found before the insertion if and only if there was no shim then |
| `TcpOptions.WalkStep` | core/src/packet/tcppacket.cc:225-259 | one round of either walk against the recursive option parser, branch by branch |
| `TcpOptions.FirstExactly` | core/src/packet/tcppacket.cc:225-259 | an option is the first of its kind for the parser if and only if a walk over the bytes from the front, by ones at NOPs and by the length bytes elsewhere, meets it first |
| `TcpOptions.NoneExactly` | core/src/packet/tcppacket.cc:225-259 | the parser finds none if and only if no such walk meets one |
| `TcpOptions.FoundInside` | core/src/packet/tcppacket.cc:225-259 | a value that is found lies inside the options, behind its kind and size |
| `TcpOptions.ParsedInside` | core/src/packet/tcppacket.cc:225-259 | every parsed option lies inside the list |
| `TcpOptions.ParsedApart` | core/src/packet/tcppacket.cc:225-259 | parsed options do not overlap |
| `TcpOptions.ParseIgnoresValues` | core/src/packet/tcppacket.cc:225-259 | bytes inside the value of a parsed option do not influence parsing |
| `TcpOptions.LoweringIsLocal` | core/src/packet/tcppacket.cc:245-250 | lowering the MSS writes at most two bytes, moves no option, and subtracts mod 2^16 |
| `TcpOptions.LoweringKeepsTimestamp` | core/src/packet/tcppacket.cc:220-304 | lowering never changes what the timestamp walk returns |
| `TcpOptions.LoweringAdds` | core/src/packet/tcppacket.cc:245-250 | lowering by a and then b is lowering by a + b mod 2^16 |
| `TcpOptions.TimestampExactly` | core/src/packet/tcppacket.cc:266-293 | what is copied out are the bytes behind kind and size of the first option of kind 8, in their order, if its size is 10, and nothing otherwise |
| `TcpOptions.LoweredExactly` | core/src/packet/tcppacket.cc:243-250 | lowering writes the two bytes behind kind and size of the first option of kind 2, if its size is 4: the number there less the argument mod 2^16, high byte first |
| `TcpOptions.SynOptions` | core/src/packet/tcppacket.cc:220-304 | the options 2,4,5,180, 4,2, 8,10 and eight bytes: these eight bytes are the timestamp, and the MSS of 1460 lowered by 10 is 5,170 |
| `TcpOptions.PaddedOptions` | core/src/packet/tcppacket.cc:266-293 | a timestamp behind NOPs is found, one behind the end of the list is not |
| `TcpSegments.MaxsegWrites` | core/src/packet/tcppacket.cc:245-250 | where in the packet the two bytes are and what they become |
| `TcpSegments.MaxsegSkips` | core/src/packet/tcppacket.cc:221-242 | without SYN, or without a well-formed MAXSEG option on the way, nothing is written |
| `TcpSegments.OptionsAre` | core/src/packet/tcppacket.cc:223-224 | the options are the bytes behind the first 20 of the TCP header, up to as many words as the high nibble of byte 12 says |
| `TcpSegments.MaxsegExactly` | core/src/packet/tcppacket.cc:220-260 | the same in a packet: with bit 1 of byte 13 set, the number behind kind 2 and size 4 is lowered in place, and nothing else changes |
| `TcpSegments.MaxsegChangesOnly` | core/src/packet/tcppacket.cc:220-260 | a packet changes only if bit 1 of byte 13 is set and the first option of kind 2 has size 4 |
| `TcpSegments.MaxsegIsLocal` | core/src/packet/tcppacket.cc:220-260 | only the options of a SYN can change, and pseudo header and layout stay |
| `TcpSegments.MaxsegInBuffer` | core/src/packet/tcppacket.cc:220-260 | lowering the MSS in the buffer lowers it in the packet at its front |
| `TcpSegments.PseudoHeaderFields` | core/src/packet/ippacket.cc:344-350 | the pseudo header holds both addresses, zero, the protocol and the segment length in network order |
| `TcpSegments.ChecksumIsLocal` | core/src/packet/tcppacket.cc:199-202 | storing the TCP checksum changes its two bytes only |
| `TcpSegments.SegmentVerifies` | core/src/packet/tcppacket.cc:199-202 | after recalculation the checksum over pseudo header and segment is zero |
| `TcpSegments.MakeRoomLowers` | core/src/packet/tcppacket.cc:205-210 | making room on a SYN changes the MSS and the TCP checksum only, and the checksum verifies |
| `TcpSegments.DataShimRoundTrip` | core/src/packet/tcppacket.cc:205-210 | where no SYN bit is read at the TCP offset, whatever is there, a shim comes off without a trace, header checksum apart; behind two shims that bit is inside the inner one |
| `TcpSegments.SynShimRoundTrip` | core/src/packet/tcppacket.cc:199-218 | on an unshimmed SYN, inserting and removing a shim changes, checksums apart, only the MSS, lowered by 4 plus the shim length mod 2^16; both checksums verify and the timestamp stays |
| `TcpSegments.RejectedInsert` | core/src/packet/ippacket.cc:208-216 | a refused shim has lowered the MSS all the same; the options are kept if and only if the walk reaches no MAXSEG option |
| `TcpNesting.RoomChangesNothing` | core/src/packet/tcppacket.cc:199-210 | in any buffer and at any offset, making room changes nothing if and only if no SYN bit is read, or there is no MAXSEG option on the way and the checksum field holds what recalculation gives |
| `TcpNesting.RecalculatedSumsToZero` | core/src/packet/tcppacket.cc:199-202 | in any buffer and at any offset, what is summed then sums to zero with the pseudo header, and only the two bytes of the field change |
| `TcpNesting.RoomKeepsHeader` | core/src/packet/tcppacket.cc:199-210 | making room touches nothing in front of the TCP checksum field, so a shim fits as it did before, wherever the TCP header is taken to be |
| `TcpNesting.PlainInsertion` | core/src/packet/ippacket.cc:205-252 | on a whole TCP segment without shims the insertion over the buffer is the one of the lemmas about SYN and data segments |
| `TcpNesting.TcpShimsAreAStack` | core/src/packet/tcppacket.cc:199-218 | nested shims on a TCP packet: each removal gives back the packet with room made for the shim, which behind the first insertion is the packet if and only if making room changed nothing, as when no SYN bit is read |
| `TcpNesting.InnerShimIsRead` | core/src/packet/ippacket.cc:192-203 | behind two shims the TCP flags are read from the tenth byte of the inner shim, or from the segment if that shim is shorter: a third insertion makes room if and only if that byte has the bit of SYN |
| `TcpNesting.InnerShimIsChanged` | core/src/packet/ippacket.cc:205-252 | nested shims that do not come off like a stack: an inner shim that reads as a SYN with a MAXSEG option is changed by the third insertion, and removing the third shim does not give the packet back |
| `PacketObjects.IPPacket.constructor` | core/src/packet/ippacket.cc:31-37 | the packet holds the given bytes and, for TCP, the offset of the next header |
| `PacketObjects.IPPacket.RecalculateIpChecksum` | core/src/packet/ippacket.cc:186-190 | the bytes after recalculation in place |
| `PacketObjects.IPPacket.UdpTcpChecksum` | core/src/packet/ippacket.cc:336-360 | the checksum over pseudo header and the given header and data |
| `PacketObjects.IPPacket.RecalculateTcpChecksum` | core/src/packet/tcppacket.cc:199-202 | the buffer after recalculation in place, wherever the header and the summed bytes lie in it |
| `PacketObjects.IPPacket.SetTcpMaxsegOption` | core/src/packet/tcppacket.cc:220-260 | for every content of the buffer, and every header length field, the walk ends and leaves the bytes the option parser says |
| `PacketObjects.IPPacket.GetTcpTimestampOption` | core/src/packet/tcppacket.cc:264-304 | for every content of the buffer, and every header length field, the walk ends and returns the eight bytes behind kind 8 and size 10 of the first option of kind 8, in their order, or nothing |
| `PacketObjects.IPPacket.MakeRoomForShim` | core/src/packet/tcppacket.cc:205-210 | lowers and recalculates where a SYN bit is read, wherever in the buffer that is, and else does nothing |
| `PacketObjects.IPPacket.CleanupShim` | core/src/packet/tcppacket.cc:212-214 | a TCP packet finds its header again |
| `PacketObjects.IPPacket.InsertIfItFits` | core/src/packet/ippacket.cc:211-251 | once room has been made: the bytes, the length and the TCP offset after the rewriting through the scratch buffer |
| `PacketObjects.IPPacket.InsertShim` | core/src/packet/ippacket.cc:205-252 | for plain, shimmed and short packets alike: the bytes, the length and the TCP offset after room was made and the shim inserted or refused; one step of the nesting where the offset is up to date |
| `PacketObjects.IPPacket.RemoveShim` | core/src/packet/ippacket.cc:285-316 | the bytes and the length after the rewriting through the scratch buffer |
| `TimerScheduler.OrderOfInstants` | transport/src/TimeoutEventComparator.cc:3-13 | on normalized times the comparator orders instants |
| `TimerScheduler.WeakOrder` | transport/src/TimeoutEventComparator.cc:3-13 | on all times it is a strict weak order |
| `TimerScheduler.UpperBound` | transport/headers/PriorityQueue.h:72-72 | everything before the position does not come after the timer, what is at it does |
| `TimerScheduler.InsertedIsSorted` | transport/headers/PriorityQueue.h:72-72 | insertion keeps the queue sorted and puts a timer behind its equals |
| `TimerScheduler.InsertedIsPutIn` | transport/headers/PriorityQueue.h:72-72 | the queue is the old one with the timer in front of exactly those with later deadlines |
| `TimerScheduler.StepCounts` | transport/headers/PriorityQueue.h:55-79 | every step keeps counter plus operations midway equal to the queue length, and the front is never read from an empty queue |
| `TimerScheduler.StepConserves` | transport/src/TimeoutEventManager.cc:35-65 | every step keeps each timer in as many places as it was enqueued times |
| `TimerScheduler.StepGuards` | transport/src/TimeoutEventManager.cc:27-65 | every step keeps: semaphore at 0 means the timer waited on is not cancelled and no queued one is earlier |
| `TimerScheduler.RunKeepsInv` | transport/src/TimeoutEventManager.cc:27-65 | all of this in every reachable state |
| `TimerScheduler.FrontIsThere` | transport/headers/PriorityQueue.h:55-62 | a worker that has taken a count finds a timer at the front of the queue |
| `TimerScheduler.FiresRight` | transport/src/TimeoutEventManager.cc:43-48 | a timer fires only when due, not cancelled, and the earliest one present |
| `TimerScheduler.CancelledNeverFires` | transport/src/TimeoutEventManager.cc:27-41 | a timer enqueued at most once whose cancellation precedes its time-out never fires |
| `TimerScheduler.FiringOrder` | transport/src/TimeoutEventManager.cc:35-52 | of two timers that were enqueued when the first fired, the later one to fire has no earlier deadline |
| `TimerScheduler.Progress` | transport/headers/QueueProcessor.h:48-50 | a queued or held timer is never stranded: some step is possible, at the latest at its deadline |
| `TimerScheduler.QuietRun` | transport/src/TimeoutEventManager.cc:35-52 | from any state with the semaphore at 0 and no worker just woken: without new calls or interruptions every schedule fires the queue from front to back, without the cancelled timers |
| `TimerScheduler.QuietRunIsBounded` | transport/src/TimeoutEventManager.cc:35-52 | from every reachable state, every such schedule is finite but for the passing of time |
| `TimerScheduler.QuietRunCompletes` | transport/src/TimeoutEventManager.cc:35-52 | from every reachable state, every such schedule can go on until the queue is empty and the worker idle; every timer has then fired or was dropped as often as it was enqueued, and from the states of `QuietRun` in its order |
| `TimerScheduler.EveryTimerIsServed` | transport/src/TimeoutEventManager.cc:35-65 | every run can be continued without new calls until every timer enqueued in it has fired or was dropped |
| `TimeoutManagement.BinarySemaphore.constructor` | transport/src/BinarySemaphore.cc:11-17 | starts at 0 or 1 |
| `TimeoutManagement.BinarySemaphore.Post` | transport/src/BinarySemaphore.cc:19-22 | the value is 1 afterwards, however often it is posted |
| `TimeoutManagement.BinarySemaphore.TimedWait` | transport/src/Semaphore.cc:29-37 | times out only if the semaphore was 0 and the wait was not interrupted |
| `TimeoutManagement.PriorityQueue.Enqueue` | transport/headers/PriorityQueue.h:70-79 | the timer is in the queue in front of exactly the later ones, which stays sorted; counter and signal after an undisturbed call |
| `TimeoutManagement.PriorityQueue.Dequeue` | transport/headers/PriorityQueue.h:55-62 | takes the front and one count |
| `TimeoutManagement.PutBack` | transport/src/TimeoutEventManager.cc:50-51 | a worker woken early puts its timer back by insertion, without a signal |
| `TimeoutManagement.TimeoutEventManager.constructor` | transport/src/TimeoutEventManager.cc:10-16 | empty queue, counter and semaphore at 0, nothing cancelled or handed over: the initial state |
| `TimeoutManagement.TimeoutEventManager.ImoduleCancelTimer` | transport/src/TimeoutEventManager.cc:27-33 | the cancellation is recorded and the semaphore posted |
| `TimeoutManagement.TimeoutEventManager.Enqueue` | transport/src/TimeoutEventManager.cc:54-65 | a timer is added to the sorted queue, the counter goes up by one and the semaphore is 1; a cancellation is recorded at once, the semaphore is 1 and the queue is as before; both are runs of the step system |
| `TimeoutManagement.TimeoutEventManager.ImoduleTimeout` | transport/src/TimeoutEventManager.cc:35-52 | a cancelled timer is dropped and unmarked; one whose wait ends at its deadline is handed over; one whose wait ends before is back in the queue, and the semaphore is 0; each way is a run of the step system |
| `TimeoutManagement.TimeoutEventManager.ProcessNext` | transport/headers/QueueProcessor.h:48-50 | one round of the worker thread does that to the front of the queue and is a run of the step system |
| `FrontEndHandshake.StepKeepsToken` | transport/applib/WifuTransportFrontEndTranslator.h:143-145 | every step keeps flag + semaphore + receivers writing + calls reading equal to 1 |
| `FrontEndHandshake.OneHolder` | transport/applib/WifuTransportFrontEndTranslator.h:143-145 | whoever holds the token is alone |
| `FrontEndHandshake.StepKeepsOrder` | transport/applib/WifuTransportFrontEndTranslator.h:143-145 | every step keeps: what was taken is what was stored, in order, but for a response still in the buffer |
| `FrontEndHandshake.ExecutionKeepsInv` | transport/applib/WifuTransportFrontEndTranslator.h:229-240 | both in every reachable state, for any number of calls and receivers |
| `FrontEndHandshake.BufferIsStable` | transport/applib/SocketData.h:75-77 | the response buffer is not written while a call reads it |
| `FrontEndHandshake.CallLeavesPristine` | transport/applib/SocketData.h:37-43 | after a call the socket is as its constructor left it if and only if no other call is in flight |
| `FrontEndHandshake.OwnResponse` | transport/applib/WifuTransportFrontEndTranslator.h:121-146 | with one response to each call and no call sent while another waits, every call takes its own response, and between calls nothing can touch the socket |
| `FrontEndHandshake.ImpatienceMixesUp` | transport/applib/WifuTransportFrontEndTranslator.h:231-238 | from every reachable state in which two calls wait, wherever the token is, a schedule leads to a call with another's response |
| `FrontEndHandshake.OwnResponseExactly` | transport/applib/WifuTransportFrontEndTranslator.h:229-240 | over any run: from none of its states can a schedule mix up responses if and only if each call was sent while no other one waited |
| `FrontEndHandshake.MixUp` | transport/applib/WifuTransportFrontEndTranslator.h:231-238 | a run in which a call leaves with the response to another |
| `FrontEndObjects.SocketData.constructor` | transport/applib/SocketData.h:37-43 | flag 1, semaphore 0: the initial state of the handshake |
| `FrontEndObjects.SocketData.Receive` | transport/applib/WifuTransportFrontEndTranslator.h:143-145 | storing a response is three steps of the handshake |
| `FrontEndObjects.SocketData.TakeResponse` | transport/applib/WifuTransportFrontEndTranslator.h:231-238 | the end of a call is two steps of the handshake and returns what was stored |
| `FrontEndObjects.ObjectPool.Get` | transport/headers/ObjectPool.h:55-65 | an object not in use, in its constructor state; an empty pool first doubles |
| `FrontEndObjects.ObjectPool.Release` | transport/headers/ObjectPool.h:67-71 | the object goes to the end of the pool and is no longer in use |
| `FrontEndObjects.ObjectPool.Grow` | transport/headers/ObjectPool.h:29-38 | new objects behind the old ones; those in use stay in use |
| `FrontEndObjects.FrontEnd.Receive` | transport/applib/WifuTransportFrontEndTranslator.h:121-146 | what becomes of each kind of message, and which one socket it touches |
| `FrontEndObjects.FrontEnd.StartSocket` | transport/applib/WifuTransportFrontEndTranslator.h:163-164 | socket 0 is an object nobody uses, in its constructor state; every object stays accounted for if and only if no socket was named 0 |
| `FrontEndObjects.FrontEnd.FinishSocket` | transport/applib/WifuTransportFrontEndTranslator.h:179-191 | the object moves to its name; every object stays accounted for if and only if the name was not in use |
| `FrontEndObjects.FrontEnd.FinishAccept` | transport/applib/WifuTransportFrontEndTranslator.h:404-416 | a pool object is stored under the returned number; every object stays accounted for if and only if that number was not in use |
| `FrontEndObjects.FailToAcceptTwice` | transport/applib/WifuTransportFrontEndTranslator.h:404-416 | after two failed accepts the object of the first is neither in the pool nor in use |
| `FrontEndObjects.FrontEnd.FinishClose` | transport/applib/WifuTransportFrontEndTranslator.h:619-629 | the object returns to the pool in its constructor state and its name is free |
| `WedgeCalls.FirstFree` | wedge/wifu_wedge.c:150-170 | the lowest free slot, or none if all are used |
| `WedgeCalls.Find` | wedge/wifu_wedge.c:179-185 | the lowest used slot with this socket and call type, or none |
| `WedgeCalls.StepKeepsOwned` | wedge/wifu_wedge.c:1448-1543 | every step keeps table and calls in agreement |
| `WedgeCalls.ExecutionOwned` | wedge/wifu_wedge.c:145-186 | in every run with fewer than 2^32 calls the table and the calls agree |
| `WedgeCalls.OneOwner` | wedge/wifu_wedge.c:145-171 | each used slot has exactly one owner, the call whose number it carries |
| `WedgeCalls.OwnedUntilRollover` | wedge/wifu_wedge.c:1452-1453 | an insertion keeps this if and only if the call's number is below 2^32 - 1; beyond, the slot is handed out again |
| `WedgeCalls.RolloverSharesSlot` | wedge/wifu_wedge.c:1448-1454 | a run in which the numbers roll over, and two calls then share a slot, with the key of the second |
| `WedgeCalls.ReplyFindsSlot` | wedge/wifu_wedge.c:686-692 | a reply finds a slot if and only if a call of its socket and type is in the table |
| `WedgeCalls.InterruptedCallLosesReply` | wedge/wifu_wedge.c:1517-1543 | a run in which a call is sent, interrupted and freed, so that its reply finds no slot |
| `WedgeCalls.ReplyOrigin` | wedge/wifu_wedge.c:663-911 | a call sees the reply flag only if a reply with its own socket and type was handled, entirely, after its insertion, and then sees such a reply's body, whoever was interrupted meanwhile |
| `WedgeCalls.AnsweredCallsWake` | wedge/wifu_wedge.c:1529-1543 | a call that was answered can pass its semaphore |
| `WedgeCalls.SemaphoreCounts` | wedge/wifu_wedge.c:1524-1532 | from the insertion of a call on, its semaphore is how often its slot was posted less how often the call passed |
| `WedgeCalls.PassesOnlyIfPosted` | wedge/wifu_wedge.c:1524-1532 | a call passes its semaphore only if, after its own insertion, a reply was written to its slot to the end or its slot was woken |
| `WedgeCalls.EveryWaiterIsWoken` | wedge/wifu_wedge.c:211-223 | posting each used slot once lets every call that waits pass its semaphore |
| `WedgeTable.CallTable.constructor` | wedge/wifu_wedge.c:131-143 | the loop leaves all 100 slots free |
| `WedgeTable.CallTable.Insert` | wedge/wifu_wedge.c:145-171 | the loop takes the first free slot and sets its number, socket and type, with no reply, ret 0 and a semaphore at 0, or returns -1 and changes nothing |
| `WedgeTable.CallTable.FindCall` | wedge/wifu_wedge.c:173-186 | the loop returns the first slot with this socket and type, or -1 |
| `WedgeTable.CallTable.StartCall` | wedge/wifu_wedge.c:1448-1454 | numbering a call mod 2^32 and inserting it is one step of the system |
| `WedgeTable.CallTable.HandleReply` | wedge/wifu_wedge.c:757-767 | the body, the reply flag and one post go to the first slot of this socket and type: four steps of the system |
| `WedgeTable.CallTable.FinishCall` | wedge/wifu_wedge.c:1538-1543 | reading the confirmation and freeing the slot is two steps of the system |
| `WedgeTable.SuccessMeansAnswered` | wedge/wifu_wedge.c:380-400 | over any run: a call returns 0 or -1, and 0 only if a reply to its own socket and type, with nothing behind it, was handled after it had taken its slot |
| `WedgeTable.CallTable.RemoveAll` | wedge/wifu_wedge.c:211-223 | each used slot is posted once and each free one stays as it is; this is a run of the system, after which every call that waits can go on |
| `WedgeTable.ReturnValueIsIgnored` | wedge/wifu_wedge.c:384-392 | an answered call returns 0 or -1 by the length of the response alone |
| `SocketIndex.KeysCollide` | transport/src/Socket.cc:127-131 | two different pairs of addresses with one key |
| `SocketIndex.KeysCollideExactly` | transport/src/Socket.cc:127-131 | for addresses without spaces, keys are equal if and only if local ports and remote addresses are, and local address followed by remote port is |
| `SocketIndex.EqualLengthKeysAreDistinct` | transport/src/Socket.cc:127-131 | with local addresses of one length, keys are equal if and only if addresses and ports are |
| `SocketIndex.StepExact` | transport/src/SocketCollection.cc:47-75 | an event keeps the index exact if and only if no other live socket has the key it looks up |
| `SocketIndex.RunExact` | transport/src/SocketCollection.cc:47-109 | over any run the index was exact all along if and only if every event found its key free |
| `SocketIndex.LookupIsExact` | transport/src/SocketCollection.cc:36-45 | in an exact index a lookup finds the live socket with the key, and nothing if there is none |
| `SocketIndex.RemovedComesBack` | transport/src/SocketCollection.cc:54-75 | a removed socket re-enters the index with its next address change if and only if it was ever pushed |
| `SocketIndex.LiveExactly` | transport/src/SocketCollection.cc:47-109 | over any run: a socket is in the collection if and only if it entered, by a push or a reported change, after its last removal |
| `SocketObjects.Socket.SetLocalAddressPort` | transport/src/Socket.cc:95-102 | the index follows the change if and only if no other socket in it has the new key |
| `SocketObjects.Socket.SetRemoteAddressPort` | transport/src/Socket.cc:104-111 | the same for the remote address |
| `SocketObjects.DistinctAddressesSuffice` | transport/src/Socket.cc:123-131 | among sockets with local addresses of one length, the condition of these two says that no other socket has both addresses and ports |
| `SocketObjects.SocketCollection.GetByLocalAndRemote` | transport/src/SocketCollection.cc:36-45 | finds a socket if and only if one in the collection has these addresses' key |
| `SocketObjects.SocketCollection.Push` | transport/src/SocketCollection.cc:47-52 | the socket is observed and stored under its key |
| `SocketObjects.SocketCollection.Remove` | transport/src/SocketCollection.cc:54-75 | erases by key if anything has the key, else one entry that points to the socket, found by the loop |
| `SocketObjects.SocketCollection.Update` | transport/src/SocketCollection.cc:101-109 | exact afterwards if and only if no other socket has the key |
| `QueryStrings.ReturnsExactly` | transport/src/QueryStringParser.cc:13-28 | the loop returns if and only if the string passes one left-to-right check |
| `QueryStrings.MissingSeparatorLoops` | transport/src/QueryStringParser.cc:26-27 | a string with entries that does not end in '&' is parsed for ever |
| `QueryStrings.ParsedIsClean` | transport/src/QueryStringParser.cc:22-27 | what is in the map is never replaced, and no parsed key has a '=' and no parsed value a '&' |
| `QueryStrings.RoundTrip` | transport/src/QueryStringParser.cc:3-37 | parsing what was printed ends and gives the same map plus the name entry, which takes the place of any other entry of that key |
| `QueryStrings.RoundTripExactly` | transport/src/QueryStringParser.cc:3-37 | for maps without an entry called "name", this holds if and only if the name has no '?', no key a '=' and no value a '&' |
| `QueryStrings.CreateString` | transport/src/QueryStringParser.cc:31-37 | the loop prints the entries in the order of the map |
| `QueryStrings.PortExample` | transport/src/QueryStringParser.cc:3-37 | "tcp?port=80&" is printed from, and parsed to, the name "tcp" and the port "80"; a second port does not replace the first |
| `QueryStrings.RestartExample` | transport/src/QueryStringParser.cc:13-28 | a string on which the parser starts again at the front, and what it returns |
| `QueryStrings.Parse` | transport/src/QueryStringParser.cc:3-29 | an exception exactly if there is no '?'; else, where the loop returns, what its rounds give |

## Left out

- The reassembly window: at each arrival the first expected position and all packets alive must lie within half of the sequence space; `StreamDelivery.WidestWindow` says that this is as wide as it can be, `StreamDelivery.LonePacketExactly` and `StreamDelivery.WindowIsNeeded` show what happens outside.
- `TCPPacketBuffer::remove`, `PriorityQueue::clear`, `TimeoutHelper`: the first reads an iterator that may be the end, the second does not reset the counting semaphore, the third removes the fired event instead of its timeout.
- The value read through the end iterator at `transport/src/TCPPacketBuffer.cc:17` is not modelled; it is not used when the iterator is the end.
- `std::lower_bound`, `std::upper_bound` and `std::map` are taken by their contracts; the traversal order of a map is the order of a given sequence, or any order where a loop stops at the first hit.
- The body of `TCPSequenceNumberComparator` is not part of this model; the contract documented for its operator, `less_than` on sequence numbers, is used. The description of the class also mentions an order by length among equal numbers; it is not modelled.
- Packet identity, pointers and memory reclamation: packets and timers are values with a number, sockets are objects.
- The IP header checksum covers 20 bytes whatever the header length field says, as in the program; nothing is claimed about IP options under RFC 791.
- `PacketObjects.IPPacket.InsertShim`: where the checksum of a SYN would be taken over bytes behind the 4096-byte buffer, or would not fit the scratch buffer, the program leaves its memory; such packets are excluded.
- UDP packets, header getters and setters, `get_wifu` and `get_shim`: easy members.
- Races inside `BinarySemaphore::post`, and between inserting a timer and the signal handler: post, enqueue-with-signal and cancel are one step each.
- `TimeoutManagement.BinarySemaphore.TimedWait`: does not model an ETIMEDOUT that an earlier call left in `errno`; `errno` is taken as set by this wait.
- `WedgeCalls.ReplyOrigin`: does not model a second reply to one slot being halfway through writing ret, msg and len while the call reads them; filling and reading a slot are one step each. The flag, which is written last, is its own step.
- `WedgeTable.CallTable.HandleReply`: a reply that finds no slot is excluded, because the program then writes outside its table; `WedgeCalls.ReplyFindsSlot` says when.
- The second index of the wedge, `wedge_sockets`, has the same loops and is left out, as are its thread counters, whose call codes overlap.
- Semaphores of the wedge that are interrupted while being acquired: the table's semaphore is always acquired.
- `FrontEndObjects.FrontEnd.FinishClose`: does not model the moment between releasing the object and erasing its name, because the two are one call here.
- `QueryStrings.RoundTripExactly`: maps with an entry called "name" are excluded; `QueryStrings.RoundTrip` covers them where keys and values are clean.
- `SocketCollection::clear` empties the index while the sockets stay observed; a later address change brings them back, as after a removal (`SocketIndex.RemovedComesBack`).
- Congestion control, reliability and connection states (`transport/src/states`): their transitions are not modelled, apart from the order in which they drive the receive buffer.
- Sockets, netlink, epoll, thread creation, netfilter, logging, options of the daemon, graphs and test scripts: input and output.
