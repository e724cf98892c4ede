# Verified model of the Shield datapath and control plane

A Dafny 4.11 model of the parts of the DDoS shield whose correctness rests on arithmetic,
interleaving or long runs, with proofs of what they guarantee. `dafny verify dfyconfig.toml`
checks it all.

| module | models |
|---|---|
| `SpscRing` | the lock-free descriptor ring between the AF_XDP threads, every load, store and half-slot copy a step of its own, and the same ring as an object |
| `UmemFrames` | the free stack of UMEM frames, its loops, and how much a refill tolerates |
| `RacyAlloc` | two allocations at once without mutual exclusion, access by access |
| `FrameLifecycle` | IO thread, worker thread and kernel moving the 4096 frames around, as one state machine |
| `PacketFlow` | what passes through that machine's queues, in which order, and where addresses go |
| `ReceivePath` | whether that machine can still receive, and a frame read after it was given away |
| `Checksum` | one's-complement sums, the three folds, the incremental update and `udp_csum` |
| `Packet` | a frame as a memory area with two moving ends; MAC swap and IP header checksum in place |
| `Routing` | IPIP encapsulation with port rewrite, and decapsulation |
| `ForwardingRules` | the verdicts, the backend and the bytes of both, told from the packet itself |
| `A2sCache` | the map of cached A2S answers and challenges |
| `A2sReply` | the Steam query turned into its cached answer inside its own frame |
| `RateLimit` | the per-source fixed-window limiter |
| `ConfiguredRate` | the limiter on `config_map`: its window rule and its rate bound |
| `Mitigation` | the auto-mitigation levels and their hold counter |
| `TextLines`, `WireGuardConf` | the peer editor of the WireGuard configuration file |
| `NetText` | addresses and numbers as text, read the way Go's net package reads them |
| `V6Grammar` | the texts of IPv6 addresses as a grammar, which the parser reads exactly |
| `Cidr` | the CIDR trie keys as text, and the maps edited with them |
| `CidrTexts` | the complete set of texts `parseCIDR` reads, and their keys |
| `Bits`, `Wrappers` | machine integers written out, and an option type |

In each module a function says what a piece of code computes, a method with the source's
loops and in-place updates is proved to compute it, and the section "main theorems" holds
what the code guarantees over all inputs, runs or schedules. `ForwardingRules`, `PacketFlow`,
`ConfiguredRate` and `CidrTexts` state it in literal offsets, bytes and configuration entries.

## Assumptions

- One call of `xsk_alloc_frame` or `xsk_free_frame` is one atomic step, and the worker allocates
  at most once while the IO thread refills. The code has no lock for either.
  `RacyAlloc.RacyAllocsCollide` says exactly which interleavings of two calls hand out one frame
  twice or leave the array; `UmemFrames.RefillTolerance` and `UmemFrames.RefillGuardTolerance`
  say how many allocations a refill tolerates.
- In `FrameLifecycle` a call of push or pop is one queue operation, which
  `SpscRing.Linearizable` and `SpscRing.RoomMeansNoRefusal` justify.
- The kernel moves only frames it was given and keeps each in its 2048-byte chunk. A frame is
  identified by its chunk.
- Memory is sequentially consistent with the publication order of the source.
- Hosts are little-endian. BPF maps are finite maps; the per-CPU statistics map is one CPU's map
  and does not evict.
- Go's net package reads texts by its own rules (`net/netip` for addresses), which `NetText`
  writes out, and Linux refuses trie keys longer than the 32 bits of the map's data.
- The clock of the rate limiter does not go back, and no 64-bit counter wraps
  (`RateLimit.Timed`), which `RateLimit.ShortStreamsAreTimed` shows for all streams that can
  arrive in practice.

## Where the code and its descriptions part

The model follows the code.

- `main.go:686-690` and its log line cancel Recovery when an attack returns. The branch asks for
  a target above 5, and targets end at 4: `Mitigation.RecoveryIsNotCancelled`,
  `Mitigation.LeavingRecovery`.
- `update_iph_checksum` adds the carry back once. The header it leaves verifies if and only if
  the two halves of the sum add without a second carry (`Packet.HeaderVerifiesIff`). For the two
  callers the condition is stated on what comes in: inner length, VIP and backend address
  (`Routing.OuterHeaderVerifiesIff`), or the query's header and the entry's size
  (`A2sReply.AnswerHeaderVerifiesIff`). `Routing.SingleFoldCanFail` is a packet that is sent on
  with a header that does not verify.
- `udp_csum` can answer 0, which RFC 768 reserves for "no checksum", and its callers store it:
  `Checksum.ZeroChecksumIff`, with a challenge reply in `Checksum.ZeroChecksumExample`. The port rewrite in `routing.h`
  does replace such a 0 (`Checksum.UdpRewriteKeepsValidity`).
- The fail-safe comment at `xdp_main.c:276` promises the old answer when no AF_XDP socket is
  there. The frame already carries the refresh code 0x55: `A2sReply.AnswersDecided`, with a query
  and an entry in `A2sReply.StaleAnswerIsSent`.
- `PROJECT_ARCHITECTURE.md:11` calls the rate limiter a token bucket. It is a fixed window, and
  can pass almost twice the limit within a nanosecond: `RateLimit.RateBoundIsSharp`. It keeps
  to max_pps in every second if and only if max_pps is at most 1, or the byte limit holds
  packets of the shortest length to half of it: `RateLimit.KeepsRateIff`, and with this
  program's shortest packet of 42 bytes `RateLimit.KeepsRateHere`.
- `maps.h:104-107` keys the customer statistics by VIP. A cached answer is counted for the
  client's address, since the call at `xdp_main.c:280` comes after the addresses have been
  exchanged: `A2sReply.AnswersBilled`.
- The peer editor undoes its own append for every text, but not for a key that holds a newline:
  `WireGuardConf.RoundTrip`.
- `formatLpmKey` prints prefix lengths above 32, which `parseCIDR` refuses: `Cidr.ParseFormat`.
- `parseCIDR` means to refuse IPv6, but takes IPv4-mapped networks with lengths 96 to 128 and
  keeps that length in the key, which no printed text finds again: `Cidr.ParsedIsCanonicalIff`,
  `Cidr.MappedNetworksAreLost`, and `::ffff:10.0.0.0/104` in `Cidr.MappedTen`.
- Only a receive leads to a refill of the Fill ring (`af_xdp_main.c:315-341`), so a receive side
  without frames stays dead: `ReceivePath.ReceivesAgainIff` is the exact condition. A start-up
  fill that reserves too little (`af_xdp_main.c:242-250`) ends there at once
  (`ReceivePath.StartUpDecides`), and so does a worker that stalls (`ReceivePath.StalledWorker`).
- The worker copies a query from a frame it has already pushed (`af_xdp_main.c:481-504`), which
  may be back on the Fill ring by then: `ReceivePath.ReadAfterPush`.

## Model

| member | source | states |
|---|---|---|
| SpscRing.FifoInEveryInterleaving | src/af_xdp/spsc_ring.h:25-45 | in every interleaving of single memory accesses the successful pops returned a prefix of what the successful pushes accepted, in order; the rest lies in its slots, and the wrapped index difference is their number, at most 4096, across any number of index wraps |
| SpscRing.Linearizable | src/af_xdp/spsc_ring.h:25-45 | the log of commit points replays on a bounded FIFO queue to the current contents, and every call returned what the log says |
| SpscRing.NoTornRead | src/af_xdp/spsc_ring.h:36-45 | from the moment the consumer has seen a filled slot until it publishes read_idx, no producer step changes the slot |
| SpscRing.RefusalsAreExact | src/af_xdp/spsc_ring.h:26-41 | a push is refused if and only if the queue was full when read_idx was loaded, a pop if and only if it was empty when write_idx was loaded |
| SpscRing.RoomMeansNoRefusal | src/af_xdp/spsc_ring.h:27-30 | if the queue has room whenever a push looks, no push of the run is refused, stale indices or not |
| SpscRing.RunKeepsInv | src/af_xdp/spsc_ring.h:20-45 | the invariant tying wrapped indices, slots, program points and history holds after every schedule from any initial memory |
| SpscRing.ProducerWritesFreeSlot | src/af_xdp/spsc_ring.h:31 | the slot being written is none of the slots in flight |
| SpscRing.SlotIsMod | src/af_xdp/spsc_ring.h:31 | masking an index is its remainder by the ring size, and in bounds |
| SpscRing.SlotOfCounter | src/af_xdp/spsc_ring.h:31-32 | the masked 32-bit index is the slot of the unwrapped counter |
| SpscRing.PushExtendsWindow | src/af_xdp/spsc_ring.h:31-32 | storing at the write slot and advancing appends to the window, also when the index wraps |
| SpscRing.PopShrinksWindow | src/af_xdp/spsc_ring.h:42-43 | advancing the read index drops the oldest entry, also when the index wraps |
| SpscRing.SoloPushEffect | src/af_xdp/spsc_ring.h:25-34 | the micro-steps of a push nobody interrupts change exactly one slot and write_idx, or nothing when full |
| SpscRing.SoloPopEffect | src/af_xdp/spsc_ring.h:36-45 | the micro-steps of a pop nobody interrupts return the slot at read_idx and advance it, or change nothing when empty |
| SpscRing.Spsc.constructor | src/af_xdp/spsc_ring.h:20-23 | an initialised ring is empty whatever the buffer held |
| SpscRing.Spsc.Push | src/af_xdp/spsc_ring.h:25-34 | appends unless 4096 descriptors are in flight, and agrees with the micro-steps |
| SpscRing.Spsc.Pop | src/af_xdp/spsc_ring.h:36-45 | removes and returns the oldest descriptor unless there is none, and agrees with the micro-steps |
| UmemFrames.Umem.constructor | src/af_xdp/af_xdp_main.c:194-197 | the stack starts with the first address of each of the 4096 chunks |
| UmemFrames.Umem.AllocFrame | src/af_xdp/af_xdp_main.c:164-169 | pops the stack and marks the slot, or answers the marker when it is empty |
| UmemFrames.Umem.FreeFrame | src/af_xdp/af_xdp_main.c:171-174 | pushes the frame, or drops it when 4096 are there |
| UmemFrames.Umem.AllocBatch | src/af_xdp/af_xdp_main.c:334-339 | the unchecked loop hands on what that many allocations return |
| UmemFrames.Umem.FreeBatch | src/af_xdp/af_xdp_main.c:374-377 | the completion loop frees the reaped frames one after the other |
| UmemFrames.FreeManyFills | src/af_xdp/af_xdp_main.c:171-174 | successive frees put the frames on the stack in order until it holds 4096, and drop the rest |
| UmemFrames.FirstFramesCount | src/af_xdp/af_xdp_main.c:194-197 | the fresh stack names each of its chunks exactly once |
| UmemFrames.AllocManyMoves | src/af_xdp/af_xdp_main.c:244-250 | from a deep enough stack the loop takes the topmost frames, none lost and none doubled |
| RacyAlloc.SerialAllocs | src/af_xdp/af_xdp_main.c:164-169 | two allocations one after the other, access by access, are two atomic allocations |
| RacyAlloc.RacyAllocsCollide | src/af_xdp/af_xdp_main.c:164-169 | with the three reads of the counter apart, in every complete interleaving of two calls on a non-empty stack of distinct frames: both return the same frame, the top one, if and only if both second reads precede both decrements and both reads of the slot precede both invalidations; and an access leaves the array if and only if one frame was free and one call passed the guard before, and read again after, the other's decrement |
| UmemFrames.RefillTolerance | src/af_xdp/af_xdp_main.c:332-341 | the 32 unchecked allocations all succeed in every interleaving with k worker allocations if and only if at least 32 + k frames were free |
| UmemFrames.RefillGuardTolerance | src/af_xdp/af_xdp_main.c:332-333 | so the guard tolerates an interleaved worker allocation if and only if there is at most one |
| FrameLifecycle.UniqueHolder | src/af_xdp/af_xdp_main.c:311-381 | in every reachable state each of the 4096 chunks has exactly one holder among the eleven places |
| FrameLifecycle.OnlyUmemAddresses | src/af_xdp/af_xdp_main.c:164-174 | no place ever holds INVALID_UMEM_FRAME or an address outside the UMEM |
| FrameLifecycle.PushesAndFreesSucceed | src/af_xdp/af_xdp_main.c:321-358 | no reachable push on rx_ring or tx_ring, the worker's unchecked ones included, finds it full, and no free finds the stack full |
| FrameLifecycle.FramesConserved | src/af_xdp/af_xdp_main.c:311-381 | the places always hold exactly 4096 frames together |
| FrameLifecycle.AllocatedFrameIsUnowned | src/af_xdp/af_xdp_main.c:332-341 | a refill never runs dry, and an allocated frame is a UMEM frame that no place holds |
| FrameLifecycle.OutstandingTxIsExact | src/af_xdp/af_xdp_main.c:347-380 | at every program point outstanding_tx equals TX ring plus kernel plus Completion ring, with the batch being freed and without a submission not counted yet; it never passes 4096 and the batch decrement never underflows |
| FrameLifecycle.AllocIsFresh | src/af_xdp/af_xdp_main.c:474-475 | with every chunk held once, alloc hands out a frame nobody else holds |
| FrameLifecycle.NextKeepsInv | src/af_xdp/af_xdp_main.c:311-381 | every step of IO thread, worker and kernel keeps ownership, frame count, refill reserve and TX count |
| FrameLifecycle.RunKeepsInv | src/af_xdp/af_xdp_main.c:242-250 | so does every schedule, from either outcome of the start-up fill |
| PacketFlow.ReceivedInOrder | src/af_xdp/af_xdp_main.c:315-328 | over every run, what the kernel has put into the RX ring is, address and length, in order, what the worker has taken, then rx_ring, the batch in hand and the RX ring; the worker works on the last one it took |
| PacketFlow.SentInOrder | src/af_xdp/af_xdp_main.c:343-361 | over every run, the descriptors that entered the TX ring are, address and length, in order, those the worker pushed whose reserve succeeded; the addresses of the others were freed in order; the rest is in the IO thread's hand and in tx_ring |
| PacketFlow.FramesInOrder | src/af_xdp/af_xdp_main.c:334-340 | over every run, completed addresses are freed in order, and what a refill takes off the stack is what it submits to the Fill ring, in order |
| PacketFlow.WhatEnters | src/af_xdp/af_xdp_main.c:425-625 | what a step of any run adds to the RX ring and to tx_ring: the delivered descriptor, the worker's packet with its new length or as it was, or the borrowed frame |
| PacketFlow.FreeStackMoves | src/af_xdp/af_xdp_main.c:164-174 | no step of any run touches the free stack but at its top, and only for a refill, a loan, a failed send, a completion or a discarded packet |
| PacketFlow.WorkerDoes | src/af_xdp/af_xdp_main.c:425-642 | what each move of the worker leads to from every reachable state; without a free frame the query is given up |
| ReceivePath.CanReceiveIff | src/af_xdp/af_xdp_main.c:315-341 | from every state the invariant allows: some future brings another packet if and only if frames are on the receive side, or a refill is under way or can still begin |
| ReceivePath.ReceivesAgainIff | src/af_xdp/af_xdp_main.c:311-381 | the same in every reachable state, over all futures of IO thread, worker and kernel |
| ReceivePath.DeadStays | src/af_xdp/af_xdp_main.c:315-341 | a state that is not alive leads to no state that is, whatever is scheduled |
| ReceivePath.StartUpDecides | src/af_xdp/af_xdp_main.c:242-250 | the program starts alive if and only if the start-up fill was reserved, and without it never has a packet in its RX ring |
| ReceivePath.Cycle | src/af_xdp/af_xdp_main.c:311-381 | with an idle transmit side and a worker that does not move, one round takes a frame from the Fill ring to rx_ring and refills exactly when more than 32 are free |
| ReceivePath.StalledWorker | src/af_xdp/af_xdp_main.c:331-333 | from the start-up state a worker that does not move lets 4064 packets pile up in rx_ring with 32 frames free, a state that never receives again |
| ReceivePath.ReadAfterPush | src/af_xdp/af_xdp_main.c:481-504 | a reachable state in which the worker still copies from a frame whose only holder is the Fill ring |
| Checksum.FoldHelperIsFold | src/bpf/common/csum.c:1-8 | the branch-free fold is the complement of the looping fold on all 2^32 inputs |
| Checksum.CsumFold | src/af_xdp/af_xdp_main.c:256-261 | the loop computes the complement of the full end-around fold |
| Checksum.SingleFoldExact | src/bpf/common/csum.c:36 | the single fold is the checksum if and only if the halves add without carry, and otherwise is one too large |
| Checksum.SingleFoldVerifies | src/bpf/common/csum.c:23-37 | a ten-word header with the single fold stored verifies if and only if that holds; otherwise it folds to 1 |
| Checksum.CsumAddCongruent | src/bpf/common/csum.c:10-16 | addition with end-around carry is addition modulo 65535, and 0 only for two zeros |
| Checksum.Diff4Congruent | src/bpf/common/csum.c:39-44 | the update stands for csum + from - to modulo 65535 (RFC 1624, section 3) and never comes out as all ones |
| Checksum.IncrementalIsRecomputation | src/bpf/common/csum.c:39-44 | for any length and position, and also for UDP's stand-in 0xFFFF, the update equals recomputing over the changed words if and only if they are not all zero |
| Checksum.TcpRewriteKeepsValidity | src/bpf/common/routing.h:94-97 | after the port rewrite a segment verifies if and only if it did before |
| Checksum.UdpRewriteKeepsValidity | src/bpf/common/routing.h:105-113 | the same for a datagram, and the field is 0 afterwards if and only if it was 0 |
| Checksum.FoldIsRep | src/af_xdp/af_xdp_main.c:256-261 | folding yields the representative modulo 65535 that is 0 only for 0 |
| Checksum.StoredChecksumVerifies | src/af_xdp/af_xdp_main.c:608-612 | storing the checksum of words whose field is 0 makes them verify, for every sequence and position |
| Checksum.ByteOrderSums | src/af_xdp/af_xdp_main.c:270-276 | the host-order sum is 256 times the network-order sum modulo 65535, exactly accounted, for even and odd lengths |
| Checksum.ByteOrderIndependence | src/af_xdp/af_xdp_main.c:270-276 | the folded little-endian sum is the byte swap of the network-order one (RFC 1071, section 2) |
| Checksum.UdpCsum | src/af_xdp/af_xdp_main.c:263-278 | the loop never overflows 32 bits and computes the checksum of pseudo-header and datagram for every 16-bit length, even or odd |
| Checksum.PseudoHeaderBytes | src/af_xdp/af_xdp_main.c:263-269 | the words added up first are the pseudo-header of RFC 768, byte for byte |
| Checksum.StoredUdpCsumVerifies | src/af_xdp/af_xdp_main.c:605-606 | storing its result makes pseudo-header and datagram verify, for every length |
| Checksum.ZeroChecksumIff | src/af_xdp/af_xdp_main.c:263-278 | it answers 0 if and only if the words add up to a positive multiple of 65535 |
| Checksum.ZeroChecksumExample | src/af_xdp/af_xdp_main.c:596-606 | a 17-byte challenge reply, between two ordinary addresses, for which it does |
| Packet.HeaderVerifiesIff | src/bpf/common/csum.c:23-37 | the header update_iph_checksum leaves in a frame verifies if and only if the halves of its sum add without a second carry |
| Routing.SingleFoldCanFail | src/bpf/common/routing.h:144-167 | a TCP SYN that encapsulation sends on with an outer header that does not verify |
| Packet.XdpBuff.UpdateIphChecksum | src/bpf/common/csum.c:23-37 | zeroes the field, sums ten words and stores the single fold, inside the frame and touching nothing else |
| Packet.XdpBuff.SumHeader | src/bpf/common/csum.c:31-34 | the loop adds the ten words of the header without overflow |
| Packet.XdpBuff.SwapMacInPlace | src/bpf/xdp_main.c:247-251 | the byte-wise loop exchanges the two MAC addresses |
| Packet.XdpBuff.AdjustHead | src/bpf/common/routing.h:118-120 | moves the start or fails, and fails exactly when that leaves the memory or less than an Ethernet header |
| Packet.XdpBuff.AdjustTail | src/bpf/xdp_main.c:208-215 | moves the end, gained bytes zero, or fails and changes nothing |
| Routing.Classify | src/bpf/common/routing.h:20-83 | the decision from protocol, port, management ports, backend tables and tunnel kind, reading only inside the frame |
| Routing.RewriteTcp | src/bpf/common/routing.h:87-97 | updates the TCP checksum for the port change and stores the port |
| Routing.UpdateUdpCheck | src/bpf/common/routing.h:105-112 | leaves a 0 checksum alone and stores an update of 0 as 0xFFFF |
| Routing.RewriteUdp | src/bpf/common/routing.h:98-113 | updates the UDP checksum field under those rules and stores the port |
| Routing.RewritePort | src/bpf/common/routing.h:85-115 | rewrites when the backend names a port and the protocol has ports, and nothing otherwise |
| Routing.WriteHeaders | src/bpf/common/routing.h:122-158 | despite the overlap, the old Ethernet header ends in front, the outer fields behind it, and the inner packet is untouched |
| Routing.StoreHeader | src/bpf/common/routing.h:145-158 | the field stores, in their order, make one 20-byte header |
| Routing.PushHeader | src/bpf/common/routing.h:122-159 | the new front is Ethernet header plus outer header with its checksum filled in |
| Routing.EncapsulateIpip | src/bpf/common/routing.h:20-168 | verdict, frame and forward counter for every frame, backend table and headroom, all accesses within data and data_end; a failed head adjustment drops the already rewritten frame |
| Routing.CheckInner | src/bpf/common/routing.h:180-216 | the bounds and the answer test on the inner packet, and what is learned from it |
| Routing.InspectPayload | src/bpf/common/routing.h:196-215 | tells answers from challenges; a complete challenge of a cached server replaces the entry's challenge bytes and nothing else |
| Routing.CheckHeaders | src/bpf/common/routing.h:174-216 | everything decided before the frame changes |
| Routing.StripOuter | src/bpf/common/routing.h:218-251 | the outer header is gone, the Ethernet header is back with its addresses exchanged, and the adjustment cannot fail |
| Routing.DecapsulateIpip | src/bpf/common/routing.h:171-264 | verdict, frame and cache for every frame, with or without an AF_XDP socket |
| Routing.RewriteIsLocal | src/bpf/common/routing.h:85-115 | the rewrite changes nothing but the port, to the configured one, and the checksum field |
| Routing.ForwardedShape | src/bpf/common/routing.h:117-167 | a transmitted frame is the wrapping of the rewritten one, whose first 34 bytes are the original's |
| Routing.WrappedFields | src/bpf/common/routing.h:137-156 | the header fields of a wrapped frame, and that the inner packet follows unchanged |
| Routing.RoundTrip | src/bpf/common/routing.h:20-264 | for every frame that encapsulation transmits, decapsulation does not drop the result and gives back the original with MACs exchanged and the port rewritten |
| Routing.OuterLengthAgrees | src/bpf/common/routing.h:148 | the outer length of a transmitted frame is its actual length behind the Ethernet header if and only if the packet came with its true length in the inner field and that is at most 65515 |
| Routing.OuterHeaderVerifiesIff | src/bpf/common/routing.h:144-159 | the outer header of a transmitted frame verifies if and only if the halves of a sum of inner length, VIP, backend address and constants add without carry |
| Routing.RewriteKeepsTransportChecksum | src/bpf/common/routing.h:85-115 | in the frame, the transport checksum verifies after the rewrite if and only if it did before; "no checksum" stays, and no checksum turns into it |
| ForwardingRules.EncapsulationVerdicts | src/bpf/common/routing.h:20-83 | the exact condition for each verdict in the bytes of the packet: passed for a cut transport header, ports 22 and 9090, no entry or a WireGuard entry; dropped for a short header or too little headroom; sent otherwise |
| ForwardingRules.BackendIsTheEntry | src/bpf/common/routing.h:56-71 | a sent packet goes to address and port of the entry of (vip, port, protocol) whatever else the map holds, and to those of (vip, 0, 0) if and only if the full key is absent |
| ForwardingRules.EncapsulatedBytes | src/bpf/common/routing.h:117-167 | every byte of the sent packet but the checksums, the port and the backend's address |
| ForwardingRules.DecapsulationVerdicts | src/bpf/common/routing.h:171-264 | the exact condition for each of the four verdicts, and the frame, in the bytes of the packet: an A2S answer is redirected with a socket and passed without one |
| ForwardingRules.ChallengeRule | src/bpf/common/routing.h:202-213 | an entry takes the four bytes behind FF FF FF FF 41 if and only if a complete challenge came from its server; no entry changes otherwise, and none in anything else |
| A2sReply.FindEntry | src/bpf/xdp_main.c:191-200 | finds the entry of the addressed server exactly for A2S_INFO queries |
| A2sReply.Resize | src/bpf/xdp_main.c:204-216 | brings the frame to the length of the answer in 16-bit arithmetic, or fails without change |
| A2sReply.Fill | src/bpf/xdp_main.c:232-242 | the bounded copy writes the prefix and as much of the data as size, 512 and the frame allow |
| A2sReply.Turn | src/bpf/xdp_main.c:252-266 | exchanges addresses and ports and sets TTL, lengths and checksum fields, and nothing else |
| A2sReply.WriteAnswer | src/bpf/xdp_main.c:232-268 | the writes of the stage, together |
| A2sReply.UpdateVipStats | src/bpf/common/helpers.c:15-32 | counts one passed packet for an address, known or new, modulo 2^64, and touches no other record |
| A2sReply.ServeA2s | src/bpf/xdp_main.c:190-283 | verdict, frame and customer statistics of the whole stage for every query, cache, clock and room to grow |
| A2sReply.AnswerLength | src/bpf/xdp_main.c:204-216 | for every query of real size and every entry the frame is 14 + 20 + 8 + 5 + size bytes |
| A2sReply.LengthFieldsAgree | src/bpf/xdp_main.c:263-266 | UDP and IP length agree with the frame if and only if size is below 65523 and 65503 respectively |
| A2sReply.AnswerTurnsHeaders | src/bpf/xdp_main.c:244-268 | every header byte of the answer but its checksum: MAC, IP and port pairs of the query exchanged, TTL 64, both lengths, no UDP checksum, the rest as it was |
| A2sReply.AnswerPayload | src/bpf/xdp_main.c:229-242 | the payload is FF FF FF FF, 55 for an expired entry and 49 for a fresh one, and the data up to size; beyond 512 bytes of data the rest is what the frame held, or zeros |
| A2sReply.AnswerHeaderVerifiesIff | src/bpf/xdp_main.c:266-268 | the answer's IP header verifies if and only if the halves of the sum of the query's own header words, with the answer's length, TTL 64 and no checksum, add without carry |
| A2sReply.AnswersDecided | src/bpf/xdp_main.c:190-283 | for every packet: handed on if and only if it does not start with FF FF FF FF 54 or its server is not cached, dropped if and only if its frame cannot grow, redirected if and only if now is past expires and a socket is there, and sent otherwise, with 49 if fresh and 55 if not |
| A2sReply.StaleAnswerIsSent | src/bpf/xdp_main.c:270-281 | the concrete case: query, expired entry, no socket, answer sent with 0x55 and counted for the client |
| A2sReply.AnswersBilled | src/bpf/xdp_main.c:270-283 | a sent answer adds one passed packet to the record of the client's address and changes no other, the VIP's included; what is not sent is not counted |
| A2sReply.ChallengesKeepAnswers | src/bpf/common/routing.h:202-213 | what decapsulation learns from any frame changes no verdict and no answer of the A2S stage |
| RateLimit.Limiter.constructor | src/bpf/common/rl.h:8-19 | no source has a record yet, and limits come from config_map |
| RateLimit.Limiter.CheckRateLimit | src/bpf/common/rl.h:8-53 | updates only the source's record, by the window rule, and drops if and only if the source was known and its counts pass entry 0 or 1 of config_map, or their defaults |
| RateLimit.RateBound | src/bpf/common/rl.h:21-52 | between two packets T ns apart, in any mix of sources whose packets have at least m bytes and for any limits, fewer than max(min(pps, bps / m), 1) * (T / (10^9 + 1) + 2) packets, without the bytes term for m = 0, and at most max(bps, 65535) * (T / (10^9 + 1) + 2) bytes of a source pass |
| RateLimit.RateBoundIsSharp | src/bpf/common/rl.h:24-29 | for every n and packet length the two limits allow in a window, 2n - 1 packets with all their bytes can pass within one nanosecond, the most packets the bound allows |
| RateLimit.KeepsRateIff | src/bpf/common/rl.h:21-52 | for all limits and every shortest packet length m, no second lets more than max(pps, 1) packets of a source pass if and only if pps <= 1 or 2 * (bps / m) <= pps + 1 |
| RateLimit.KeepsRateHere | src/bpf/xdp_main.c:104-131 | the same for the 42 bytes that every packet reaching the limiter has |
| RateLimit.DropsPersist | src/bpf/common/rl.h:30-39 | after a source's first drop all its packets are dropped until one opens the next window |
| RateLimit.WindowsAreSpaced | src/bpf/common/rl.h:24-29 | windows of a source open more than a second apart |
| RateLimit.PassedByWindows | src/bpf/common/rl.h:21-52 | packets passed since any point are fewer than a limit per window opened since plus the open window's count |
| RateLimit.BytesByWindows | src/bpf/common/rl.h:21-52 | bytes passed are at most a limit per window opened since plus the open window's count |
| RateLimit.ShortStreamsAreTimed | src/bpf/common/rl.h:26-33 | no counter wraps in the first 2^64 / 65535 packets, whatever they are |
| RateLimit.SourcesAreIndependent | src/bpf/common/rl.h:10 | a source's record depends on its own packets only |
| ConfiguredRate.RecordCounts | src/bpf/common/rl.h:21-49 | the record of a source counts its packets and bytes since the packet that opened its window |
| ConfiguredRate.WindowRule | src/bpf/common/rl.h:8-53 | a packet is dropped if and only if its source has been seen and the packets or bytes since its window opened exceed entry 0, else 10000, or entry 1, else 10485760, of config_map |
| ConfiguredRate.ConfiguredBound | src/bpf/common/rl.h:8-53 | the rate bound with those two entries and defaults as its limits |
| Mitigation.Engine.constructor | src/control_plane/main.go:530-531 | level 0, hold 0 |
| Mitigation.Engine.Tick | src/control_plane/main.go:679-718 | one pass of the ticker loop is one step of the state machine and counts survival activations |
| Mitigation.Engine.Drive | src/control_plane/main.go:533-718 | the loop is the run over its ticks' demands |
| Mitigation.DemandIsInput | src/control_plane/main.go:608-677 | measurements never ask for more than level 4, and an emergency's grades ask for 4 anyway |
| Mitigation.DemandThresholds | src/control_plane/main.go:606-677 | each level is demanded if and only if one of the five measurements passes its threshold for that level, and likewise an emergency |
| Mitigation.HoldCountsDown | src/control_plane/main.go:679-718 | over any run the hold counts the ticks that ask for another level and only those, and the level stays as long as it lasts |
| Mitigation.LevelChanges | src/control_plane/main.go:679-718 | the next such tick changes the level, to exactly the level and hold the source sets |
| Mitigation.EmergencyActs | src/control_plane/main.go:680-682 | an emergency leads to Survival with a hold of 30 from any other level and changes nothing there |
| Mitigation.ActivationsCounted | src/control_plane/main.go:680-683 | the metric counts the emergencies found outside Survival |
| Mitigation.RunReachable | src/control_plane/main.go:679-718 | in every run there are six levels, level 0 holds 0, and only Recovery holds more than 30 |
| Mitigation.ReachableIsReached | src/control_plane/main.go:679-718 | each of those states is reached by a run |
| Mitigation.FewChanges | src/control_plane/main.go:679-718 | in n ticks from the start, whatever is measured, c level changes satisfy 6c <= n + 10 |
| Mitigation.FewChangesIsTight | src/control_plane/main.go:679-718 | a run that meets that bound |
| Mitigation.FewChangesInTheLongRun | src/control_plane/main.go:679-718 | and 49c <= 4n + 190 |
| Mitigation.LongRunRateIsTight | src/control_plane/main.go:679-718 | a cycle that keeps up 4 changes in 49 ticks for ever |
| Mitigation.RecoveryBeforeNormal | src/control_plane/main.go:704-711 | a way from levels 1-4 to level 0 contains 61 consecutive ticks in Recovery |
| Mitigation.RecoverySince | src/control_plane/main.go:704-706 | in Recovery with hold h the last 60 - h states were Recovery too |
| Mitigation.SurvivalHeld | src/control_plane/main.go:680-682 | an emergency entry keeps level 4 for the next 30 ticks whatever they bring |
| Mitigation.FewActivations | src/control_plane/main.go:680-683 | n ticks hold at most (n + 31) / 32 survival activations |
| Mitigation.Converges | src/control_plane/main.go:685-717 | under a constant demand the level is the target exactly from tick `Distance` on, which shrinks by one a tick |
| Mitigation.ConvergenceBounds | src/control_plane/main.go:685-717 | a constant non-zero target is met within 62 ticks, and target 0 leads to the initial state within 92 |
| Mitigation.RecoveryIsNotCancelled | src/control_plane/main.go:685-690 | without an emergency Recovery runs out its hold and ends in Normal whatever is measured |
| Mitigation.LeavingRecovery | src/control_plane/main.go:680-690 | a tick in Recovery goes to a demanded level if and only if it is an emergency |
| Mitigation.AttackInRecoveryIgnored | src/control_plane/main.go:686-690 | the concrete case: an attack of level 3 during Recovery only counts the hold down |
| TextLines.JoinSplit | src/control_plane/map_manager.go:358-391 | joining the lines of a text gives the text |
| TextLines.SplitJoin | src/control_plane/map_manager.go:358-391 | splitting joined lines gives the lines |
| TextLines.LineInText | src/control_plane/map_manager.go:357-358 | what a line contains, the text contains |
| TextLines.ContainsIff | src/control_plane/map_manager.go:357 | containing a text is being that text with something on both sides |
| TextLines.TrimmedIs | src/control_plane/map_manager.go:365 | trimming takes white space, and all of it, off both ends |
| TextLines.WhiteSpace | src/control_plane/map_manager.go:365 | white space by code point |
| WireGuardConf.Conf.constructor | src/control_plane/map_manager.go:326-328 | the object holds the text of the file |
| WireGuardConf.Conf.AddPeer | src/control_plane/map_manager.go:313-343 | appends the peer's block unless a field is empty or the key is in the text |
| WireGuardConf.Conf.RemovePeer | src/control_plane/map_manager.go:345-394 | the new text is the join of the filtered lines, if the key occurs |
| WireGuardConf.PeerConfig | src/control_plane/map_manager.go:330-334 | the assembled text is a newline and the peer's lines |
| WireGuardConf.FilterLines | src/control_plane/map_manager.go:359-389 | the loop's output is the input cut into sections minus the peer blocks that mention the key |
| WireGuardConf.ReadLine | src/control_plane/map_manager.go:363-386 | whatever lines are still to come, taking one keeps what is out together with what the loop still owes |
| WireGuardConf.SectionsWellFormed | src/control_plane/map_manager.go:365-385 | cutting into sections loses nothing; each block starts with its only header and reaches to the next |
| WireGuardConf.SectionsOfLines | src/control_plane/map_manager.go:365-385 | well-formed sections are read back from their lines |
| WireGuardConf.FilterIsExact | src/control_plane/map_manager.go:358-391 | read back, the output is the input's sections in order minus exactly those that mention the key |
| WireGuardConf.FilterIsIdempotent | src/control_plane/map_manager.go:358-391 | a second pass changes nothing |
| WireGuardConf.RemoveIsIdempotent | src/control_plane/map_manager.go:345-394 | nor does removing the peer from the file again |
| WireGuardConf.UnmentionedKept | src/control_plane/map_manager.go:396-403 | lines that do not contain the key are all kept |
| WireGuardConf.FilterSplits | src/control_plane/map_manager.go:365-372 | lines before a peer header and from it on are filtered apart |
| WireGuardConf.RestoredIff | src/control_plane/map_manager.go:328-391 | what is left of the append after removing: the filter's remains of the block, for any fields |
| WireGuardConf.RoundTripIff | src/control_plane/map_manager.go:328-391 | for any text without the key, adding and removing restores the text if and only if the appended block reads as peers that all mention the key |
| WireGuardConf.RoundTrip | src/control_plane/map_manager.go:328-391 | with one-line address and endpoint it restores every such text if and only if the key is one line |
| WireGuardConf.RemovesOnlyItsPeer | src/control_plane/map_manager.go:313-394 | after adding two peers, removing the first leaves the text as if only the second had been added |
| WireGuardConf.AddedLines | src/control_plane/map_manager.go:313-343 | adding a peer with one-line fields appends exactly its lines to the file's, unless a field is empty or the key occurs |
| WireGuardConf.NothingToRemove | src/control_plane/map_manager.go:345-357 | without a key, or with one that occurs nowhere, the file stays |
| WireGuardConf.OutsideStays | src/control_plane/map_manager.go:379-381 | a line that is no peer header, outside a block, stays whatever it contains |
| WireGuardConf.BlockGoesIff | src/control_plane/map_manager.go:363-386 | a peer header with the lines up to the next header goes whole if and only if the key occurs in one of them |
| WireGuardConf.HeaderStarts | src/control_plane/map_manager.go:365-373 | a header is a line that starts, after white space, with [Peer] or [Interface] |
| NetText.ValueOfDigits | src/control_plane/map_manager.go:216 | printing a number and reading it back is the identity, without leading zeros |
| NetText.DigitsOfValue | src/control_plane/map_manager.go:655 | a numeral without leading zeros is the only one of its value |
| NetText.AddressText | src/control_plane/map_manager.go:656-661 | among all texts net.ParseIP takes, IPv6 included, one reads as an IPv4 address in four bytes if and only if it is that address's printed form |
| NetText.MappedText | src/control_plane/map_manager.go:656-661 | the IPv4-mapped form of every address reads as sixteen bytes that To4 turns back into it |
| NetText.AddressChars | src/control_plane/map_manager.go:655-665 | no text that reads as an address holds a slash, and it holds a colon if and only if it is IPv6 |
| V6Grammar.V6TextIff | src/control_plane/map_manager.go:656-661 | the IPv6 parser reads a text as sixteen bytes if and only if the grammar of RFC 4291, section 2.2, has that text for them |
| V6Grammar.SixteenBytesIff | src/control_plane/map_manager.go:656-661 | so does net.ParseIP as a whole |
| V6Grammar.FourBytesIff | src/control_plane/map_manager.go:661-668 | sixteen bytes stand for an IPv4 address if and only if they are ten zeros, twice FF and its bytes |
| V6Grammar.HexDigits | src/control_plane/map_manager.go:656-661 | the hexadecimal digits of both cases, by value |
| Cidr.MaskClearsHostBits | src/control_plane/map_manager.go:667-672 | byte-wise masking rounds the address down to a multiple of 2^(32 - n) |
| Cidr.ParseFormat | src/control_plane/map_manager.go:654-673 | a printed key reads as the key with host bits cleared for every length up to 32, and as an error beyond |
| Cidr.RoundTripIff | src/control_plane/map_manager.go:209-217 | printing and reading is the identity if and only if the length is at most 32 and no host bit is set |
| Cidr.ParsedIsCanonicalIff | src/control_plane/map_manager.go:654-673 | every key that is read has length at most 32 or 96 to 128; it is canonical, and its printed text finds it again, if and only if the length is at most 32, which is if and only if the text is not an IPv6 network |
| Cidr.MappedRead | src/control_plane/map_manager.go:654-673 | for every address and number n: the mapped address reads as the address, and with /n as a network of length n if and only if n is 96 to 128 |
| Cidr.MappedNetworksAreLost | src/control_plane/map_manager.go:665-672 | every such network gives a key that is not canonical and prints as a text that is not read |
| Cidr.MappedTen | src/control_plane/map_manager.go:665-672 | the concrete case ::ffff:10.0.0.0/104, printed as 10.0.0.0/104, which is not read |
| Cidr.FormatInjective | src/control_plane/map_manager.go:209-217 | distinct keys print differently, canonical or not |
| Cidr.CidrMap.Add | src/control_plane/map_manager.go:134-150 | adds exactly the text's key, and nothing when the text is unreadable or an IPv6 network, whose length the trie refuses |
| Cidr.CidrMap.Remove | src/control_plane/map_manager.go:153-169 | deletes exactly the text's key, and is an error when it is not there |
| Cidr.CidrMap.List | src/control_plane/map_manager.go:219-243 | lists one text an entry, in some order |
| Cidr.ListingReadsBack | src/control_plane/map_manager.go:219-243 | every listed text reads as a key of the map, every key's text is listed and reads as that key, and no text is listed twice |
| CidrTexts.ReadsExactly | src/control_plane/map_manager.go:654-673 | a text is read as a key if and only if it is an address, dotted or in an IPv6 form that stands for one, with the key of 32 bits; or such an address, a slash and a length up to 32, or from 96 to 128 for IPv6, with that length and the address rounded down to its network |
| CidrTexts.PrintsExactly | src/control_plane/map_manager.go:209-217 | a key prints as its four bytes, lowest first, and its length, which is left out if it is 32 |

## Left out

- Weak memory beyond the acquire and release order of the ring, compiler reordering and alignment.
- Thread loops, the stop flag, spinning, polling and wake-ups: `FrameLifecycle` models each pass of the loops as steps of a state machine, because two threads and the kernel interleave in it. A ring reserve or a peek may answer anything the kernel could.
- Frame contents in `FrameLifecycle`: `PacketFlow` says which descriptors pass, and `ReceivePath.ReadAfterPush` who holds the frame the worker reads, not what the worker then copies.
- The default ring size 2048 of libxdp is taken as a constant; libxdp is not part of this model.
- The packets the AF_XDP worker builds, its challenge tokens and `dpi.c`.
- SpscRing.Spsc.Push: copies a descriptor in one store; the halves of the copy are in the interleaved model.
- Routing.EncapsulateIpip: the forward counter is one CPU's.
- Routing.Classify: the two backend lookups are a function on a finite map.
- A2sReply.ServeA2s: takes an IPv4 header without options, as `xdp_main.c:51` demands before; eviction from the statistics map is left out.
- RateLimit.RateBound: speaks of one CPU's records without LRU eviction and of limits that stay fixed; an evicted source starts afresh.
- Mitigation.Engine.Tick: starts from the assessed measurements. Reading them from /proc, /sys and the maps, the warm-up cycles, the metrics and what the levels switch on are left out; measurements are real numbers.
- WireGuardConf.Conf.AddPeer: file access and the `wg` commands are left out, texts are sequences of code points, so files that are not UTF-8 are not covered.
- WireGuardConf.Conf.RemovePeer: the same.
- Cidr.CidrMap.Add: the trie's capacity and system call errors other than a refused length are left out.
- Cidr.CidrMap.Remove: system call errors other than a missing key or a refused length are left out.
- Cidr.CidrMap.List: the error result of the iteration is left out.
- The BPF firewall stages, SYN cookies (switched off in the source), GeoIP, the loader, the HTTP interface, cluster sync and the web pages.
