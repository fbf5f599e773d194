# IPXWrapper, verified

A Dafny model of the parts of IPXWrapper that keep state or transform packets, with proofs of what
they promise. IPXWrapper emulates IPX sockets on top of UDP, a DOSBox server or raw Ethernet; most
of it hands calls through to Winsock. What is modelled here is what it does by itself:

- **The receive queue of an emulated socket.** `RecvQueue` is the 32-slot queue with the locked
  sections of `recv_pump`, `recv_packet` and `closesocket` as methods. `RecvInterleavings` runs those
  sections, the unlocked `recv` and the close of the socket as atomic events of any number of threads
  and proves what every interleaving keeps. `RecvDelivery` proves that no datagram is lost or
  duplicated, `RecvOrder` exactly when they are read in order of arrival. `RecvFionread` and
  `RecvSelect` are the two calls that look at that FIFO without reading it. `RecvStarvation` is what
  happens to a blocking read when every slot is taken, `RecvLocking` the discipline of the sockets
  lock.
- **Packet coalescing and its inverse.** `Coalesce` is the specification; `Coalescers` keeps nodes
  with fixed buffers, a table and a pending list, updates them in place and computes exactly the
  specified steps. `CoalesceProofs`, `CoalesceOrder`, `CoalesceTiming`, `CoalesceDelay` and
  `CoalesceHistory` prove conservation, order, deadlines and hysteresis over whole runs, and
  `CoalesceOvertaking` has runs in which packets overtake. `Envelopes` is the wire format,
  `EnvelopeWalks` the DOSBox receive path on every datagram; `CoalesceEndToEnd` joins the two machines.
- **The hash table and list** everything is kept in. `UtHash` specifies the uthash macros for an
  arbitrary hash function, `UtHashGrowth` bounds chains and load over every run, `UtHashAgreement`
  proves the table equal to a plain map, `UtHashInhibited` follows a hash function that fills one
  bucket, `HashTables` is the in-place version, `HashLinks` the
  pointers behind its sequences and `HashRelink` the redistribution loop on them. `UtList` is the
  doubly linked list. `AddrCache` is the address cache as a client of the table.
- **The rate limiter**: `RateLimit`, `RateLimitProofs`, and `RateLimitSenders` for several threads.
- **The codecs and paths**: `Frames` (three Ethernet framings), `UdpPath` and `LocalDelivery` (UDP
  encapsulation and the relay to local sockets), `Addr` (address parser and printer).
- **The DOSBox registration back-off**: `Registration`.

`Ipx`, `Bits`, `Sequences` and `Options` hold shared vocabulary. Check everything with
`dafny verify dfyconfig.toml`.

## Where the code does less than it says

The model follows the code; these are the places where that differs from a comment or from what a
caller might expect, with the lemmas that show it and say when it is so.

- `src/ipxwrapper.h:74-77` says a pump holds a reference while the lock is not held. A successful
  `recv_pump` never gives its reference back (`src/winsock.c:865-869`), so the queue of a socket that
  has received anything is never destroyed: `ReceivingOncePinsTheQueue`, `DestroyedIff`.
- A blocking read that finds nothing ready and all 32 slots taken by other threads' pumps repeats
  `recv_pump` with the sockets lock held (`src/winsock.c:890-897`): from then on no pump returns,
  nothing is read and no close completes. `SpinsIff`, `SpinsForEver`, `ReaderThirtyThreeSpins`.
- With several reading threads datagrams can be read in another order than they arrived in:
  `SwappedReads`. Order is kept exactly when no pump publishes before one that received earlier:
  `RecvOrder.OrderKeptIff`, `OutOfTurnShows`; so it is with one reading thread: `ReadsInArrivalOrder`.
- The rate limiter's second multiplication can overflow although the first does not: `DelayCanWrap`,
  `DelayExactIff`, `DelaysExactIff`. With adds of at most 8192 it cannot: `DelaysExactForPackets`.
  When the first overflows, a sender that waits as told can pass the bound of `TotalsBounded`:
  `BoundCanFail`; and who is above the limit can be told not to wait at all: `DelayCanVanish`,
  `NoDelayIff`, `OverLimitWaits`.
- A table whose last two expansions were ineffective never expands again (`InhibitedIff`). A hash
  function that sends every key to one bucket gets there with its 110th item, and its one chain then
  grows with every addition: `OneHashInhibits`.
- A large packet can overtake smaller ones queued before it, and so can any packet sent just as
  coalescing goes off: `OvertakesAfterQuickSends`, `OvertakesAsCoalescingEnds`; exactly when:
  `CoalesceOrder.OrderKeptIff`.
- A packet is to be delayed by at most 20 ms (`src/coalesce.h:45-48`), but that is looked at only at
  tracked sends to the same destination and at the router's passes, which can be a second apart. A
  payload that has waited a second: `WaitsForTheNextPass`; exactly when one is overdue: `OverdueIff`;
  what the passes bound: `YoungSinceFlush`.
- The envelope walker neither counts down the data that remains nor rejects inner lengths below the
  header size. Accepted payloads it misreads: `OverrunAccepted`, `UnderflowAccepted`,
  `OverrunMisread`; one it never gets through: `ZeroLengthHangs`; exactly which: `WalkEndsIff`,
  `MisreadIff`, `EnvelopeOutcomeIff`. What coalescing sends is none of them: `FaithfulIffPackets`,
  `DatagramDelivered`.
- An Ethernet frame whose IPX length field is below 30 passes every check of the receiver
  (`src/router.c:745-768`), and its data size wraps round: `ShortPacketMisread`; exactly which frames:
  `FrameOutcomeIff`.
- A registration attempt can send a request after its 30 s, in the very pass that times it out and
  only there: `NineRequestsHappen`, `LateRequestIff`.
- The `abort()` for a datagram that arrives while disconnected, marked unreachable
  (`src/router.c:694-697`), is reached by a registration reply read just after the timeout:
  `LateReplyAborts`; exactly when: `DownIff`, `AbortedIff`.
- The ten seconds between connection attempts are waited only after the server's name failed to
  resolve: `UntriedIff`. A timed-out attempt is followed by the next at once: `RetriesAtOnce`.
- A payload above 8192 bytes, which Ethernet II frames can carry, is relayed to local sockets but
  never read: `RelayAcceptedIff`.
- `select` reports a socket readable that has nothing waiting but datagrams which will be discarded:
  `ReadableForNothing`, `ReadableIffFifo`.
- The address parser takes runs of colons as one separator: `JoinedParses`, `ParsedIsJoined`.

## Model

| member | source | states |
|---|---|---|
| `RecvQueue.SocketQueue.constructor` | src/winsock.c:361-367 | a new queue has one reference, 32 free slots and nothing ready |
| `RecvQueue.SocketQueue.Release` | src/winsock.c:316-325 | drops one reference; the queue is destroyed exactly when none is left |
| `RecvQueue.SocketQueue.Claim` | src/winsock.c:794-818 | locks the first free slot and takes a reference, or leaves the queue alone when no slot is free |
| `RecvQueue.SocketQueue.Reclaim` | src/winsock.c:832-870 | the three ways back from recv(): slot abandoned when the socket is gone, freed on error or on a bad size, published at the end of ready[] otherwise; and the return value |
| `RecvQueue.SocketQueue.Read` | src/winsock.c:900-963 | returns the oldest packet, its size, and as much of its payload as fits, and to a caller that asks its source; without MSG_PEEK the FIFO loses exactly its head, with it nothing changes |
| `RecvQueue.SocketQueue.CopySource` | src/winsock.c:911-947 | the caller's sockaddr gets the sender's net, node and socket; with room for an extended address also the type, 0x01 for a packet to the broadcast node and 0x02 for one from an own interface |
| `RecvQueue.PopKeepsWellFormed` | src/winsock.c:952-958 | freeing the head's slot and shifting ready[] keeps the queue well formed and the rest in order |
| `RecvInterleavings.StepKeepsInv` | src/winsock.c:771-963 | every event of every thread keeps the queue well formed, slots and pumps matched, slots and references accounted for |
| `RecvInterleavings.EveryInterleavingIsSafe` | src/winsock.c:771-963 | over every interleaving: ready[] holds distinct ready slots and never overruns, the assertion in recv_packet holds, a reclaiming pump has room, and free + ready + in-flight slots are 32 while the socket is open |
| `RecvInterleavings.LockedSlotsMatchPumps` | src/winsock.c:794-850 | while the socket is open, locked slots and pumps in flight correspond one to one |
| `RecvInterleavings.ClaimFailsOnlyWhenFull` | src/winsock.c:890-897 | a blocking read with nothing ready finds no slot if and only if 32 pumps are in flight |
| `RecvInterleavings.WhatCanHappen` | src/winsock.c:771-963 | which events are possible in a state that satisfies the invariant: a pump starts exactly while a slot is free, receives exactly while the kernel has a datagram, comes back whether or not the socket is still there, and a read goes on exactly while something is ready |
| `RecvInterleavings.DestroyedIff` | src/winsock.c:316-325 | the queue is destroyed exactly when the socket is closed, no pump is in flight and none ever published a packet; so never under an open socket or a pump in flight |
| `RecvInterleavings.ReceivingOncePinsTheQueue` | src/ipxwrapper.h:74-77 | a run that receives, reads and closes and leaves the queue undestroyed with no user left |
| `RecvInterleavings.ReceivedWellFormed` | src/winsock.c:820-825 | recv() without the lock writes only to a slot that is not ready |
| `RecvDelivery.StepConserves` | src/winsock.c:771-963 | every event conserves the acceptable datagrams: read, held in a slot, or with the kernel |
| `RecvDelivery.NothingLostOrDuplicated` | src/winsock.c:771-963 | the same over every interleaving of any number of threads while the socket is open, each datagram exactly once |
| `RecvOrder.FifoStep` | src/winsock.c:771-963 | with any number of threads, events in turn leave alone what is ready, in hand and with the kernel, except that a read takes the head and an acceptable arrival goes to the end |
| `RecvOrder.OutOfTurnShows` | src/winsock.c:820-870 | a pump that publishes before one that received earlier puts its datagram, for good, where an older one was due |
| `RecvOrder.OrderKeptIff` | src/winsock.c:771-963 | over every run of any number of threads whose datagrams differ, what was read followed by what is ready, in hand and with the kernel is what arrived, in order, if and only if no pump published before one that received earlier |
| `RecvOrder.ReadsInArrivalOrder` | src/winsock.c:878-963 | so with one reading thread it always is, even if datagrams are equal |
| `RecvOrder.SwappedReads` | src/winsock.c:820-870 | a run of two threads that reads the second datagram first |
| `RecvFionread.PumpedQueue` | src/winsock.c:771-870 | one undisturbed pump moves an acceptable datagram to the end of the ready packets and discards any other, freeing its slot |
| `RecvFionread.PumpWithoutBlocking` | src/winsock.c:771-870 | recv_pump(sock, FALSE): -1 when r_ioctlsocket() fails, 0 for lack of data or slots; otherwise -1 when recv() fails, leaving everything as it was, or brings a datagram to discard, and 1 for one moved to the end of the ready packets |
| `RecvFionread.Drain` | src/winsock.c:1850-1868 | the pumping loop ends, when a library call fails, at the first unacceptable datagram whose turn comes while a slot is free, or for lack of data or of slots |
| `RecvFionread.Fionread` | src/winsock.c:1848-1886 | FIONREAD fails if and only if, after acceptable datagrams within the free slots, r_ioctlsocket() fails, or with bytes and a slot left recv() fails or the next datagram is unacceptable; otherwise it totals everything ready |
| `RecvFionread.StopDecided` | src/winsock.c:1850-1868 | whether the loop fails is decided by the waiting datagrams, the number of free slots and the library calls that succeed |
| `RecvFionread.FionreadKeepsFifo` | src/winsock.c:1848-1886 | whether it fails or not, the FIFO of ready packets and acceptable datagrams is unchanged |
| `RecvFionread.FionreadTotalsHead` | src/winsock.c:1848-1886 | when it does not fail it totals the head of the FIFO, as many packets as were ready plus free slots (32 with no pump in flight), or all |
| `RecvFionread.ReadLowersTotal` | src/winsock.c:1870-1880 | the total is zero when nothing is ready, and taking the oldest packet lowers it by exactly the payload size a read returns |
| `RecvFionread.TotalIsLengths` | src/winsock.c:1870-1880 | the total and 27 bytes for each packet are the sum of the packets' lengths |
| `RecvFionread.AddUp` | src/winsock.c:1870-1880 | the loop over ready[] totals the payloads |
| `RecvSelect.CollectReady` | src/winsock.c:2732-2759 | collects exactly the descriptors of emulated sockets with packets queued, and waits for nothing if there is one |
| `RecvSelect.Inject` | src/winsock.c:2763-2777 | adds them to the read set once each and to the count |
| `RecvSelect.Select` | src/winsock.c:2724-2782 | a failing r_select() is passed on; otherwise a descriptor is readable if and only if its socket has a packet queued or a datagram waiting in the kernel, and the count fits the sets |
| `RecvSelect.ReadableForNothing` | src/winsock.c:2724-2782 | a run after which the kernel has a datagram waiting and the FIFO is empty |
| `RecvSelect.ReadableIffFifo` | src/winsock.c:2724-2782 | readable means a non-empty FIFO, exactly unless nothing but datagrams to be discarded is waiting |
| `RecvStarvation.SpinsIff` | src/winsock.c:890-897 | a blocking read of an open socket gets stuck if and only if nothing is ready and 32 pumps are in flight |
| `RecvStarvation.SpinsForEver` | src/winsock.c:890-897 | once one is stuck, in every continuation no event that needs the sockets lock is possible: no reclaim, read, claim or close |
| `RecvStarvation.ReaderThirtyThreeSpins` | src/winsock.c:794-818 | a run that gets there: 32 threads block in reads of an empty socket, and a 33rd reads |
| `RecvLocking.RecvPump` | src/winsock.c:771-871 | whatever the library answers and wherever the socket is then: with 0 or 1 the lock is held, with -1 it has been left, and recv() is waited in without it; which of the three, and when |
| `RecvLocking.ReclaimSocket` | src/winsock.c:748-769 | has the lock exactly when it finds the same socket again |
| `RecvLocking.RecvPacket` | src/winsock.c:878-963 | every exit has left the lock once; it loops on, with the lock, exactly while nothing is ready and no slot is free; it succeeds exactly when something was ready or the first pump that got a slot published |
| `RecvLocking.Fionread` | src/winsock.c:1848-1886 | every exit has left the lock once; it succeeds exactly when the first pump that publishes nothing finds nothing to do |
| `RecvLocking.RecvFrom` | src/winsock.c:965-1022 | a call that returns has left the lock as often as it entered it, for emulated, SPX and foreign sockets alike, and calls the library's receive without it |
| `RecvLocking.Ioctlsocket` | src/winsock.c:1840-1892 | likewise |
| `Coalescers.CoalesceDest.RegisterSend` | src/coalesce.c:105-123 | shifts the history, stores the time and gives the verdict of the two thresholds |
| `Coalescers.CoalesceDest.Note` | src/coalesce.c:210-227 | registers a send and switches the destination's state; no payload changes |
| `Coalescers.CoalesceDest.Put` | src/coalesce.c:125-169 | the buffer holds the header and every queued packet end to end, within 1384 bytes |
| `Coalescers.CoalesceDest.TakePayload` | src/coalesce.c:171-192 | what is handed to r_sendto() is byte for byte the envelope of the queued packets; the payload is empty afterwards |
| `Coalescers.Coalescer.FindOrCreate` | src/coalesce.c:69-103 | finds a destination's node or adds a zeroed one, leaving every other destination alone |
| `Coalescers.Coalescer.FlushNode` | src/coalesce.c:171-193 | sends one envelope, unlinks exactly its destination, keeps every invariant; its assertion is the precondition |
| `Coalescers.Coalescer.AddData` | src/coalesce.c:125-169 | queues the packet if and only if it fits, linking the destination with its first packet |
| `Coalescers.Coalescer.Send` | src/coalesce.c:195-265 | coalesce_send computes the specified step, including the asserted preconditions of every flush in it, whether or not a node exists or can be allocated; it reports no error for a packet that is queued, and otherwise what sending it reports |
| `Coalescers.Coalescer.FlushWaiting` | src/coalesce.c:268-277 | the head-only loop computes the specified flushes and ends |
| `Coalescers.Coalescer.Cleanup` | src/coalesce.c:279-293 | sends everything still queued and frees every node |
| `Coalesce.FlushKeepsLinked` | src/coalesce.c:191-193 | a flush unlinks exactly the flushed destination: pending stays the list of destinations with a payload |
| `CoalesceProofs.FlushStep` | src/coalesce.c:171-193 | flushing changes what is on the wire but not what any destination will see, and its envelope is non-empty and within the limit |
| `CoalesceProofs.AppendStep` | src/coalesce.c:125-169 | queuing puts one packet behind everything of its destination and nothing else |
| `CoalesceProofs.NotQueuedBecause` | src/coalesce.c:229-240 | a packet is sent by itself if and only if coalescing is off or it is at least half the maximum and does not fit |
| `CoalesceProofs.SendStep` | src/coalesce.c:195-265 | every send leaves or queues exactly its packet, behind everything older unless it overtakes |
| `CoalesceProofs.CleanupStep` | src/coalesce.c:279-293 | cleanup leaves nothing queued, pending or tracked, having sent everything in order |
| `CoalesceProofs.ApplyKeepsInv` | src/coalesce.c:195-293 | every call keeps pending, payloads and size bounds consistent |
| `CoalesceProofs.After` | src/coalesce.c:125-293 | in every reachable state pending lists exactly the destinations with a payload, and every envelope on the wire is non-empty and at most 1384 bytes |
| `CoalesceProofs.PacketsConserved` | src/coalesce.c:125-293 | for every run and destination, what was submitted is exactly what was handed to r_sendto() plus what is queued |
| `CoalesceProofs.OrderKept` | src/coalesce.c:195-265 | a destination whose sends never overtake sees submission order |
| `CoalesceOrder.OvertakingShows` | src/coalesce.c:242-263 | an overtaking send is visible for good in the order of what left |
| `CoalesceOrder.OrderKeptIff` | src/coalesce.c:195-265 | when its packets differ, a destination sees submission order if and only if no send overtakes, a condition checked before each send |
| `CoalesceOrder.SmallPacketsOvertakeOnlyWhenOff` | src/coalesce.c:229-240 | packets under 692 bytes overtake only when the verdict turns false with a payload pending |
| `CoalesceOvertaking.OvertakesAfterQuickSends` | src/coalesce.c:229-263 | 512 quick sends at any time of the clock, then a large packet: the 512th packet is overtaken, everything else in order |
| `CoalesceOvertaking.OvertakesAsCoalescingEnds` | src/coalesce.c:218-263 | ten seconds after 512 quick sends at any time of the clock coalescing goes off with a payload pending, and the packet sent just then overtakes it |
| `CoalesceOrder.QueuedOrderKept` | src/coalesce.c:125-193 | in every run, queued packets leave in the order they were queued |
| `CoalesceTiming.FlushKeepsAged` | src/coalesce.c:191-192 | a flush from anywhere keeps the pending list sorted by age |
| `CoalesceTiming.SendKeepsAged` | src/coalesce.c:195-265 | a send keeps it sorted and leaves its own destination not overdue |
| `CoalesceTiming.FlushWaitingExact` | src/coalesce.c:268-277 | on a sorted list the head-only loop flushes exactly the overdue destinations |
| `CoalesceTiming.AlwaysAged` | src/coalesce.c:60-67 | with a non-decreasing clock the pending list is always oldest first |
| `CoalesceTiming.NothingOverdueAfterFlush` | src/coalesce.c:268-277 | after a flush of what waits, no payload anywhere is 20 ms old, and younger ones are untouched |
| `CoalesceDelay.ApplyKeepsYoung` | src/coalesce.c:195-293 | once every payload was started less than 20 ms before some moment, no later call changes that |
| `CoalesceDelay.YoungSinceFlush` | src/router.c:845-851 | in every run no payload was started 20 ms or more before the last flush of what waits |
| `CoalesceDelay.RoomIff` | src/coalesce.c:229-235 | what is queued is flushed for room if and only if coalescing is on and a packet under 692 bytes does not fit behind the header and the packets queued |
| `CoalesceDelay.CurrentPayload` | src/coalesce.c:125-293 | in every run a destination has a payload if and only if some send started one that no later call ended; its age counts from that send and its header is that send's |
| `CoalesceDelay.OverdueIff` | src/coalesce.c:242-277 | a payload has waited 20 ms if and only if the send that started it is that old and since then there was no cleanup, no flush and no tracked send once the 20 ms were over, and no room-making flush |
| `CoalesceDelay.WaitsForTheNextPass` | src/coalesce.c:268-277 | the payload that 512 quick sends at any time of the clock leave, passed over 19.999 ms later, is still waiting a second after that |
| `CoalesceHistory.WindowSlides` | src/coalesce.c:109-110 | the shift-and-store is a sliding window over all send times |
| `CoalesceHistory.OnStep` | src/coalesce.c:112-122 | one more send turns coalescing on, keeps it or ends it, in terms of all send times |
| `CoalesceHistory.StaysOn` | src/coalesce.c:112-122 | once 512 sends took at most 2.5 s, coalescing stays on at every send less than 7.5 s later |
| `CoalesceHistory.HistoryTracksRun` | src/coalesce.c:105-123 | in every run the history is the last 512 of 512 zeros and the send times, and coalescing is on if and only if some send was fast and every later one sustained |
| `EnvelopeWalks.CheckLengths` | src/router.c:584-594 | the checking loop, on every payload: accepts, rejects, stays for ever, or reads a length outside the datagram, as specified |
| `EnvelopeWalks.DeliverInner` | src/router.c:598-626 | the delivering loop, on every accepted payload: delivers each inner packet in order up to the first that reads past the datagram, with the 32-bit data size |
| `EnvelopeWalks.HandleDosboxRecv` | src/router.c:562-652 | every datagram is dropped, delivered, misread from some packet on, or hangs the receiver, as specified |
| `EnvelopeWalks.WalkEndsIff` | src/router.c:584-594 | the checking loop accepts, rejects, hangs or leaves if and only if the offsets it steps through lead to the end, to a length above the payload's, to a zero length, or to a cut-off header |
| `EnvelopeWalks.MisreadIff` | src/router.c:573-626 | an accepted payload makes a delivery read past the datagram if and only if some inner length on the way is below 30 or the last inner packet ends past the payload |
| `EnvelopeWalks.EnvelopeOutcomeIff` | src/router.c:562-652 | the same two conditions for whole datagrams: when one hangs the receiver and when one is misread |
| `EnvelopeWalks.DroppedIff` | src/router.c:562-652 | every datagram: dropped if and only if it is shorter than a header, not as long as its length field, or an envelope whose walk comes to a length too large or that has less than a header inside; one that is no envelope is delivered as it is |
| `EnvelopeWalks.ConcatDelivered` | src/router.c:573-626 | any well-formed packets end to end are accepted and delivered as just these packets, in order |
| `EnvelopeWalks.FaithfulIffPackets` | src/router.c:573-626 | the receiver accepts a payload and stays inside it if and only if it is some sequence of well-formed packets end to end |
| `EnvelopeWalks.OverrunAccepted` | src/router.c:586-591 | 64 bytes with inner lengths 30 and 64 are accepted, the second packet going on 30 bytes past the end |
| `EnvelopeWalks.UnderflowAccepted` | src/router.c:608-608 | 31 bytes with inner lengths 20 and 11 are accepted, with data sizes near 4 GiB |
| `EnvelopeWalks.OverrunMisread` | src/router.c:562-626 | the first of these in an envelope delivers one packet and then misreads |
| `EnvelopeWalks.ZeroLengthHangs` | src/router.c:584-594 | 30 zero bytes, at which the loop stays for ever |
| `CoalesceEndToEnd.WireHoldsSubmitted` | src/coalesce.c:125-293 | only packets that applications submitted are ever on the wire |
| `CoalesceEndToEnd.DatagramDelivered` | src/router.c:562-652 | the peer delivers exactly the packets of each datagram coalescing sends, in order |
| `CoalesceEndToEnd.PeerDeliversWhatWasSubmitted` | src/coalesce.c:125-293 | over any run, what the peer delivers is what was submitted except what is still queued, packet by packet |
| `CoalesceEndToEnd.PeerDeliversEverythingInOrder` | src/coalesce.c:195-293 | with no overtaking and a final cleanup, the peer delivers everything in submission order |
| `CoalesceEndToEnd.BuiltPacketSurvives` | src/winsock.c:1529-1552 | a packet from a bound socket is well formed, has every field where the IPX header has it, is never taken for an envelope, and every field and the payload come back |
| `Envelopes.EnvelopeIsPacket` | src/coalesce.c:133-175 | to whoever does not take it apart an envelope is a well-formed packet of type 2 from the sender's net and node to the destination's, both sockets zero, with all packets for payload |
| `CoalesceEndToEnd.CompleteBind` | src/winsock.c:520-549 | binding gives the requested number or the lowest free one from 1024, never zero, and fails exactly when there is none |
| `UtHashGrowth.LoadBound` | include/uthash.h:594-605 | bounded chains bound the number of items by ten times the weight less the buckets |
| `UtHashGrowth.RedistributionGrows` | include/uthash.h:664-684 | redistributing at an ideal length of at most 10 restores the growth potential |
| `UtHashGrowth.ExpandKeepsGrowth` | include/uthash.h:649-695 | an expansion computes an ideal chain length between 1 and 10 and leaves the invariant restored |
| `UtHashGrowth.InsertKeepsGrowth` | include/uthash.h:594-605 | every insertion keeps the growth invariant, with or without an expansion |
| `UtHashGrowth.DeleteKeepsGrowth` | include/uthash.h:608-618 | every deletion keeps it |
| `UtHashAgreement.FindAgrees` | include/uthash.h:94-104 | a lookup finds a key's element if and only if the map holds the key |
| `UtHashAgreement.RelinkAllPlaces` | include/uthash.h:664-684 | redistribution keeps every element once and puts it where the wider mask sends it |
| `UtHashAgreement.AddAgrees` | include/uthash.h:162-185 | adding a new key extends the map by it, through any expansion |
| `UtHashAgreement.DeleteAgrees` | include/uthash.h:204-237 | deleting takes exactly its key out; the last element takes the table |
| `UtHashAgreement.RunTable` | include/uthash.h:94-237 | in every reachable table buckets, app-order list and counters describe the same elements, each placed by the mask, and stand for the map the run built |
| `UtHashAgreement.LookupsAgree` | include/uthash.h:94-237 | after any legal run, with any hash function, lookups answer as the map does |
| `UtHashAgreement.IterationOrder` | include/uthash.h:162-237 | after any legal run the app-order list holds the elements left in the order in which they were added |
| `UtHashAgreement.NewestFirst` | include/uthash.h:594-600 | an element just added without an expansion is the first its lookup comes to |
| `UtHashAgreement.OnlyExpansionsJudge` | include/uthash.h:594-695 | additions and deletions leave the size, every multiplier and the counters of the last expansion alone; an expansion records the rounded-up load and the number of items beyond it |
| `UtHashAgreement.ChainsStayShort` | include/uthash.h:594-605 | while expansion is not inhibited: chains hold at most 10*(expand_mult+1) items, the multipliers and full buckets weigh at most twice the buckets, and items are at most 19 times the buckets |
| `UtHashInhibited.OneHashInhibits` | include/uthash.h:649-695 | with a hash function that sends every key to one bucket, n additions leave 32, 64 or 128 buckets, expansion inhibited if and only if n is at least 110, and all n items in one chain |
| `UtHashAgreement.InhibitedIff` | include/uthash.h:688-693 | in every reachable table expansion is inhibited if and only if the last two expansions were both ineffective |
| `Bits.MaskIsModulo` | include/uthash.h:187-190 | the mask by 2^k - 1 is the remainder modulo 2^k |
| `Bits.ShiftCeilIsCeiling` | include/uthash.h:627-648 | the shift-and-mask expression is the quotient by a power of two, rounded up |
| `HashTables.HashTable.Redistribute` | include/uthash.h:664-684 | the in-place loops compute the specified buckets, and nonideal_items is the sum over buckets of what exceeds the ideal length |
| `HashTables.HashTable.ComputeIdeal` | include/uthash.h:659-661 | shift and mask compute the rounded-up quotient, which is positive |
| `HashTables.HashTable.ExpandBuckets` | include/uthash.h:649-695 | in place, the whole expansion is the specified one |
| `HashTables.HashTable.Add` | include/uthash.h:162-185 | in place, adding extends the map by the key and keeps the table consistent |
| `HashTables.HashTable.Find` | include/uthash.h:94-104 | the chain walk answers as the map does |
| `HashTables.HashTable.Delete` | include/uthash.h:204-237 | in place, deleting removes exactly the key |
| `HashLinks.Chain.Add` | include/uthash.h:594-600 | relinking hh_prev, hh_next and the head puts the handle in front |
| `HashLinks.Chain.Delete` | include/uthash.h:608-618 | relinking takes the handle out wherever it is |
| `HashLinks.Chain.Find` | include/uthash.h:580-591 | the walk finds the first handle with the key, or there is none |
| `HashLinks.AppOrder.Append` | include/uthash.h:162-175 | relinking prev, next and tail puts the handle last |
| `HashLinks.AppOrder.Delete` | include/uthash.h:204-232 | relinking takes the handle out wherever it is and keeps head and tail right |
| `HashRelink.Redistribute` | include/uthash.h:664-684 | on the pointers, the loops relink every handle from the old chains to valid new ones that are those of the specified redistribution, and count nonideal_items |
| `AddrCache.Cache.Get` | src/addrcache.c:133-159 | answers with the stored address exactly while it is under 30 s old |
| `AddrCache.Cache.Set` | src/addrcache.c:161-196 | overwrites or creates the key's entry and no other; fails silently when memory does |
| `AddrCache.Cache.Cleanup` | src/addrcache.c:112-131 | the loop ends and nothing is cached |
| `AddrCache.LastSetIsStored` | src/addrcache.c:161-196 | the last update of a key is what is stored |
| `AddrCache.GetReturnsLastSet` | src/addrcache.c:133-196 | over any run of updates, a lookup returns an address if and only if it is the last one set for the key and under 30 s old |
| `UtList.List.Append` | include/utlist.h:515-528 | relinking appends, with the head's prev the tail |
| `UtList.List.Prepend` | include/utlist.h:500-510 | relinking prepends |
| `UtList.List.Delete` | include/utlist.h:550-566 | relinking deletes at head, middle, tail or the only element, and leaves the deleted element's own links alone |
| `UtList.List.Foreach` | include/utlist.h:572-573 | iteration visits every element once, in order |
| `UtList.List.FreeAll` | src/interface.c:279-331 | the safe-iteration free loops free every element once, in order, and leave the list empty |
| `RateLimit.RateLimiter.MoveWindow` | src/common.c:441-471 | the RESET and shift paths move the window to the current slot |
| `RateLimitProofs.MovesJustEnough` | src/common.c:441-471 | the window moves in steps of 100 ms until it ends after now and no further, its slots with it; after 1900 ms or a restarted clock it starts empty at now |
| `RateLimit.RateLimiter.AddUp` | src/common.c:475-480 | the loop computes the 32-bit sum of the slots |
| `RateLimit.RateLimiter.GetDelay` | src/common.c:437-494 | in place, the call accounts the count in the slot of the current time and answers the delay for the new total; the slot index is always in range |
| `RateLimitProofs.WindowInvariant` | src/common.c:441-473 | with a non-decreasing clock each slot holds exactly what was added in its 100 ms, and nothing of the last 900 ms has been dropped |
| `RateLimitProofs.WindowBounds` | src/common.c:437-483 | the total covers all adds of the last 900 ms and none older than 999 ms |
| `RateLimitProofs.NoDelayIff` | src/common.c:485-493 | the answer is no delay if and only if the total is within the limit, or the first product after wrapping is below the limit, or at a limit of 1 the second wraps to nothing |
| `RateLimitProofs.WithinLimitGoesOn` | src/common.c:485-493 | over every run with a non-decreasing clock, who has added no more than the limit in the last second is not made to wait |
| `RateLimitProofs.OverLimitWaits` | src/common.c:485-493 | as long as the first product does not wrap: no delay below 1.01 times the limit in the last second, and some delay from that on in the last 900 ms |
| `RateLimitProofs.DelayCanVanish` | src/common.c:487-491 | a limiter given 42950673 counts at a limit of 1000 answers with no delay |
| `RateLimitProofs.DelayExactIff` | src/common.c:487-491 | the delay is exact if and only if neither multiplication overflows 32 bits |
| `RateLimitProofs.DelaysExactIff` | src/common.c:487-491 | every delay an obedient sender can be given is exact if and only if the largest one is: a condition on the limit and the largest add |
| `RateLimitProofs.DelayCanWrap` | src/common.c:487-491 | a limiter given 4294969 counts at a limit of 1 answers 704 ms instead of 4294968 s |
| `RateLimitProofs.DelaysExactForPackets` | src/winsock.c:1787-1789 | with adds of at most 8192 every delay of an obedient sender is exact if and only if the first multiplication does not overflow |
| `RateLimitProofs.StepStaysBounded` | src/common.c:437-494 | one obedient call keeps the total within 2*limit - 1 + largest add |
| `RateLimitProofs.TotalsBounded` | src/common.c:437-494 | over any run of a sender that waits as told, whatever the clock does, no total exceeds that bound |
| `RateLimitProofs.BoundCanFail` | src/common.c:487-491 | without exact delays it can: two obedient calls at a limit of 1 reach twice the largest add |
| `RateLimitProofs.RealThroughputBounded` | src/common.c:437-494 | and no more than that was really added in the 900 ms before any call |
| `RateLimitProofs.BothLimitsHold` | src/winsock.c:1780-1793 | sleeping the longer of the two delays keeps both the packet and the byte bound |
| `RateLimitSenders.SendersBounded` | src/winsock.c:1780-1793 | n threads that share a limiter, each sleeping its own delays, never see a total above 2*limit - 1 + n*largest add |
| `Frames.Pack` | src/ethernet.c:78-260 | each frame type writes exactly its frame size, byte for byte the frame, and nothing behind it |
| `Frames.FrameRoundTrip` | src/ethernet.c:78-314 | through the card's address filter, unpacking and the IPX length trim give back every field and the payload, whatever padding follows, behind the card addressed and, for a broadcast, behind every card; behind any other card nothing arrives |
| `Frames.FrameLayout` | src/ethernet.c:78-260 | destination address first, then the sender's, the LLC bytes, no checksum, no hops, the type |
| `Frames.FitsIff` | src/ethernet.c:102-230 | exactly the payloads up to 65505, 1470 and 1467 bytes fit a frame of the three types |
| `Frames.FrameOutcomeIff` | src/router.c:709-781 | every frame of any framing is dropped, misread if and only if it is framed right, meant for the card and its length field is below 30, or delivered as exactly the well-formed packet of that length in it |
| `Frames.ShortPacketMisread` | src/router.c:745-780 | a 44-byte Ethernet II frame with length field 20 that is misread by the card it is for |
| `Frames.OtherTypesDropped` | src/router.c:709-781 | a receiver set to one frame type drops every frame packed as another |
| `UdpPath.PayloadSurvives` | src/winsock.c:1570-1589 | type, addresses and payload of up to 8192 bytes survive the network-order packet, the check, the host-order relay and recv_pump's check |
| `UdpPath.SourceSurvives` | src/winsock.c:911-947 | who reads a relayed packet is told the address it was sent from, its type, and exactly whether it went to the broadcast node and came from an own interface |
| `UdpPath.HandledIff` | src/router.c:377-400 | every datagram, by its bytes: ignored if and only if it is shorter than a header, longer than a slot or not as long as its size field says; of the rest, internal if and only if the source socket is zero |
| `UdpPath.PassedWasSent` | src/router.c:377-387 | what the router passes on is exactly some sent packet, and its relay is never discarded |
| `UdpPath.RelayAcceptedIff` | src/router.c:334-354 | a relayed packet is accepted if and only if its payload is at most 8192 bytes |
| `UdpPath.ByteOrderMatters` | src/winsock.c:853-863 | without the relay's change of byte order only payloads whose two size bytes are equal would be accepted |
| `LocalDelivery.DeliverPacket` | src/router.c:239-375 | the loop of exclusions relays to exactly the sockets that satisfy the positive description of who hears a packet, in table order |
| `LocalDelivery.RelayedIff` | src/router.c:239-375 | a relay exists if and only if some socket hears the packet, and it is the packet |
| `LocalDelivery.RelaysInTableOrder` | src/router.c:255-373 | the relays are those of an increasing list of socket positions, one for each, which holds exactly the sockets that hear the packet and could be served |
| `LocalDelivery.RelayForEachListener` | src/router.c:255-373 | so there are exactly as many relays as such sockets, broadcasts included |
| `LocalDelivery.EachOptionDecides` | src/router.c:263-330 | what a socket that hears a packet loses with each of its options: reception, binding, packet type filter, remote address, broadcasts, own address |
| `LocalDelivery.UnicastReachesOne` | src/router.c:292-301 | without shared addresses a packet to a single node reaches at most one socket |
| `LocalDelivery.SentReachesListeners` | src/router.c:334-375 | what sendto() puts on the wire reaches exactly the sockets that hear it, acceptable and intact |
| `Addr.TakeToken` | src/addr.c:34-41 | the test looks at no character past the NUL and finds the token if there is one |
| `Addr.FromString` | src/addr.c:30-51 | the parser never reads past the NUL, accepts exactly what the grammar does, stores the values and touches nothing else |
| `Addr.Addr48FromString` | src/addr.c:134-137 | when it succeeds the last six of the eight bytes are the parsed address; the first two are never written |
| `Addr.JoinedParses` | src/addr.c:30-51 | tokens of one or two digits with one or more colons between them parse to their values |
| `Addr.ParsedIsJoined` | src/addr.c:30-51 | nothing else parses |
| `Addr.PrintParses` | src/addr.c:68-93 | parsing a printed address gives the address back |
| `Addr.Addr48RoundTrip` | src/addr.c:95-137 | for a 48-bit address the six bytes come back, and the same integer if and only if the destination's other two bytes were right |
| `Addr.DigitsInOrder` | src/addr.c:36-45 | the sixteen digits have their values in either case and are printed in upper case |
| `Addr.OneDigitIsEnough` | src/addr.c:36-45 | a leading zero may be left out: one digit parses to its value |
| `Addr.PrintAfterParse` | src/addr.c:68-137 | printing what was parsed is a normal form |
| `Registration.Router.ReceiveReplies` | src/router.c:675-698 | a datagram from the server connects a registering link, is traffic on a connected one and aborts otherwise; a failing receive ends the loop |
| `Registration.Router.LoopPass` | src/router.c:905-1000 | one pass of the loop takes the specified connection step and sends a request exactly when one is due |
| `Registration.GapIsCappedDoubling` | src/router.c:995-998 | the k-th retry gap is min(250*2^k, 8000) ms |
| `Registration.RequestsPerAttempt` | src/router.c:982-999 | over any timing each attempt sends at most 8 requests before its timeout and at most 9 in all |
| `Registration.NineRequestsHappen` | src/router.c:986-999 | a run in which both bounds are reached |
| `Registration.LateRequestIff` | src/router.c:986-999 | an attempt has sent a request outside its 30 s if and only if the pass that timed it out found one due; it sends at most one |
| `Registration.DownIff` | src/router.c:949-990 | while the loop runs, the server is known and the link down if and only if some pass timed an attempt out and no later one began another |
| `Registration.AbortedIff` | src/router.c:675-698 | a run aborts if and only if some pass reads a datagram from the server after an earlier pass timed an attempt out and before the next began |
| `Registration.LateReplyAborts` | src/router.c:694-697 | a run that does |
| `Registration.NextAttemptIff` | src/router.c:977-977 | the next attempt is put off to after t if and only if some lookup failed less than ten seconds before t |
| `Registration.UntriedIff` | src/router.c:949-980 | over every run a disconnected pass leaves the server untried if and only if some lookup failed less than ten seconds before; otherwise it begins an attempt exactly when the name resolves |
| `Registration.RetriesAtOnce` | src/router.c:949-980 | so an attempt that timed out is followed by a new one in the next pass |
| `Registration.UpIff` | src/router.c:949-990 | while the loop runs, the link is registering or connected if and only if some pass began an attempt that none has timed out since |
| `Registration.ConnectedIff` | src/router.c:686-688 | while the loop runs, the link is connected if and only if some pass read a datagram from the server after an earlier one began an attempt and no pass between timed it out |
| `Registration.ConnectedForGood` | src/router.c:905-1000 | from then on nothing changes but that a failing receive ends the loop: no request, no timeout, no abort |

## Left out

- HashTables.HashTable.Redistribute: chains and the app-order list are sequences here; their pointers are in `HashLinks` and `HashRelink`, proved against the same specification but apart from the counters and from each other.
- HashTables.HashTable.ExpandBuckets: the table's counters are unbounded integers, so wrap-around after 2^32 items or buckets is not modelled.
- UtHash and HashTables: the hash function is a parameter; Bloom filter, sorting, selection and struct padding in keys are not modelled, and running out of memory inside the macros, which is fatal, is not either.
- Coalescers.Coalescer.Send: the table is a map and the pending list a sequence; that uthash and utlist implement them is proved in their own modules. Ghost fields record what the buffers hold.
- Coalescers.Coalescer.FlushNode: a failing r_sendto() only logs and drops the payload, so conservation counts packets handed to r_sendto(), not packets that arrive.
- RecvQueue.SocketQueue.Reclaim: slot buffers are byte sequences replaced as a whole; the bytes a short datagram leaves behind in a slot are not modelled.
- RecvInterleavings.StepKeepsInv: one socket at a time; that a descriptor is reused after a close is modelled only by letting the lookup of a closed socket succeed or fail.
- RecvFionread.PumpWithoutBlocking: the kernel's FIONREAD is taken to report the bytes of the waiting datagrams; other threads are in `RecvInterleavings`.
- RecvLocking.RecvPump: one thread's view: what the others do is a choice at every call, and waiting to enter the section is not modelled.
- RecvSelect.Select: the write and except sets are passed through unchanged, and sets are at most FD_SETSIZE by the caller.
- EnvelopeWalks.HandleDosboxRecv: what a delivery finds past the datagram, and what the walk does with a length field outside it, depends on what the receive buffer held before and is not modelled; that it happens is.
- Frames.FrameRoundTrip: allocation of the frame and the pcap call are not modelled.
- RateLimitProofs.BothLimitsHold: one sending thread whose two clock readings per call are in order; for several threads each limiter is treated by itself, in `RateLimitSenders`, with a clock that does not run backwards.
- CoalesceDelay.YoungSinceFlush: how far apart the router's passes are is a parameter; waiting on events is not modelled.
- CoalesceTiming.AlwaysAged: the microsecond clock is unbounded and does not run backwards.
- LocalDelivery.SentReachesListeners: the check that the sender is on an expected subnet, the choice of interface and destination address, and SPX lookup packets are not modelled.
- Registration.Router.LoopPass: any datagram from the server counts as a registration reply, as the code falls through after logging an invalid one; the address it assigns and traffic while connected are not modelled here.
- CoalesceEndToEnd.CompleteBind: the named mutexes are the set of numbers in use; their inheritance across processes is not modelled.
- SPX, DirectPlay, interface enumeration, configuration, the firewall helper, logging and profiling are not part of this model.
