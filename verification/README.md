# Relay, bridge and protocol core: a verified model

This project models the concurrent and stateful core of the VPN client and server in Dafny and
proves what that core is there to keep. The source is C; each part is modelled in its own form.
Code that updates tables, rings and buffers is a class over arrays or fields whose methods refine a
function on values; code that computes is functions. What is promised is then proved about those
functions, over every input, every run or every interleaving.

Parts, one module per file (`Bytes`, `RelayConfig` and `BridgeConfig` hold what they share):

- **Relay connection lifetime** (`RelayTable`, `RelayLifetime`, `RelayTheorems`, `RelayCritical`):
  handshake threads and two direction threads share two arrays, per-connection counts and an
  established counter. Each critical section and each atomic operation is one step, and the theorems
  hold in every interleaving of them.
- **Relay event loop** (`RelayPollset`, `RelayStream`, `RelayEntry`): the cached pollset against a
  rebuild, and the byte stream through the backlog with partial sends, hard errors, failed
  allocations and the thread's exit.
- **Transmit ring** (`TxQueue`, `TxRuns`, `TxRing`): ring, reference counts, free bitmap and per-connection
  shares against a plain bounded FIFO, including the drain that re-arms through raw pointers.
- **lwIP connection slots** (`ConnSlots`, `ConnTable`): slots against a stack that frees and
  recycles control blocks unasked.
- **Server downlink batch** (`DownlinkBatch`): scatter/gather staging, partial sends, compaction and
  re-pointing; every packet is accounted for.
- **Login lockout** (`Lockout`): the fixed table against one record per key, and exactly which bursts
  of failures ban.
- **SOCKS5 handshake** (`SocksHandshake`, `SocksSession`): independent of how the client's bytes are
  fragmented, through the buffer, its moves and the tail handed on.
- **HTTP head rewriting** (`HeadRewrite`): the two passes agree to the byte; the rewrite is
  idempotent and read back as meant (section 6.1 of RFC 7230).
- **JSON** (`JsonText`, `JsonPieces`, `JsonNumber`, `JsonTree`, `JsonSpace`, `JsonGrammar`,
  `JsonSound`, `JsonComplete`, `JsonTheorems`, `JsonRfc`, `JsonParser`): the parser against the
  grammar of RFC 8259, over bytes: which spellings it accepts, as what they mean, and exactly which it
  refuses.
- **OPEN / OPEN_ACK** (`Tlv`, `Dotted`, `OpenAck`, `OpenAckRun`): framing, round trip, and exactly
  which answers are accepted.
- **HTTP response framing** (`HeaderScan`, `ContentLength`, `ResponseRead`): the incremental scan
  against the one from scratch, and when head and body do not depend on how the response arrives.
- **Internet checksum** (`Checksum`, section 1 of RFC 1071).

I/O, clocks, memory and the scheduler are parameters: a run is a sequence of steps chosen by the
environment, and what the kernel, the peer, the allocator or lwIP answers is an argument. MD5, the
lookup of Transfer-Encoding and the C library's judgement of a number's range are function
parameters. A `Here` predicate says that a text contains some bytes at an offset; `View()` is the
value of an object's fields. `dafny verify dfyconfig.toml` checks everything.

## Where the code differs from its comments or from its standard

The model follows the code in each case.

- `src/common/relay_proxy.c:1848-1863` expects a registration once the check before the reply has
  found both planes alive. One may die in between: `AnswerCanBeTakenBack` is such a run, and
  `AnswerHonouredIff` the exact condition.
- `src/common/relay_proxy.c:153-158` says the descriptor reserve covers a full set of handshakes from
  a limit of 512 on. It does from 1024 on (`ReserveCoversIff`); no run overspends the limit if and
  only if it is at least 1024 or exactly 1022 (`NeverOverspendsIff`).
- `src/common/lockout.h:4-14` says `max_fails` failures within the window ban. The window is counted
  from the first failure on record, so for a tracked key they may not (`OneLessMayPass`); `BurstIff`
  has the exact condition.
- `src/common/relay_proxy.c:1417-1434` asks for an Upgrade field with a value. The last Upgrade field
  decides alone (`UpgradesIff`, `BareUpgradeHides`, `BareUpgradeRewritten`).
- `src/common/json.c:66-70` also skips vertical tab and form feed (`TabAccepted`), which RFC 8259 does
  not list as white space; `SameReadingIff` says when that makes no difference.
- `src/common/json.c:203-209` and `:331-350` refuse the escape of U+0000 and numbers that are long or
  out of range, all of which RFC 8259 has (`NulRefused`, `NumberRefused`); `AcceptedIff` has the exact
  condition, and `RfcIff` the one for both differences together. Section 8.1 of the RFC asks for
  UTF-8; how the bytes between quotes are encoded is never looked at (`RawByteKept`).
- `src/common/https.c:1062-1064` says the reader and the parser always frame alike. They differ when a
  NUL stands in front of the body (`NulHidesFrame`), and only then (`FramesAgreeIff`).
- `src/common/https.c:1072-1079` says the frame does not depend on read granularity. The reader may
  stop on the body of an early LFLF, or count chunks by a length that an earlier head declared
  (`MisledDiffers`; `EmptyBodyMisleads` and `StaleLengthMisleads` are such responses); `ArrivalIff` has
  the exact condition.
- The exit of a direction thread half-closes with bytes still queued (`ExitCutsBacklog`);
  `RoundsCloseComplete` and `CompleteIff` say what a half-close does certify.

## Model

| member | source | states |
|---|---|---|
| RelayTable.ElemsRemoveSwap | src/common/relay_proxy.c:2586-2591 | removing an entry by moving the last one into its place keeps the array free of duplicates and removes exactly that entry |
| RelayTable.FindIs | src/common/relay_proxy.c:2586-2591 | the scan stops at the first place that holds the connection |
| RelayTable.RemoveSwapUndoesAppend | src/common/relay_proxy.c:2013-2025 | the rollback scan of a failed registration undoes a successful append exactly, order included |
| RelayTable.ReleaseKeeps | src/common/relay_proxy.c:2067-2073 | one direction giving up a connection keeps every count equal to the memberships it stands for, frees the connection exactly when nothing holds it, and never touches a freed one |
| RelayTable.UnrefKeeps | src/common/relay_proxy.c:2078-2083 | dropping one snapshot reference keeps the same, the last reference out freeing a retired connection |
| RelayTable.UnrefAllKeeps | src/common/relay_proxy.c:2078-2083 | dropping a whole snapshot leaves the thread holding nothing and every count exact |
| RelayTable.RefAllKeeps | src/common/relay_proxy.c:2265-2273 | taking a snapshot counts every entry once |
| RelayTable.DropKeeps | src/common/relay_proxy.c:2100-2114 | removing an entry from an array and releasing it, in that order, keeps the table invariant |
| RelayTable.RetireOneKeeps | src/common/relay_proxy.c:2577-2593 | retiring one ended entry keeps the table invariant and retires nothing else |
| RelayTable.RetireEndedKeeps | src/common/relay_proxy.c:2577-2593 | the loop bottom retires exactly the ended entries of the snapshot, whatever the other direction removed meanwhile |
| RelayTable.RetireAllKeeps | src/common/relay_proxy.c:2100-2114 | a direction thread that exits empties its array and releases every entry once |
| RelayTable.RegisterAccepted | src/common/relay_proxy.c:1998-2012 | a registration puts the connection into both arrays with a count of two and spends one reserved slot |
| RelayTable.RegisterRefused | src/common/relay_proxy.c:2013-2025 | a refused registration leaves the table as it was, whichever append had gone through, and moves the generation |
| RelayLifetime.HandshakeStep | src/common/relay_proxy.c:2712-2732 | every step of a handshake thread keeps the system invariant; its own flag, kept apart from where it stands, is up exactly while the counter holds a slot for it, so the slot is returned once or handed over |
| RelayLifetime.LockRefused | src/common/relay_proxy.c:1998-2037 | a registration refused for a dead plane or a failed allocation keeps the invariant |
| RelayLifetime.LockAccepted | src/common/relay_proxy.c:1998-2012 | an accepted registration turns the thread's reservation into the connection's |
| RelayLifetime.SnapshotStep | src/common/relay_proxy.c:2242-2284 | taking a snapshot under the lock keeps the invariant |
| RelayLifetime.BottomStep | src/common/relay_proxy.c:2577-2600 | the retire loop followed by the release of the snapshot keeps the invariant |
| RelayLifetime.CleanupStep | src/common/relay_proxy.c:2602-2641 | a direction thread's exit keeps the invariant, with or without references still held |
| RelayLifetime.StepKeepsInv | src/common/relay_proxy.c:2178-2647 | every step of every thread keeps the system invariant: counts equal memberships, slots equal reservations plus live connections, the cap holds |
| RelayLifetime.RunKeepsInv | src/common/relay_proxy.c:2178-2647 | so does every interleaving |
| RelayLifetime.EveryRun | src/common/relay_proxy.c:2981-3197 | every state reachable from a fresh relay satisfies the invariant |
| RelayTheorems.LifetimeSafety | src/common/relay_proxy.c:1796-1813 | in every interleaving a connection's two counts are exactly the arrays and held snapshots it is in, whatever an array or snapshot names is allocated, every registered connection is live or freed but never both, and it is freed as soon as nothing holds it, not before |
| RelayTheorems.SlotAccounting | src/common/relay_proxy.c:220-249 | in every interleaving the established counter is the reservations in flight plus the live connections, between zero and the cap; an answered client is among them until registered or rolled back |
| RelayTheorems.RetirementsRegisterNothing | src/common/relay_proxy.c:2100-2114 | retiring entries never registers one |
| RelayTheorems.DeathIsFinal | src/common/relay_proxy.c:2630-2636 | no step revives a dead plane or registers into it |
| RelayTheorems.NoRegistrationAfterDeath | src/common/relay_proxy.c:1998-2012 | once a direction thread has published its death no run registers another connection |
| RelayTheorems.TeardownComplete | src/common/relay_proxy.c:2602-2641 | once both direction threads are gone no array entry and no live connection is left, and the counter holds only handshakes in flight |
| RelayTheorems.FinishExits | src/common/relay_proxy.c:2178-2647 | after a stop a direction thread can always run to its exit, from any phase |
| RelayTheorems.StopBoundsSteps | src/common/relay_proxy.c:2178-2647 | after a stop a direction thread takes at most four more steps, in every schedule |
| RelayTheorems.QuietMeansTornDown | src/common/relay_proxy.c:3199-3219 | every schedule after which neither direction thread has a step left has freed every connection ever registered |
| RelayTheorems.TeardownAlwaysPossible | src/common/relay_proxy.c:3199-3219 | from every reachable state a stop followed by the two threads running on frees every connection ever registered |
| RelayTheorems.StepMovesGen | src/common/relay_proxy.c:2013-2025 | every step that changes an array moves the generation |
| RelayTheorems.SameGenSameArrays | src/common/relay_proxy.c:2276-2284 | two states of one run with equal generations have equal arrays, entry by entry |
| RelayTheorems.SameGenSameSnap | src/common/relay_proxy.c:2242-2284 | along every schedule two snapshots of one direction that were stamped with the same generation are the same |
| RelayTheorems.AnswerCanBeTakenBack | src/common/relay_proxy.c:1848-1873 | a concrete run in which a client was told success and its connection is then refused |
| RelayTheorems.AnswerHonouredIff | src/common/relay_proxy.c:1941-2043 | whatever the other threads do before and after rp_add is entered, an answered client is registered if and only if at its lock no direction thread has published its death and both arrays can hold one more |
| RelayTheorems.EntersAdd | src/common/relay_proxy.c:1941-1963 | whenever rp_add is entered its caller's flag is up, so its own reservation is never reached |
| RelayTheorems.EstCap | src/common/relay_proxy.c:3053-3084 | the derived cap is between 1 and 512 |
| RelayTheorems.BudgetIff | src/common/relay_proxy.c:3053-3084 | two descriptors per slot plus the reserve fit the limit in every run if and only if the limit is at least 3 |
| RelayTheorems.ReserveCoversIff | src/common/relay_proxy.c:140-166 | the reserve covers a full set of handshakes if and only if the limit is at least 1024 (or at most 1) |
| RelayTheorems.FillFills | src/common/relay_proxy.c:3053-3084 | for every cap a run fills it |
| RelayTheorems.NeverOverspendsIff | src/common/relay_proxy.c:140-166 | no run overspends the limit with a full set of handshakes open if and only if the limit is at least 1024 or exactly 1022 |
| RelayCritical.Relay.constructor | src/common/relay_proxy.c:1796-1813 | an empty table |
| RelayCritical.Relay.ReapMaybe | src/common/relay_proxy.c:2051-2061 | frees the connection and gives its slot back exactly when it is retired and unreferenced |
| RelayCritical.Relay.ReleaseConn | src/common/relay_proxy.c:2067-2073 | refines the release of one direction |
| RelayCritical.Relay.SnapUnrefAll | src/common/relay_proxy.c:2078-2083 | the loop refines dropping the snapshot's references in order |
| RelayCritical.Relay.SnapRefAll | src/common/relay_proxy.c:2265-2273 | the loop refines taking one reference per entry |
| RelayCritical.Relay.DirRetireAll | src/common/relay_proxy.c:2100-2114 | the loop from the end refines retiring every entry |
| RelayCritical.Relay.RetireLoop | src/common/relay_proxy.c:2577-2593 | the loop bottom with its inner scan refines retiring the ended entries |
| RelayCritical.Relay.Add | src/common/relay_proxy.c:1998-2025 | the locked part of a registration, rollback scans included, refines the value-level one |
| RelayPollset.SlotsPointHome | src/common/relay_proxy.c:2317-2353 | in a rebuilt pollset every slot is in range and names its own connection's descriptor, an entry has a slot exactly when it wants one, and two descriptors per entry and one for the wake pipe suffice |
| RelayPollset.SlotsAscend | src/common/relay_proxy.c:2317-2353 | no two slots coincide |
| RelayPollset.SamePollset | src/common/relay_proxy.c:2317-2353 | the pollset depends only on which descriptors the entries want |
| RelayPollset.SameTables | src/common/relay_proxy.c:2317-2353 | so do the slot tables |
| RelayPollset.Cache.constructor | src/common/relay_proxy.c:2178-2240 | an empty, dirty cache |
| RelayPollset.Cache.Grow | src/common/relay_proxy.c:2286-2306 | growing keeps the cache valid and marks it dirty exactly when the slot tables were replaced |
| RelayPollset.Cache.PutEntry | src/common/relay_proxy.c:2319-2337 | an entry's descriptors are appended and its slots point at them, a slot it does not want being -1 |
| RelayPollset.Cache.Rebuild | src/common/relay_proxy.c:2317-2353 | the rebuild loop produces the tables of the current snapshot |
| RelayPollset.Cache.Refresh | src/common/relay_proxy.c:2317-2353 | after the check the tables are those of the current snapshot whether or not they were rebuilt |
| RelayPollset.Cache.Recheck | src/common/relay_proxy.c:2553-2576 | the cache stays clean exactly when no entry changed what it wants |
| RelayPollset.GenTells | src/common/relay_proxy.c:2276-2284 | the snapshots and generations a direction thread sees in any schedule of all threads satisfy what the cache relies on |
| RelayPollset.Rounds | src/common/relay_proxy.c:2242-2576 | over every run of rounds on the snapshots of any schedule of all threads, rebuilt or cached, what is polled is what a rebuild would give; the run ends early only on a failed allocation |
| RelayStream.SendIsMin | src/common/relay_proxy.c:2443-2484 | a send loop sends exactly the lesser of the chunk and what the peer takes before it refuses, and fails exactly when a hard error comes first |
| RelayStream.StashKeeps | src/common/relay_proxy.c:2116-2135 | the backlog takes the whole rest, or the loss is on record and memory was short |
| RelayStream.FlushKeeps | src/common/relay_proxy.c:2141-2176 | what was sent followed by what is still pending is the old backlog, unless a hard error is recorded |
| RelayStream.DeliverKeeps | src/common/relay_proxy.c:2435-2519 | a chunk that was read is sent or queued whole and in order; the two branches that would drop it cannot be reached |
| RelayStream.ReadKeeps | src/common/relay_proxy.c:2426-2541 | a whole read pass keeps the stream exact and the backlog within its limit |
| RelayStream.RoundKeeps | src/common/relay_proxy.c:2426-2593 | one round for one entry keeps the stream exact; a loss or a read error is the round's own |
| RelayStream.LifeConserves | src/common/relay_proxy.c:2116-2176 | over every life, rounds and exit, the receiver gets a prefix of what was read; without a hard send error or failed allocation nothing is lost, duplicated or reordered |
| RelayStream.CompleteIff | src/common/relay_proxy.c:2577-2593 | after a harmless life the receiver has every byte if and only if all was read and nothing is pending |
| RelayStream.RoundsCloseComplete | src/common/relay_proxy.c:2577-2593 | a half-close that is not the thread's exit certifies that every byte the peer sent arrived |
| RelayStream.ExitCutsBacklog | src/common/relay_proxy.c:2100-2114 | for every byte a life of the one-byte stream that ends half-closed with that byte still pending |
| RelayStream.RoundProgress | src/common/relay_proxy.c:2426-2593 | a round in which data is read when there is some and the peer takes some closes the direction or brings it nearer to its end |
| RelayStream.PromptLifeDelivers | src/common/relay_proxy.c:2242-2593 | the relay delivers: 2n+2 such rounds for a stream of n bytes half-close it with everything received |
| RelayEntry.Entry.constructor | src/common/relay_proxy.c:1796-1813 | a fresh direction of a connection |
| RelayEntry.Entry.Stash | src/common/relay_proxy.c:2116-2135 | the doubling loop refines queueing, the drop on failed memory included |
| RelayEntry.Entry.Flush | src/common/relay_proxy.c:2141-2176 | the loop refines pushing the backlog |
| RelayEntry.Entry.SendThrough | src/common/relay_proxy.c:2443-2484 | the loop refines sending the chunk directly |
| RelayEntry.Entry.Deliver | src/common/relay_proxy.c:2435-2519 | refines the delivery of a chunk; the two drop branches are unreachable |
| RelayEntry.Entry.ReadPass | src/common/relay_proxy.c:2426-2541 | the loop refines a read pass: what recv gave, up to the limit, is what was taken |
| RelayEntry.Entry.Serve | src/common/relay_proxy.c:2426-2593 | refines one round with its loop bottom |
| RelayEntry.Entry.Retire | src/common/relay_proxy.c:2100-2114 | the exit half-closes whatever is pending |
| RelayEntry.Live | src/common/relay_proxy.c:2242-2641 | a direction's whole life, thread exit included, is the life of its value |
| TxQueue.EnqueueContents | src/common/lwip_bridge.c:249-267 | enqueueing appends one entry to the ring's contents |
| TxQueue.PopContents | src/common/lwip_bridge.c:1247-1262 | popping removes the first entry |
| TxQueue.EnqueueAgrees | src/common/lwip_bridge.c:249-267 | reference counts, free mask and share counters stay those of the contents after an enqueue |
| TxQueue.PopAgrees | src/common/lwip_bridge.c:1247-1262 | and after a pop |
| TxQueue.FreeMeansRoom | src/common/lwip_bridge.c:372-400 | a free packet guarantees that the enqueue that follows has room |
| TxQueue.RoomMeansFree | src/common/lwip_bridge.c:239-247 | and room in the ring guarantees a free packet |
| TxQueue.OutputRefines | src/common/lwip_bridge.c:372-400 | a frame is accepted exactly when a plain bounded FIFO with a per-connection payload share accepts it, and then appended |
| TxQueue.RearmAllKeeps | src/common/lwip_bridge.c:1264-1269 | re-arming popped entries restores them in order |
| TxQueue.DrainRefines | src/common/socks.c:915-965 | a drain that sends n frames leaves the old queue without its first n |
| TxQueue.StepRefines | src/common/lwip_bridge.c:239-267 | every operation refines the plain FIFO's |
| TxQueue.EveryRunIsFifo | src/common/lwip_bridge.c:239-267 | ring, reference counts, bitmap and share counters behave over every run as a plain bounded FIFO, and no connection exceeds its share |
| TxRing.Netstack.constructor | src/common/lwip_bridge.c:543-649 | an empty queue |
| TxRing.Netstack.FindFreeSlot | src/common/lwip_bridge.c:239-247 | the mask words are searched for the lowest free packet |
| TxRing.Netstack.TxEnqueue | src/common/lwip_bridge.c:249-267 | refines the enqueue and refuses exactly when the ring is full |
| TxRing.Netstack.OutputFrame | src/common/lwip_bridge.c:372-400 | refines the output of one frame |
| TxRing.Netstack.TxPop | src/common/lwip_bridge.c:1247-1262 | refines the pop |
| TxRing.Netstack.PopBatch | src/common/socks.c:915-965 | pops everything, keeping pointers to the ring cells |
| TxRing.Netstack.RearmFrom | src/common/socks.c:950-963 | entries read through those pointers are put back in order although cells are rewritten meanwhile |
| TxRing.Netstack.DrainTx | src/common/socks.c:915-965 | what the socket took, run by run, goes out, and followed by what is then queued it is the old queue |
| TxRing.CellsApart | src/common/socks.c:950-963 | the cell a re-arm writes is none of those still to be read |
| TxRuns.GrownIs | src/common/socks.c:932-942 | a run is as long as it can be: frames of one length that fit one send together |
| TxRuns.RunsCover | src/common/socks.c:930-964 | the runs make up the batch |
| TxRuns.SentIs | src/common/socks.c:930-964 | what goes out is every run the socket took whole and its part of the first it did not |
| TxRuns.AllSentIff | src/common/socks.c:930-964 | the whole batch goes out if and only if the socket takes every run whole |
| TxRuns.SendRuns | src/common/socks.c:930-964 | the nested loops compute that number |
| ConnSlots.FirstAvailable | src/common/lwip_bridge.c:746-766 | the first slot without pcb, reap mark or flow |
| ConnSlots.SweepKeeps | src/common/lwip_bridge.c:731-743 | the sweep restores that every occupied slot has a live pcb of its own, and changes nothing when that held |
| ConnSlots.HappenKeeps | src/common/lwip_bridge.c:439-504 | whatever lwIP frees or delivers keeps all but liveness, and leaves empty slots alone |
| ConnSlots.AbortKeeps | src/common/lwip_bridge.c:1026-1054 | an abort clears the slot and touches no other connection's pcb |
| ConnSlots.ConnectOutcome | src/common/lwip_bridge.c:784-868 | after a connect no slot references a dead pcb if and only if a slot was available or none did before; the slot handed out was free of flows and reap marks and is fresh |
| ConnSlots.ReconciledKeeps | src/common/lwip_bridge.c:196-219 | reconciling credits exactly what the flow layer drained |
| ConnSlots.TickSlotKeeps | src/common/lwip_bridge.c:1146-1234 | one slot's tick keeps the invariant |
| ConnSlots.TickOutcome | src/common/lwip_bridge.c:1146-1234 | after a tick, whatever was freed before or during it, no slot references a dead pcb |
| ConnSlots.CloseKeeps | src/common/lwip_bridge.c:989-1024 | a close keeps the invariant |
| ConnSlots.StepKeepsInv | src/common/lwip_bridge.c:784-868 | every operation keeps the invariant |
| ConnSlots.RunKeepsInv | src/common/lwip_bridge.c:784-868 | so does every run |
| ConnSlots.SlotsNeverAlias | src/common/lwip_bridge.c:703-743 | over every run each occupied slot's pcb is live and points back to it, no two slots share one, no operation touches a foreign pcb, and delivered bytes are credited plus owed ones |
| ConnSlots.FirstSweepIdle | src/common/lwip_bridge.c:1146-1162 | in no run does a tick's first sweep find anything to do |
| ConnSlots.MarkStep | src/common/lwip_bridge.c:784-868 | between two ticks no operation takes a reap mark away or hands its slot out |
| ConnSlots.LossMarks | src/common/lwip_bridge.c:720-743 | a slot that loses its connection to a connect's sweep, a callback, an abort or a close is left marked |
| ConnSlots.TickLossMarks | src/common/lwip_bridge.c:1146-1234 | so is one that loses it in a tick, unless it had been closed and drained |
| ConnSlots.LostSlotRests | src/common/lwip_bridge.c:720-743 | over every run a slot whose connection was taken away is handed to no other before the next tick |
| ConnTable.Table.constructor | src/common/lwip_bridge.c:543-649 | an empty table |
| ConnTable.Table.SweepStale | src/common/lwip_bridge.c:731-743 | the loop refines the sweep |
| ConnTable.Table.SlotAlloc | src/common/lwip_bridge.c:746-766 | the scan returns the first available slot and clears it, or changes nothing |
| ConnTable.Table.ReconcileRxq | src/common/lwip_bridge.c:196-219 | the credits are split into non-zero chunks of at most 65535 that add up to what was drained |
| ConnTable.Table.AbortConn | src/common/lwip_bridge.c:1026-1054 | refines the abort |
| ConnTable.Table.TickOne | src/common/lwip_bridge.c:1146-1234 | refines one slot's tick |
| ConnTable.Table.TickAll | src/common/lwip_bridge.c:1146-1234 | the loop refines the first sweep and the slots' ticks in order |
| DownlinkBatch.StageAppends | src/iwan_server.c:712-767 | staging appends one packet to what the message headers describe |
| DownlinkBatch.CompactKeepsRest | src/iwan_server.c:677-708 | compaction keeps exactly the unsent packets, each with its own header, payload and peer |
| DownlinkBatch.SendOf | src/iwan_server.c:634-673 | the send loop sends a prefix; a hard error leaves something unsent |
| DownlinkBatch.FlushConserves | src/iwan_server.c:634-710 | what left a batch followed by what it keeps is what was staged; drops happen only on a hard error, and then of everything unsent |
| DownlinkBatch.StepKeeps | src/iwan_server.c:712-767 | every event keeps the conservation invariant |
| DownlinkBatch.EveryOversizedHandedOn | src/iwan_server.c:712-745 | over every run each packet too large for a slot is handed to the single-packet path, in order |
| DownlinkBatch.EveryOfferCounts | src/iwan_server.c:712-767 | over every run the packets offered for a known session are accepted in order, except for those that are refused, and each refusal is counted |
| DownlinkBatch.Conservation | src/iwan_server.c:634-792 | over every run and every packet size each accepted packet left as its own datagram, was dropped, was abandoned at an exit or is still staged, in order, and the counter counts each drop once |
| DownlinkBatch.Batch.constructor | src/iwan_server.c:595-605 | an empty batch |
| DownlinkBatch.Batch.Stage | src/iwan_server.c:746-760 | refines staging in the arrays, iovec and message pointers included |
| DownlinkBatch.Batch.Compact | src/iwan_server.c:677-708 | the moves refine compaction |
| DownlinkBatch.Batch.Repoint | src/iwan_server.c:696-706 | every kept message points at its own new cells |
| DownlinkBatch.Batch.SendLoop | src/iwan_server.c:634-673 | the loop refines the send |
| DownlinkBatch.Batch.Flush | src/iwan_server.c:634-710 | the flush refines the value-level one and counts its drops |
| Lockout.ScanPicks | src/common/lockout.c:34-56 | the scan picks the key's record, else an unused one, else one that is not a live ban unless all are |
| Lockout.AgainKeeps | src/common/lockout.c:57-103 | another failure never shortens a ban |
| Lockout.FailRefines | src/common/lockout.c:8-103 | a failure updates the fixed table as it updates a map if and only if the key is tracked or a record is unused; otherwise one record makes way, a live ban only if every record is one |
| Lockout.OkRefines | src/common/lockout.c:8-103 | a success forgets exactly that key |
| Lockout.BlockedRefines | src/common/lockout.c:105-126 | the table blocks a key exactly when the map does |
| Lockout.AnswersLikeMap | src/common/lockout.c:8-126 | over every run with a clock that never runs backwards the table answers like one record per key, as long as the tracked keys fit |
| Lockout.BanStands | src/common/lockout.c:57-103 | a ban that outlasts a burst is never shortened by it |
| Lockout.WindowBans | src/common/lockout.c:57-103 | within one counting window every failure counts |
| Lockout.BurstIff | src/common/lockout.h:4-14 | for every record of the key and every burst shorter than a window the key is blocked at its end if and only if an older ban reaches that far, the failures in the running window complete the count, or those behind it reach the threshold by themselves |
| Lockout.BurstBans | src/common/lockout.h:4-14 | hence maxFails failures beyond the record's slack block the key |
| Lockout.BurstBansTracked | src/common/lockout.h:4-14 | and 2*maxFails-2 always block a tracked key |
| Lockout.BurstNewIff | src/common/lockout.h:4-14 | a key not tracked before is blocked by a burst if and only if it has maxFails failures |
| Lockout.TableBlocksIff | src/common/lockout.h:4-14 | the same for a tracked key in a run of the table in which other keys fail, succeed and ask in between |
| Lockout.TableBlocksNewIff | src/common/lockout.h:4-14 | and for an untracked key in such a run |
| Lockout.OneLessMayPass | src/common/lockout.h:4-14 | for every threshold and window 2*maxFails-3 failures within one window's length may block nobody |
| Lockout.Table.constructor | src/common/lockout.c:8-30 | an empty table |
| Lockout.Table.Note | src/common/lockout.c:8-103 | refines both kinds of note; an empty table and a missing, empty or oversized key change nothing |
| Lockout.Table.Pick | src/common/lockout.c:34-56 | the loop refines the choice of a record |
| Lockout.Table.Forget | src/common/lockout.c:22-33 | the loop refines forgetting a key |
| Lockout.Table.IsBlocked | src/common/lockout.c:105-126 | the loop refines the query; a missing, empty or oversized key is never blocked |
| SocksHandshake.FramesStable | src/common/proto_parse.c:254-351 | a frame parser that has decided keeps its decision when more bytes arrive, and it decides before the buffer is full |
| SocksHandshake.ScanMethods | src/common/proto_parse.c:188-231 | the two scans pick the method the offer and the token call for |
| SocksHandshake.RequestRoundTrip | src/common/proto_parse.c:287-351 | every well-formed CONNECT is read as the target it names, a host name up to its first NUL |
| SocksHandshake.StoredIff | src/common/proto_parse.c:338-346 | that is the target itself if and only if its host name has no NUL |
| SocksHandshake.AuthRoundTrip | src/common/proto_parse.c:254-283 | every well-formed authentication frame is read back |
| SocksHandshake.HelloRoundTrip | src/common/proto_parse.c:188-222 | every greeting that offers passwords selects them |
| SocksHandshake.ClientReachesTarget | src/common/relay_proxy.c:977-1248 | a client with the right token reaches the target it names, as it is stored, and its tunnel starts right behind its CONNECT |
| SocksSession.Client.Recv | src/common/relay_proxy.c:928-947 | a read takes a prefix of what the client has still to send, as long as the fragmentation says |
| SocksSession.Session.Receive | src/common/relay_proxy.c:1046-1064 | bytes read are appended behind the contents; buffer and count stay the stream between what was consumed and what was read |
| SocksSession.Session.Consume | src/common/relay_proxy.c:1033-1036 | the memmove drops exactly the consumed frame |
| SocksSession.Session.ReadFull | src/common/relay_proxy.c:928-947 | reads exactly the bytes wanted or fails at the end of the stream |
| SocksSession.Session.ReadGreeting | src/common/relay_proxy.c:977-1032 | the greeting is topped up to its length and answered as the whole stream demands |
| SocksSession.Session.AwaitAuth | src/common/relay_proxy.c:1046-1124 | the authentication loop decides as the parser does on the whole stream and consumes its frame |
| SocksSession.Session.AwaitRequest | src/common/relay_proxy.c:1125-1163 | so does the CONNECT loop |
| SocksSession.Session.FrameEnd | src/common/relay_proxy.c:1164-1170 | the end of the frame worked out again from its address type is the length the parser used |
| SocksSession.Session.Connect | src/common/relay_proxy.c:1164-1248 | what is handed on is what was read behind the CONNECT frame |
| SocksSession.Handle | src/common/relay_proxy.c:977-1248 | for every fragmentation of the client's stream the replies, verdict and target are those of the whole stream, and what is forwarded is exactly what was read behind the CONNECT frame; the buffer-full branches are unreachable |
| HeadRewrite.ParseJoin | src/common/relay_proxy.c:1497-1531 | lines written with CRLF are read back as they were |
| HeadRewrite.RewrittenReadsBack | src/common/relay_proxy.c:1497-1531 | a receiver of the rewritten head finds the client's other lines in order and exactly one Connection field, last |
| HeadRewrite.Idempotent | src/common/relay_proxy.c:1394-1533 | rewriting twice is rewriting once, for every head |
| HeadRewrite.CrlfGrowth | src/common/relay_proxy.c:1435-1447 | a CRLF head grows by at most 19 bytes, and by exactly 19 if and only if it had no Connection field |
| HeadRewrite.AnyGrowth | src/common/relay_proxy.c:1435-1447 | any head at all at most grows by half plus 20 bytes |
| HeadRewrite.UpgradesIff | src/common/relay_proxy.c:1460-1478 | the request counts as an upgrade if and only if its last Upgrade field names a protocol |
| HeadRewrite.BareUpgradeHides | src/common/relay_proxy.c:1417-1434 | a bare Upgrade field behind a real one makes the request an ordinary one |
| HeadRewrite.BareUpgradeRewritten | src/common/relay_proxy.c:1417-1434 | hence such a request is rewritten like any other, whatever its request line |
| HeadRewrite.FindEol | src/common/relay_proxy.c:1499-1501 | the loop finds the end of the line |
| HeadRewrite.SkipEol | src/common/relay_proxy.c:1524-1529 | the line ending skipped is CRLF, a lone CR or a lone LF |
| HeadRewrite.NameEq | src/common/relay_proxy.c:1368-1392 | the loops recognise a field name case-insensitively, whitespace before the colon ignored |
| HeadRewrite.Prescan | src/common/relay_proxy.c:1448-1491 | the first pass computes exactly the size the second will write, and the upgrade verdict |
| HeadRewrite.ForceClose | src/common/relay_proxy.c:1394-1533 | nothing is written for an upgrade or an oversized result; otherwise exactly the rewritten head is, and the copies' own overflow tests never fire |
| JsonText.Hex4Bound | src/common/json.c:79-96 | four hex digits are below 65536 |
| JsonText.UTurn | src/common/json.c:184-242 | a unicode escape consumes 6 or 12 bytes, never past the terminating NUL |
| JsonText.StrTurn | src/common/json.c:131-256 | each turn of the string loop stays within the text |
| JsonText.Str | src/common/json.c:126-273 | the string parser ends within the text, and its error offset does too |
| JsonText.Utf8RoundTrip | src/common/json.c:98-124 | every code point but a surrogate is encoded so that it can be read back; a surrogate becomes a question mark |
| JsonText.PairRoundTrip | src/common/json.c:210-236 | the two surrogates of a supplementary code point spell it |
| JsonText.StrNoNul | src/common/json.c:203-209 | no accepted string contains a NUL, however it is escaped |
| JsonText.EscapeRoundTrip | src/common/json.c:739-777 | for every NUL-free string, parsing its quoted escape gives it back with the cursor behind it |
| JsonNumber.NumScan | src/common/json.c:275-330 | the number scanner advances and stays within the text |
| JsonNumber.ScanSound | src/common/json.c:275-330 | whatever it accepts is in the grammar of section 6 of RFC 8259 |
| JsonNumber.ScanComplete | src/common/json.c:275-330 | whatever is in the grammar is read to its end |
| JsonNumber.NumberIff | src/common/json.c:275-330 | in front of a byte that cannot continue it a spelling is read to its end if and only if it is in the grammar |
| JsonTree.ParseValue | src/common/json.c:539-566 | terminates on every text; the cursor advances on success and never passes the terminating NUL; error offsets are at most one past the end |
| JsonTree.ParseItems | src/common/json.c:358-421 | the same for arrays |
| JsonTree.ParseMembers | src/common/json.c:423-515 | the same for objects |
| JsonTree.Parse | src/common/json.c:568-597 | a success has consumed the whole text |
| JsonPieces.StrSpelled | src/common/json.c:126-273 | whatever the string parser accepts is spelled by pieces, plain bytes, short escapes, unicode escapes and surrogate pairs, as what they mean |
| JsonPieces.PiecesRead | src/common/json.c:126-273 | every list of well-formed pieces is read as what it means if and only if that holds no NUL |
| JsonPieces.NulEscapeIff | src/common/json.c:203-209 | which is exactly when no piece is the escape of U+0000 |
| JsonSpace.SameReadingIff | src/common/json.c:66-70 | an accepted text is read the same under the white space of section 2 of RFC 8259 if and only if it holds no vertical tab and no form feed |
| JsonSpace.TabAccepted | src/common/json.c:66-70 | a vertical tab in front of a literal is accepted |
| JsonSound.SpellValue | src/common/json.c:539-566 | every accepted value is a spelling in the grammar behind white space |
| JsonSound.SpellItems | src/common/json.c:358-421 | so are the elements of an accepted array |
| JsonSound.SpellMembers | src/common/json.c:423-515 | and the members of an accepted object |
| JsonSound.AcceptedSpells | src/common/json.c:568-597 | every accepted text spells the value it was read as |
| JsonComplete.ReadCst | src/common/json.c:539-566 | every spelling in the grammar is read as what it means, cursor behind it, exactly when that is within the depth cut-off and can be stored |
| JsonComplete.ReadItems | src/common/json.c:358-421 | the same for elements with their white space |
| JsonComplete.ReadMembers | src/common/json.c:423-515 | and for members |
| JsonComplete.SpellingReads | src/common/json.c:568-597 | a text that spells a value is read as that value if it is within the cut-off and can be stored, and refused otherwise |
| JsonTheorems.FreesAllIff | src/common/json.c:604-632 | the destructor gives back every node if and only if the tree is within the depth cut-off |
| JsonTheorems.AcceptedFine | src/common/json.c:539-566 | accepted trees have NUL-free strings, grammatical numbers, and stay within the cut-off |
| JsonTheorems.ParsedIsFreed | src/common/json.c:604-637 | a parsed tree is freed to the last node |
| JsonTheorems.ParseIff | src/common/json.c:568-597 | a text is read as a tree if and only if it spells that tree in the grammar of RFC 8259, the tree has at most 256 levels below its root, no string or key of it holds a NUL, and every number is shorter than 128 bytes and representable; a spelling of any other tree is refused |
| JsonTheorems.PlainSpells | src/common/json.c:739-777 | what the reference printer writes is one of the spellings |
| JsonTheorems.PrintParseIff | src/common/json.c:568-597 | every well-formed tree survives printing and parsing if its height is at most 256 and is refused otherwise |
| JsonTheorems.ReparseAgrees | src/common/json.c:568-597 | every accepted text means the same tree once reprinted |
| JsonRfc.AdmittedIff | src/common/json.c:203-209 | what a spelling means can be stored if and only if no escape in it is that of U+0000 and every number is shorter than 128 bytes and representable |
| JsonRfc.AcceptedIff | src/common/json.c:568-597 | so a spelling within the cut-off is accepted, as what it means, if and only if that holds, and refused otherwise |
| JsonRfc.RfcIsLax | src/common/json.c:66-70 | whatever is read with the RFC's white space is read the same with the C locale's |
| JsonRfc.RfcIff | src/common/json.c:568-597 | for every tree within the cut-off that can be stored, the RFC's texts for it are exactly those the parser reads as it that hold no vertical tab and no form feed |
| JsonRfc.NulRefused | src/common/json.c:203-209 | the string that escapes U+0000 is in the RFC's grammar and refused |
| JsonRfc.NumberRefused | src/common/json.c:331-350 | so is every number of 128 bytes or more and every one that is not representable |
| JsonRfc.RawByteKept | src/common/json.c:256-259 | a byte that starts no UTF-8 sequence is kept in a string |
| JsonParser.Parser.constructor | src/common/json.c:568-583 | the cursor starts at the text |
| JsonParser.Parser.SkipSpace | src/common/json.c:66-70 | the loop skips white space |
| JsonParser.Parser.ReadHex4 | src/common/json.c:79-96 | the loop refines the digit scan |
| JsonParser.Parser.ParseString | src/common/json.c:126-273 | the loop refines the string parser |
| JsonParser.Parser.ParseEscape | src/common/json.c:184-242 | refines the unicode escape |
| JsonParser.Parser.ParseNumber | src/common/json.c:275-356 | refines the number parser |
| JsonParser.Parser.ParseLit | src/common/json.c:517-537 | the loop refines a literal |
| JsonParser.Parser.ParseArray | src/common/json.c:358-421 | the loop refines the array parser |
| JsonParser.Parser.ParseObject | src/common/json.c:423-515 | the loop refines the object parser |
| JsonParser.Parser.Value | src/common/json.c:539-566 | refines the value parser and terminates |
| JsonParser.ParseText | src/common/json.c:568-597 | refines the entry point |
| JsonParser.RoomEnough | src/common/json.c:745-751 | the first pass of the escaper counts enough, and exactly when no quote or backslash occurs |
| JsonParser.CountRoom | src/common/json.c:745-751 | the loop computes that count |
| JsonParser.EscapeText | src/common/json.c:739-777 | the buffer holds the escape and its NUL, never written past its end |
| Tlv.DecodeSound | src/common/protocol.c:55-73 | an accepted frame is the concatenation of the encodings of the list it yields |
| Tlv.DecodeComplete | src/common/protocol.c:39-53 | every concatenation of encodings is accepted as its list |
| Tlv.DecodeIff | src/common/protocol.c:39-73 | a frame yields a list if and only if it is that list's encoding, so the list is unique |
| Tlv.VisitIs | src/common/protocol.c:55-73 | with a callback that may stop, the walk is the callback over the well-formed prefix and fails exactly when the callback saw all of it and something malformed follows |
| Dotted.OctetIff | src/common/protocol.c:89-114 | an octet is accepted if and only if it is spelled as the printer spells it, up to a non-digit |
| Dotted.ReadIff | src/common/protocol.c:84-114 | the address reader accepts exactly the printer's spellings, each as the address printed |
| Dotted.PrintFits | src/common/protocol.c:84-87 | a printed address and its NUL fit 16 bytes |
| OpenAck.Fields | src/common/protocol.c:9-20 | the big-endian header fields are read back as written |
| OpenAck.CtrlHdrSigned | src/common/protocol.c:22-37 | a control header verifies and carries its fields, whatever follows it |
| OpenAck.OpenRoundTrip | src/common/auth.c:41-75 | for every user name of at most 253 bytes the five fields are recovered; a longer one builds no frame |
| OpenAck.Clamp | src/common/auth.c:117-131 | the MTU is brought into 576..1500 and left alone inside it |
| OpenAck.FoldIs | src/common/auth.c:87-156 | the callback sees a whole list if and only if it objects to none of it; then the last TLV of each type decides, and otherwise an error is on record |
| OpenAck.AcceptedIff | src/common/auth.c:158-284 | an answer is accepted if and only if it has the size, type, signature, non-zero token, well-formed TLVs, matching echoes and all four mandatory TLVs, with the session they spell |
| OpenAck.AcceptedIsUsable | src/common/cli_common.c:152-163 | every accepted session has a token, an MTU in range, matching echoes, and addresses that are never refused and are those of the last address TLVs |
| OpenAckRun.Buf.PutTlv | src/common/protocol.c:39-53 | appends one encoding |
| OpenAckRun.Buf.PutCtrlHdr | src/common/protocol.c:30-37 | appends a signed header |
| OpenAckRun.WriteOpen | src/common/auth.c:41-75 | appends the frame, or nothing when the user name is too long |
| OpenAckRun.Reader.constructor | src/common/auth.c:251-259 | the defaults before the TLVs |
| OpenAckRun.Reader.OneTlv | src/common/auth.c:87-156 | refines the callback field by field |
| OpenAckRun.Reader.Tlvs | src/common/protocol.c:55-73 | the loop refines the walk |
| OpenAckRun.ReadAck | src/common/auth.c:158-284 | refines the whole check with its early exits |
| OpenAckRun.ReadAddr | src/common/protocol.c:89-114 | the loop refines the address reader |
| OpenAckRun.ReadOctet | src/common/protocol.c:89-114 | the loop refines one octet |
| Checksum.FoldIs | src/common/ipv4.c:28-33 | folding keeps the sum modulo 65535, and only an empty sum folds to zero |
| Checksum.AcceptsIff | src/common/ipv4.c:28-33 | a checksum comes out zero if and only if the sum is a positive multiple of 65535 |
| Checksum.SumChains | src/common/ipv4.c:13-26 | accumulating over an even prefix and then the rest is one pass |
| Checksum.OddPrefixChainsIff | src/common/ipv4.c:13-26 | over an odd prefix it is one pass if and only if the rest weighs the same at its even as at its odd places |
| Checksum.Accumulate | src/common/ipv4.c:13-26 | the loop computes the word sum modulo 2^32, and the exact sum when it fits |
| Checksum.FoldDown | src/common/ipv4.c:28-33 | the loop folds and complements |
| Checksum.StampVerifies | src/common/ipv4.c:35-80 | writing the checksum into its zeroed, even-offset field makes the recomputed checksum zero, for every pseudo-header and segment |
| Checksum.WordChange | src/common/ipv4.c:13-33 | after changing one aligned word a verifying segment still verifies if and only if the word did not change or went between the two zeros |
| Checksum.NoOverflow | src/common/ipv4.c:13-80 | no segment of up to 65535 bytes overflows the 32-bit accumulator |
| Checksum.TcpCsum | src/common/ipv4.c:35-49 | the checksum under the IPv4 pseudo-header |
| Checksum.Tcp6Csum | src/common/ipv4.c:51-66 | the checksum under the IPv6 pseudo-header |
| Checksum.UdpShortcut | src/common/ipv4.c:68-80 | the two numbers added are the rest of the pseudo-header |
| Checksum.UdpCsum | src/common/ipv4.c:68-80 | the shortcut computes the checksum under the full pseudo-header |
| HeaderScan.FindIs | src/common/http_parser.c:458-467 | the search finds the first occurrence or proves absence |
| HeaderScan.FirstStays | src/common/https.c:1023-1031 | a hit is permanent when the buffer grows |
| HeaderScan.MissResumes | src/common/https.c:1023-1031 | after a miss only the last bytes can still start a match |
| HeaderScan.FramesAgreeIff | src/common/http_parser.c:469-489 | the incremental frame and the parser's agree if and only if no NUL stands in front of the body, hence on every NUL-free response |
| HeaderScan.Search | src/common/http_parser.c:458-467 | the loop finds the first occurrence from the probe on, comparing each offset once |
| HeaderScan.Advance | src/common/https.c:1080-1102 | one needle's turn keeps its state exact and compares no offset twice |
| HeaderScan.SettledFrame | src/common/https.c:1062-1109 | that state is the frame of the whole buffer |
| HeaderScan.NulHidesFrame | src/common/http_parser.c:469-489 | behind every first line a NUL in front of the terminator makes them differ |
| ContentLength.DigitsIs | src/common/http_parser.c:441-449 | a value is accepted if and only if it is digits that spell at most the size limit, as that number |
| ContentLength.LengthIs | src/common/http_parser.c:428-455 | the first line that declares a length decides, accepted or not; without one there is no length |
| ContentLength.LengthHere | src/common/http_parser.c:428-455 | a declaring line that comes first decides whatever follows it |
| ContentLength.LengthBehind | src/common/http_parser.c:451-453 | any other line is passed over |
| ContentLength.ParseValue | src/common/http_parser.c:438-450 | the loops refine one line's value |
| ContentLength.SkipEnds | src/common/http_parser.c:451-453 | the loop passes over every line ending |
| ContentLength.NameAt | src/common/http_parser.c:435-437 | the name is recognised case-insensitively |
| ContentLength.Scan | src/common/http_parser.c:428-455 | the loop refines the lookup |
| ResponseRead.StopsRight | src/common/https.c:1131-1133 | a reader that stops, and is not misled, has the head and body of the whole response |
| ResponseRead.EndsRight | src/common/https.c:1136-1170 | one that runs out of input reports a truncated body exactly when the response is cut off |
| ResponseRead.RunDirect | src/common/https.c:1016-1187 | so however a response that does not mislead arrives, the outcome is that of the whole |
| ResponseRead.MisledDiffers | src/common/https.c:1104-1130 | for every misleading response an arrival with another outcome |
| ResponseRead.ArrivalIff | src/common/https.c:1062-1133 | the outcome is the same for every fragmentation if and only if no LFLF in front of the first CRLFCRLF heads a declared body that is complete too early, or whose length outlives it into a chunked head |
| ResponseRead.BufferFramed | src/common/https.c:1080-1133 | however a response that does not mislead arrives, the buffer handed on is a part of it with the same frame |
| ResponseRead.ParserFramesAlike | src/common/http_parser.c:469-489 | and the parser frames it as the whole response is framed, unless a NUL stands in front of the body |
| ResponseRead.MixedMisleads | src/common/https.c:1104-1133 | every response whose early blank line ends a head that declares a body which is complete too early, or whose length outlives it into a chunked head, misleads, with the program's own Content-Length lookup |
| ResponseRead.EmptyBodyMisleads | src/common/https.c:1104-1128 | one with a status line and an empty body declared |
| ResponseRead.StaleLengthMisleads | src/common/https.c:1119-1133 | one with a status line, a declared length and chunks behind it |
| ResponseRead.Scanner.constructor | src/common/https.c:1019-1034 | nothing read, nothing found, no length known |
| ResponseRead.Scanner.Scan | src/common/https.c:1080-1102 | one read's search keeps both needles' state exact |
| ResponseRead.Scanner.Feed | src/common/https.c:1080-1133 | one read refines the value-level reader, a late CRLFCRLF replacing an LFLF, and stops exactly when the declared body is complete |
| ResponseRead.ReadResponse | src/common/https.c:1016-1187 | the loop refines the whole read with its early stop and truncation test, and compares each needle at most once per byte |

## Left out

- RelayTheorems.TeardownAlwaysPossible: a schedule exists; `StopBoundsSteps` and `QuietMeansTornDown` cover every schedule, but that the scheduler runs a thread at all is not modelled.
- RelayPollset.Rounds: the `poll` results themselves are not modelled.
- RelayStream.PromptLifeDelivers: a peer that never takes a byte again, or a sender that never sends its next one, stalls the direction; no timeout is modelled.
- Relay restarts: one relay instance; the generation that tells instances apart is not modelled.
- Lockout.Table.Note: keys are numbers of one length, and a clock running backwards is not modelled.
- Lockout.AnswersLikeMap: only while the tracked keys fit the table; `FailRefines` says exactly what happens otherwise.
- SocksSession.Handle: up to the upstream connect; deadlines, the constant-time token comparison and the target policy are not modelled.
- ConnSlots.StepKeepsInv: lwIP is a set of control blocks that it may free, recycle, connect or feed; its retransmission timers and windows are not modelled.
- DownlinkBatch.EveryOversizedHandedOn: what becomes of such a packet on the single-packet path, which may drop it, is not modelled.
- DownlinkBatch.Conservation: the rate limit of the error log is not modelled.
- TxRing.Netstack.OutputFrame: the connection a frame belongs to is an argument; the header walk that finds it is not modelled.
- HeadRewrite.ForceClose: only the rewriting; the HTTP request handler around it is not modelled.
- JsonRfc.RfcIff: the grammar is over bytes; whether a text is UTF-8 is not modelled.
- JsonNumber.NumberIff: a number is its spelling; the double the C library makes of it is not modelled.
- JsonTree.Parse: error messages and line and column numbers; only the byte offset is modelled. Path lookup in a parsed tree is not modelled.
- OpenAck.AcceptedIff: the text of a rejection and the socket retries around the exchange are not modelled.
- ResponseRead.ArrivalIff: about head and body; the parser's refusals, of a response without `HTTP/1.` and of transfer codings other than `chunked` alone, and the decoding of chunks are not modelled. That it frames the buffer alike is `ParserFramesAlike`.
- ResponseRead.ReadResponse: the lookup of Transfer-Encoding is an arbitrary function of the head; the size limit, the deadlines and failed reads are not modelled.
- Cryptography (AES, GCM, TLS, certificates, MD5 itself), name resolution, configuration files, the TUN device, routing and the command line.
- Profiling counters, logging and the Windows-only branches.
- IPv4 and IPv6 packet validation, port translation and DNS forwarding.
