# Verified models of the lwIP stack and kernel cores

Dafny models of the parts of the repository whose correctness rests on an argument rather than on a glance:
the bundled lwIP 2.1.3 (heap, pools, sockets, netconns, checksums, resolver, interfaces) and two kernel modules
(the kernel heap and the text editor). `dafny verify dfyconfig.toml` checks everything.

| files | component | main results |
|---|---|---|
| `MemModel`, `MemHeap` | `mem.c` | every run tiles the heap, coalesced, with `lfree` exact; allocation is first fit and complete |
| `MemInterrupt` | `mem.c`, free from other contexts | all interleavings are safe; restarts are bounded, and by what |
| `SocketRefs` | `sockets.c` references | `fd_used` and the pending flag refine rules on references and closes; a holder keeps its netconn; one deletion per close |
| `SelectWakeup`, `SelectCalls` | `sockets.c` select and events | no lost wake-up in any interleaving: the event that makes a socket ready signals who waits for it, and nobody else |
| `NetconnCompletion` | `api_msg.c` | every message is signalled once, by exactly the step that finishes it; a close ends within its polls |
| `VectoredWrite` | `api_msg.c`, `api_lib.c` | what is sent is a prefix of the vectors, and all of them at the end; which writes can hang |
| `ChecksumSpec`, `Checksum`, `ChecksumChain` | `inet_chksum.c`, `net.c` | three algorithms and the chain walk equal the sum of section 2 of RFC 1071 |
| `DnsTables`, `Dns` | `dns.c` tables | table invariants; every accepted request is called back once, within a bound |
| `DnsNames`, `DnsAnswers`, `DnsPackets`, `DnsExchange` | `dns.c` names and packets | encoder, comparer, skipper, answer walk against label and record lists (RFC 1035); from the query sent to the address its callers are told |
| `Memp` | `memp.c` | Floyd's check is right on every list; pools lose and duplicate nothing |
| `KernelHeap` | `malloc.c` | tiling, first fit, contents kept by `realloc`, freeing all restores the start |
| `Decimal`, `Netif` | `netif.c`, `def.c`, `libc.c` | numbering ends and is unique; index, name and back |
| `EditorText`, `Editor` | `editor.c` | the line buffer refines a flat text with a cursor |

`Arith` and `Common` hold what several of them use.

Where the code does not do what one would expect, the model follows the code, and lemmas give the case and the
condition for it:

- trims that change nothing restart a `mem_malloc` without end: `MemInterrupt.IdleTrimsRestartForever`, reachable
  by `MemInterrupt.IdleTrimsAreReachable`; nothing else can, by `MemInterrupt.RestartsAreBounded`;
- list changes can hold an event up without end: `SelectWakeup.ChangesHoldUpForEver`; finitely many cannot, by
  `SelectWakeup.WalkEndsDespiteChanges`;
- a write can be left without any callback: `NetconnCompletion.AbandonedWriteIsSilent`, exactly when by
  `NetconnCompletion.WriteIsSilentExactlyWhen`;
- a second close loses the message of the first: `NetconnCompletion.SecondCloseDropsTheFirst`, on every closing netconn;
- a blocking vectored write can hang: `VectoredWrite.StallsExactlyWhen` for one round,
  `VectoredWrite.CanStallExactlyWhen` for a whole write;
- a response for another name is accepted: `DnsNames.AcceptsAnotherName`, exactly when by
  `DnsNames.AcceptedIsQueryExactlyWhen`;
- bytes behind the query's terminator can be read: exactly when by `DnsNames.CompareReadsBeyondExactlyWhen`;
- the root name is not skipped: `DnsNames.SkipIsRightExactlyWhen`, with `DnsAnswers.RootRecordIsMisread`;
- a wrapping request gets too small a block: `KernelHeap.WrappedRequestGetsNothing`, exactly when by
  `KernelHeap.Heap.Malloc`; a realloc may then overrun it: `KernelHeap.WrappedReallocOverruns`, exactly when by
  `KernelHeap.CopyFitsExactlyWhen`;
- the search for an interface number need not end: exactly when by `Netif.SearchEndsExactlyWhen`; names stand for
  numbers modulo 256: `Netif.FindsExactlyWhen`;
- joining long lines loses text: `EditorText.LongJoinLosesText`, exactly when by `EditorText.JoinIsRemoveExactlyWhen`.

The assertion at `lwip-2.1.3/src/core/netif.c:400` admits 255 listed interfaces; the search for a number ends
only if at most 254 are listed before, which is what `Netif.Netifs.Add` requires. The comment above
`dns_compare_name` promises that names are equal when an offset is returned; the code compares labels only.

## Model

| member | source | states |
|---|---|---|
| `MemHeap.LwipHeap.constructor` | lwip-2.1.3/src/core/mem.c:515-545 | mem_init establishes the whole heap invariant with nothing live |
| `MemHeap.LwipHeap.MemLinkValid` | lwip-2.1.3/src/core/mem.c:550-563 | the four link conditions, as a predicate of the array |
| `MemModel.BlocksAreLinkValid` | lwip-2.1.3/src/core/mem.c:550-563 | every block of a tiled heap passes mem_link_valid, so a legal free is never refused by it |
| `MemHeap.LwipHeap.PlugHoleForward` | lwip-2.1.3/src/core/mem.c:485-497 | the in-place merge is the pure merge of the model, `lfree` included |
| `MemHeap.LwipHeap.PlugHoleBackward` | lwip-2.1.3/src/core/mem.c:499-509 | the same for the preceding block |
| `MemModel.BackwardIsForwardAtPrev` | lwip-2.1.3/src/core/mem.c:473-510 | merging backwards is merging forwards at the predecessor |
| `MemModel.PlugHolesKeeps` | lwip-2.1.3/src/core/mem.c:473-510 | after both halves no two free blocks are adjacent, tiling and hint are kept, live blocks untouched |
| `MemModel.FreeKeeps` | lwip-2.1.3/src/core/mem.c:616-686 | freeing keeps the invariant and removes exactly that block from the live ones |
| `MemHeap.LwipHeap.MemFree` | lwip-2.1.3/src/core/mem.c:616-686 | frees exactly when the pointer is a live block; NULL, misaligned, foreign and already freed pointers change nothing |
| `MemModel.TrimKeeps` | lwip-2.1.3/src/core/mem.c:698-820 | trimming keeps tiling and coalescing; the block shrinks, all other live blocks keep their extent |
| `MemModel.TrimHint` | lwip-2.1.3/src/core/mem.c:753-804 | `lfree` stays at or below every free block and exact |
| `MemModel.MoveIsMergeThenSplit` | lwip-2.1.3/src/core/mem.c:753-780 | moving the following free block down equals merging and splitting again |
| `MemHeap.LwipHeap.MemTrim` | lwip-2.1.3/src/core/mem.c:698-820 | returns NULL exactly when the rounded size does not fit; shrinks exactly when the tail can be given back |
| `MemModel.RoundSizeIsExact` | lwip-2.1.3/src/core/mem.c:840-856 | a size is accepted exactly if its aligned value fits the heap without wrapping; it is then aligned and no smaller than asked |
| `MemHeap.LwipHeap.FindFit` | lwip-2.1.3/src/core/mem.c:867-889 | starting at `lfree` and stopping at the early bound still finds the lowest block that fits, or proves there is none |
| `MemModel.TakeKeeps` | lwip-2.1.3/src/core/mem.c:886-927 | taking and splitting keeps the invariant and adds exactly the new block, cut to the size asked for where the rest is worth a block |
| `MemHeap.LwipHeap.Take` | lwip-2.1.3/src/core/mem.c:886-927 | the block taken ends right behind the size asked for if a header and MIN_SIZE_ALIGNED more were left, and the rest is then a free block up to the old end; else it is the old block |
| `MemHeap.LwipHeap.AdjustLfree` | lwip-2.1.3/src/core/mem.c:928-950 | afterwards `lfree` is the lowest free block or the sentinel |
| `MemHeap.LwipHeap.MemMalloc` | lwip-2.1.3/src/core/mem.c:830-976 | NULL exactly for size 0, a size that wraps or is too large, or when no free block fits; otherwise an aligned region at the lowest fitting address, in a block not live before, that ends right behind the rounded size with the rest a free block, or is the whole old block if the rest is worth none |
| `MemModel.StartsAreTheChain` | lwip-2.1.3/src/core/mem.c:344-360 | the blocks are exactly what following `next` from 0 visits |
| `MemModel.EveryByteInExactlyOneBlock` | lwip-2.1.3/src/core/mem.c:473-545 | every byte below the sentinel lies in one block and in no other |
| `MemModel.LiveRegionsAreDisjoint` | lwip-2.1.3/src/core/mem.c:830-976 | data regions of different live blocks do not overlap |
| `MemModel.NothingLiveIsInitial` | lwip-2.1.3/src/core/mem.c:616-686 | with nothing live the heap is the single block mem_init made |
| `MemInterrupt.StepKeeps` | lwip-2.1.3/src/core/mem.c:861-969 | every protected section of mem_malloc, mem_free and mem_trim keeps the concurrent invariant |
| `MemInterrupt.EveryRunKeepsInv` | lwip-2.1.3/src/core/mem.c:861-969 | in every state of every interleaving the heap is tiled and coalesced, `lfree` is at or below every free block, and the scan pointer is a current block start whenever it will be used |
| `MemInterrupt.MallocEndsWell` | lwip-2.1.3/src/core/mem.c:861-969 | a mem_malloc that returns has a live block of the size asked for, less than a header and the minimum more, and leaves `lfree` exact; one that gives up proves that nothing fits |
| `MemInterrupt.NobodyIsStuck` | lwip-2.1.3/src/core/mem.c:872-884 | mem_malloc can always resume, and a legal free or trim can always run |
| `MemInterrupt.ExtentIsStable` | lwip-2.1.3/src/core/mem.c:735-753 | a live block keeps place and extent through every section but its own free or trim |
| `MemInterrupt.RestartsAreBounded` | lwip-2.1.3/src/core/mem.c:861-969 | restarts of a call are at most the blocks in use at its start plus the trims since |
| `MemInterrupt.SectionsAreBounded` | lwip-2.1.3/src/core/mem.c:861-969 | a call takes at most one pass over the heap more than it has restarts, so one disturbed finitely often ends |
| `MemInterrupt.IdleTrimsRestartForever` | lwip-2.1.3/src/core/mem.c:698-820 | the second term is needed: trims that change nothing restart one call any number of times |
| `MemInterrupt.IdleTrimsAreReachable` | lwip-2.1.3/src/core/mem.c:698-969 | a run from mem_init reaches the situation in which this happens |
| `SocketRefs.SocketTable.SockIncUsed` | lwip-2.1.3/src/api/sockets.c:334-370 | the section on the array is the model's section, for every slot state; what it means is `SocketRefs.EveryStepFollowsTheRules` |
| `SocketRefs.SocketTable.FreeSocketLocked` | lwip-2.1.3/src/api/sockets.c:547-567 | the same for freeing |
| `SocketRefs.SocketTable.DoneSocket` | lwip-2.1.3/src/api/sockets.c:376-401 | the same for dropping a reference, the pending free included |
| `SocketRefs.SocketTable.AllocSocket` | lwip-2.1.3/src/api/sockets.c:500-538 | takes the lowest slot with neither netconn nor reference; none exactly if there is no such slot |
| `SocketRefs.EveryRunKeepsInv` | lwip-2.1.3/src/api/sockets.c:334-611 | in every interleaving counts are exact, holders see their netconn, every netconn is in exactly one place |
| `SocketRefs.EveryStepFollowsTheRules` | lwip-2.1.3/src/api/sockets.c:334-611 | in every run fd_used and fd_free_pending implement rules told by references and closes alone: a reference to an open socket is given and one to a closed socket refused, a look shows the netconn of the slot, the netconn leaves with the last reference after the close, a slot without netconn and references is taken even if its pending flag was left over |
| `SocketRefs.GetSocketReturns` | lwip-2.1.3/src/api/sockets.c:407-490 | get_socket on a socket that is open returns it with the netconn that was there, whatever other threads do in between |
| `SocketRefs.UsedCountsReferences` | lwip-2.1.3/src/api/sockets.c:334-401 | fd_used is the number of outstanding references; when the increment would wrap; a free is pending exactly if the attached netconn was closed |
| `SocketRefs.ReferencesCanBeReturned` | lwip-2.1.3/src/api/sockets.c:376-401 | in every reachable state each reference can be dropped or used to close, with fd_used above zero |
| `SocketRefs.HolderKeepsItsConn` | lwip-2.1.3/src/api/sockets.c:459-490 | from get_socket to the release the slot keeps the netconn that was seen |
| `SocketRefs.AllocSkipsReferencedSlots` | lwip-2.1.3/src/api/sockets.c:500-538 | a slot with references is never handed out |
| `SocketRefs.ClosedConnsAreDeletedOnce` | lwip-2.1.3/src/api/sockets.c:547-611 | no netconn is deleted twice or while attached; when all is quiet exactly the closed ones are deleted, each once |
| `SelectWakeup.StepKeeps` | lwip-2.1.3/src/api/sockets.c:1769-2124 | every section of select and of an event keeps the handshake invariant |
| `SelectWakeup.ScanPcRelies` | lwip-2.1.3/src/api/sockets.c:1833-1897 | the second scan passes a socket silently only if nothing wanted is ready there |
| `SelectWakeup.SuffixOfFirst` | lwip-2.1.3/src/api/sockets.c:2582-2654 | a walk that goes on from its element visits exactly the rest of the list |
| `SelectWakeup.EveryRunKeepsInv` | lwip-2.1.3/src/api/sockets.c:2035-2097 | in every interleaving whoever relies on an event is signalled or an event is on its way to it |
| `SelectWakeup.BlockedIsWoken` | lwip-2.1.3/src/api/sockets.c:2035-2097 | a blocked call with something ready is signalled or about to be reached; with no event in progress it is signalled |
| `SelectWakeup.WalkReachesWaiter` | lwip-2.1.3/src/api/sockets.c:2582-2654 | in every run an event on its way to a waiter stays so until it has signalled it, through restarts and whatever happens to the socket; its walk does not end before |
| `SelectWakeup.EventWakesWaiter` | lwip-2.1.3/src/api/sockets.c:2035-2654 | the first data, room to send where there was none, or an error on a socket that a call's second scan has passed signals that call if it wants it, even if the data are gone again; once the event has been handled a blocked call can wake |
| `SelectWakeup.WalkEndsInTime` | lwip-2.1.3/src/api/sockets.c:2582-2654 | while the list does not change the event needs at most as many sections as there are elements up to the waiter |
| `SelectWakeup.WalkEndsDespiteChanges` | lwip-2.1.3/src/api/sockets.c:2582-2654 | with c changes of the list it needs fewer than c + 1 times the longest list |
| `SelectWakeup.ChangesHoldUpForEver` | lwip-2.1.3/src/api/sockets.c:2638-2648 | calls that come and go hold a walker up for any number of its sections, leaving everything as it was |
| `SelectWakeup.WalkApproaches` | lwip-2.1.3/src/api/sockets.c:2582-2654 | each section of a walker on its way to a waiter signals it or comes strictly closer |
| `SelectWakeup.OthersDoNotDelay` | lwip-2.1.3/src/api/sockets.c:2582-2654 | only linking and unlinking set a walker back |
| `SelectWakeup.SignalledOnce` | lwip-2.1.3/src/api/sockets.c:2598-2637 | a semaphore holds at most one signal, and no step adds one for a call already signalled |
| `SelectCalls.SocketAfterEvents` | lwip-2.1.3/src/api/sockets.c:2522-2549 | in every run rcvevent is the RCVPLUS less the RCVMINUS events, sendevent is what the last SENDPLUS or SENDMINUS said, errevent is set exactly by an ERROR |
| `SelectCalls.WalkStartsExactlyWhen` | lwip-2.1.3/src/api/sockets.c:2522-2565 | an event looks through the waiting calls exactly if one is registered with the socket and it brings data where there were none, room to send, or an error |
| `SelectCalls.WalkIsOver` | lwip-2.1.3/src/api/sockets.c:2582-2654 | every walk ends: with c changes of the list it makes at most c + 1 times the longest list sections |
| `SelectCalls.SignalledForCause` | lwip-2.1.3/src/api/sockets.c:2598-2637 | a call is signalled only if something it wants was ready when an event reported it |
| `SelectCalls.CallStands` | lwip-2.1.3/src/api/sockets.c:2035-2124 | how far a call has come is decided by what happened: it found something exactly if a round of its scan came to a wanted socket that was ready, waits after all rounds of both loops without finding anything, and leaves exactly for a socket not open or with 255 calls waiting, a find, its semaphore or its timeout |
| `NetconnCompletion.EveryRunKeepsInv` | lwip-2.1.3/src/api/api_msg.c:356-505 | in every run the state, the pending message, the pcb and the registered callbacks fit together |
| `NetconnCompletion.MessagesCompleteOnce` | lwip-2.1.3/src/api/api_msg.c:922-1209 | current_msg is set exactly in WRITE, CLOSE and CONNECT; every message is signalled exactly once, at once or when it stops being current |
| `NetconnCompletion.EveryStepFollowsTheRules` | lwip-2.1.3/src/api/api_msg.c:356-2007 | in every run: a callback that finds a write finished, or a close that tcp carries out, answers the message at once, and an unfinished write is left alone; the pcb goes exactly with a full close that was carried out or aborted; an idle netconn takes a write or connect on, a busy one refuses it |
| `NetconnCompletion.PendingExactlyUntil` | lwip-2.1.3/src/api/api_msg.c:356-505 | a pending message waits exactly until the first step that finishes what it waits for, and is then signalled, once |
| `NetconnCompletion.PendingCanCompleteExactlyWhen` | lwip-2.1.3/src/api/api_msg.c:356-505 | in every run a pending message can be completed by a callback exactly if no full close before gave up and left the callbacks off; else it is a write that no callback finds |
| `NetconnCompletion.WriteIsSilentExactlyWhen` | lwip-2.1.3/src/api/api_msg.c:1815-1860 | a write is left so exactly if it is accepted on such a netconn and does not finish at once |
| `NetconnCompletion.AbandonedWriteIsSilent` | lwip-2.1.3/src/api/api_msg.c:1054-1088 | after a close that failed with another error a waiting write has no callback left |
| `NetconnCompletion.SecondCloseDropsTheFirst` | lwip-2.1.3/src/api/api_msg.c:1936-2007 | closing a closing netconn loses the first message: the caller must not |
| `NetconnCompletion.PollDecreases` | lwip-2.1.3/src/api/api_msg.c:356-390 | each poll completes a waiting close or uses one of its polls |
| `NetconnCompletion.CloseEndsInTime` | lwip-2.1.3/src/api/api_msg.c:922-1110 | a close pending after k polls has polls_left - k > 0 left, whatever tcp returns |
| `VectoredWrite.TotalSize` | lwip-2.1.3/src/api/api_lib.c:1020-1041 | the wrap test accepts exactly the sizes that fit size_t and then the size is right |
| `VectoredWrite.StallsExactlyWhen` | lwip-2.1.3/src/api/api_msg.c:1679-1729 | a round repeats without progress exactly for a blocking write, a full send buffer, further vectors and a rest that is a multiple of 65536 |
| `VectoredWrite.StalledStays` | lwip-2.1.3/src/api/api_msg.c:1679-1729 | while the send buffer stays full such a loop never moves again |
| `VectoredWrite.CanStallExactlyWhen` | lwip-2.1.3/src/api/api_msg.c:1679-1729 | some send-buffer answers bring a write there exactly if it is blocking and a vector other than the last exceeds 65535 bytes |
| `VectoredWrite.WriteJob.constructor` | lwip-2.1.3/src/api/api_lib.c:1043-1060 | the message starts with nothing sent and the cursor at the start |
| `VectoredWrite.WriteJob.ChunkIsNext` | lwip-2.1.3/src/api/api_msg.c:1680-1727 | the bytes at the cursor are the next bytes of the flattened vectors |
| `VectoredWrite.WriteJob.WriteLoop` | lwip-2.1.3/src/api/api_msg.c:1679-1729 | terminates for every non-blocking write and every blocking one that cannot stall; what was accepted is a prefix of the data; its last round ended as tcp_write said, with the send buffer used up if data are left, or found no send buffer in a non-blocking write and reports WOULDBLOCK exactly if nothing was sent |
| `VectoredWrite.WriteJob.WriteMore` | lwip-2.1.3/src/api/api_msg.c:1642-1806 | a blocking write that finishes well has sent everything; an unfinished one has used up the send buffer or lacks memory and can be resumed; a non-blocking one never waits and, short of other errors, returns WOULDBLOCK exactly if nothing was sent, else OK |
| `VectoredWrite.WriteJob.WriteAll` | lwip-2.1.3/src/api/api_msg.c:1642-1806 | over all resumptions the accepted chunks concatenate to the first `offset` bytes, all of them at the end |
| `ChecksumSpec.OnesSumIsCanon` | lwip-2.1.3/src/core/inet_chksum.c:68-255 | the one's-complement sum of RFC 1071 is the representative in 1..0xFFFF of the plain sum, 0 only for sum 0 |
| `ChecksumSpec.LEZero` | lwip-2.1.3/src/core/inet_chksum.c:68-255 | the sum is zero for all-zero data only |
| `ChecksumSpec.LEAppendOdd` | lwip-2.1.3/src/core/inet_chksum.c:259-294 | data appended after an odd number of bytes counts with its bytes exchanged |
| `Checksum.StandardChksum1` | lwip-2.1.3/src/core/inet_chksum.c:79-114 | version 1 equals the one's-complement sum, up to 0x20000 bytes, without 32-bit overflow |
| `Checksum.StandardChksum2` | lwip-2.1.3/src/core/inet_chksum.c:132-173 | version 2 equals it at every alignment, up to 0x20000 bytes, without 32-bit overflow |
| `Checksum.CarryAdd` | lwip-2.1.3/src/core/inet_chksum.c:213-225 | adding with the carry put back keeps the sum modulo 0xFFFF in 32 bits |
| `Checksum.StandardChksum3` | lwip-2.1.3/src/core/inet_chksum.c:188-255 | version 3 equals it at every alignment and length |
| `Checksum.NetChecksum` | net.c:32-45 | net_checksum is the complement of the same sum |
| `ChecksumChain.SumChain` | lwip-2.1.3/src/core/inet_chksum.c:398-435 | the byte-swapping walk represents the sum of the flattened bytes, or of the first chksum_len ones, whatever the split |
| `ChecksumChain.InetChksumPbuf` | lwip-2.1.3/src/core/inet_chksum.c:567-588 | equals the checksum of the flattened chain |
| `ChecksumChain.PseudoHeaderSum` | lwip-2.1.3/src/core/inet_chksum.c:259-327 | protocol and length added in network order are the pseudo header's last two words |
| `ChecksumChain.InetChksumPseudo` | lwip-2.1.3/src/core/inet_chksum.c:259-440 | equals the checksum of pseudo header and data, or of the first chksum_len bytes, the parity of a truncated last pbuf included |
| `Dns.Resolver.constructor` | lwip-2.1.3/src/core/dns.c:294-301 | the zeroed tables satisfy the invariant |
| `Dns.Resolver.InvokeCallbacks` | lwip-2.1.3/src/core/dns.c:962-969 | exactly the callbacks for the entry are invoked, once each, with the answer, and their slots cleared |
| `Dns.Resolver.CallFound` | lwip-2.1.3/src/core/dns.c:941-996 | afterwards nothing waits for the entry and it holds no port; the port is closed exactly if no other waiting entry uses it |
| `Dns.Resolver.Send` | lwip-2.1.3/src/core/dns.c:747-774 | an attempt to send a query to the entry's server, or giving up exactly if that server is not set |
| `Dns.Resolver.CreateTxid` | lwip-2.1.3/src/core/dns.c:999-1019 | the id differs from those of all waiting entries |
| `DnsTables.TxidExists` | lwip-2.1.3/src/core/dns.c:999-1019 | such an id always exists |
| `Dns.Resolver.AskNew` | lwip-2.1.3/src/core/dns.c:1055-1069 | a new entry waits for server 0 with a fresh id, or is given up exactly if that server is not set |
| `Dns.Resolver.Retry` | lwip-2.1.3/src/core/dns.c:1070-1101 | a tick gives up exactly in the stated case, calling back, and otherwise makes the next try, setting out to send a query exactly when the timer runs out |
| `Dns.Resolver.CheckEntry` | lwip-2.1.3/src/core/dns.c:1046-1118 | one entry changes as its state demands, all tables stay consistent |
| `Dns.Resolver.Tick` | lwip-2.1.3/src/core/dns.c:1123-1131 | every entry is checked once; every request is called back or at least one tick nearer |
| `DnsTables.NextTryIsOneTick` | lwip-2.1.3/src/core/dns.c:1070-1101 | a tick that does not give up uses exactly one of the ticks left |
| `DnsTables.PerServerClosed` | lwip-2.1.3/src/core/dns.c:1070-1101 | each server is asked for 1 + R(R-1)/2 ticks |
| `DnsTables.AllServersClosed` | lwip-2.1.3/src/core/dns.c:1070-1101 | n servers take n times as long |
| `DnsTables.TicksLeftBound` | lwip-2.1.3/src/core/dns.c:1070-1101 | a waiting entry is settled within the ticks of the servers left |
| `DnsTables.GivesUpExactlyWhen` | lwip-2.1.3/src/core/dns.c:1070-1101 | with every server set, a tick gives up exactly if it is the last of the ticks left |
| `DnsTables.WaitsItsTime` | lwip-2.1.3/src/core/dns.c:1070-1101 | with every server set and no answer, an entry waits for exactly the ticks it has left |
| `DnsTables.KeptForItsLifetime` | lwip-2.1.3/src/core/dns.c:1103-1110 | an answer stays in the table for exactly its lifetime |
| `Dns.Resolver.CorrectResponse` | lwip-2.1.3/src/core/dns.c:1136-1164 | the address is cached with a capped lifetime, or not at all for lifetime 0, and all its requests are called back with it |
| `Dns.Resolver.ErrorResponse` | lwip-2.1.3/src/core/dns.c:1250-1268 | the next server if one is set, else giving up |
| `Dns.Resolver.EmptyResponse` | lwip-2.1.3/src/core/dns.c:1332-1354 | a query for the other address type if asked for, else giving up |
| `DnsTables.RespondedIsNearer` | lwip-2.1.3/src/core/dns.c:1250-1354 | no packet makes a request wait longer than it might have |
| `Dns.Resolver.Recv` | lwip-2.1.3/src/core/dns.c:1169-1361 | a packet of a given kind concerns exactly the entry waiting for its id, as its kind demands |
| `DnsPackets.ClassifyPacket` | lwip-2.1.3/src/core/dns.c:1186-1331 | the checks of header, question, name and error code and the walk over the answers decide the kind |
| `DnsPackets.GoodResponseIsUnderstood` | lwip-2.1.3/src/core/dns.c:1196-1331 | every response with the queried name in any case, its type and class, and well-formed records is taken for the address and lifetime of the first record of that type, or for having none |
| `DnsExchange.BuildQuery` | lwip-2.1.3/src/core/dns.c:776-818 | the packet dns_send makes for an entry: its id, one question for its name, of type 1 for IPV4 and IPV4_IPV6 and 28 for IPV6 and IPV6_IPV4, class 1 |
| `DnsExchange.RepliesAnswer` | lwip-2.1.3/src/core/dns.c:776-1331 | every reply that copies the question dns_send wrote is a response to what the entry asks |
| `DnsExchange.AnswerSettles` | lwip-2.1.3/src/core/dns.c:1136-1354 | a response to the question asked leaves the entry done with the address and capped lifetime of the first record of type 1 or 28, as the entry asks; without one IPV4_IPV6 asks for type 28 next and IPV6_IPV4 for type 1, and the others are free |
| `DnsExchange.OthersAreIgnored` | lwip-2.1.3/src/core/dns.c:1196-1246 | a packet that is not ignored is a response with one question, from the server asked, with an accepted name and the type and class the entry asks for |
| `Dns.Resolver.ReceivePacket` | lwip-2.1.3/src/core/dns.c:1169-1361 | from the bytes of any packet to the tables and callers: the entry waiting for its id changes as the packet's kind demands, no other; a response to its question settles it, and its callers are told the first address of the type asked, or the query for the other type goes out, or they are told there is none |
| `DnsAnswers.WalkAnswers` | lwip-2.1.3/src/core/dns.c:1268-1331 | the loop over the answers ends on every packet, reads within it and wraps no offset |
| `DnsAnswers.WalkFindsFirst` | lwip-2.1.3/src/core/dns.c:1268-1331 | on every list of well-formed records, none of the bare root, it finds address and lifetime of the first record of the wanted type, nothing if there is none |
| `DnsAnswers.RootRecordIsMisread` | lwip-2.1.3/src/core/dns.c:707-739 | an address record of the root is not found |
| `Dns.Resolver.AllocPcb` | lwip-2.1.3/src/core/dns.c:899-930 | a port is found exactly if one can be opened or is open; a new one where possible, else the next open one after the last |
| `Dns.Resolver.FindEntry` | lwip-2.1.3/src/core/dns.c:1414-1444 | an unused entry, else the completed one furthest behind, else none |
| `Dns.Resolver.Attach` | lwip-2.1.3/src/core/dns.c:1385-1411 | a duplicate request joins the waiting entry exactly if there is one and a free slot |
| `Dns.Resolver.Enqueue` | lwip-2.1.3/src/core/dns.c:1374-1503 | accepted exactly under the stated condition; nothing waiting is disturbed; refused requests leave no trace; with server 0 set the request then waits for an entry of its name and type |
| `Dns.Resolver.SetServer` | lwip-2.1.3/src/core/dns.c:360-371 | sets one server, ignoring indices out of range; the invariant does not depend on servers |
| `Dns.Resolver.Serve` | lwip-2.1.3/src/core/dns.c:394-399 | in any run of ticks, packets, requests and server changes with two rounds of ticks, every request accepted before has been called back exactly once |
| `DnsTables.AcceptedWithin` | lwip-2.1.3/src/core/dns.c:1374-1503 | every accepted request is called or at most two rounds over all servers away |
| `DnsNames.LabelsJoin` | lwip-2.1.3/src/core/dns.c:791-807 | every text is its labels joined by dots |
| `DnsNames.JoinLabels` | lwip-2.1.3/src/core/dns.c:791-807 | joining labels without dots loses nothing |
| `DnsNames.FillQuestion` | lwip-2.1.3/src/core/dns.c:776-818 | for every hostname of up to 255 bytes the question fills the allocated packet exactly, and its bytes are the labels, a zero, type and class |
| `DnsNames.CompareName` | lwip-2.1.3/src/core/dns.c:650-697 | the two nested loops compute the label-wise comparison, end on every packet, and read the query as far as stated |
| `DnsNames.CompareReadsBeyondExactlyWhen` | lwip-2.1.3/src/core/dns.c:659-690 | bytes behind the query's terminator are read exactly if a first part of the response's labels uses up the query and more follow |
| `DnsNames.CompareAccepts` | lwip-2.1.3/src/core/dns.c:650-697 | a terminated name whose labels the query holds is accepted with the offset behind it |
| `DnsNames.CompareRejects` | lwip-2.1.3/src/core/dns.c:650-697 | nothing else is accepted |
| `DnsNames.OwnNameMatches` | lwip-2.1.3/src/core/dns.c:650-697 | the queried name in any mixture of cases is accepted, whatever lies in memory behind the query |
| `DnsNames.QuestionMatchesItself` | lwip-2.1.3/src/core/dns.c:650-818 | what dns_send writes, dns_compare_name accepts |
| `DnsNames.AcceptedIsQueryExactlyWhen` | lwip-2.1.3/src/core/dns.c:650-697 | an accepted name is the query's exactly if the skipped bytes are its dots and terminator |
| `DnsNames.AcceptsAnotherName` | lwip-2.1.3/src/core/dns.c:650-697 | a response for a.b is accepted for the query a-b |
| `DnsNames.SkipName` | lwip-2.1.3/src/core/dns.c:707-739 | the loop ends on every packet without wrapping and computes the label-wise skip |
| `DnsNames.SkipIsRightExactlyWhen` | lwip-2.1.3/src/core/dns.c:707-739 | on every well-formed name, compressed tail included, the end is returned exactly if the name is not the bare root |
| `Memp.TheyMeet` | lwip-2.1.3/src/core/memp.c:100-116 | on a list without end the two pointers meet within as many rounds as there are elements |
| `Memp.MempSanity` | lwip-2.1.3/src/core/memp.c:100-116 | ends on every linked structure and returns 1 exactly if the list is acyclic |
| `Memp.Pool.constructor` | lwip-2.1.3/src/core/memp.c:174-206 | all elements are on the free list, each once |
| `Memp.Pool.Malloc` | lwip-2.1.3/src/core/memp.c:243-300 | hands out an element not handed out before, NULL exactly if none is left; all others unaffected |
| `Memp.Pool.UserWrites` | lwip-2.1.3/src/core/memp.c:243-300 | an owner may overwrite the link in its element without harm to the pool |
| `Memp.Pool.Free` | lwip-2.1.3/src/core/memp.c:358-394 | the element is free again, all others unaffected, and the sanity check passes |
| `KernelHeap.Heap.constructor` | malloc.c:26-33 | one free block that fills the heap |
| `KernelHeap.Heap.MergeFree` | malloc.c:36-46 | on every tiled list: no adjacent free blocks afterwards, used blocks untouched |
| `KernelHeap.RoundedCoversExactlyWhen` | malloc.c:52 | rounding covers the request exactly if it does not wrap |
| `KernelHeap.WrappedRequestGetsNothing` | malloc.c:48-80 | a request that wraps is answered with a block of no bytes |
| `KernelHeap.CopyFitsExactlyWhen` | malloc.c:89-102 | realloc copies within the new block exactly if the size does not wrap, there is nothing to copy, nothing is free, or the first free block is unsplit and large enough |
| `KernelHeap.WrappedReallocOverruns` | malloc.c:89-102 | a realloc that copies eight bytes into a block of none |
| `KernelHeap.Heap.Malloc` | malloc.c:48-80 | NULL exactly for 0 or when nothing fits; else the first fit, cut to the rounded size where the rest is worth a block, aligned, large enough exactly if rounding does not wrap, disjoint from everything live |
| `KernelHeap.Heap.Free` | malloc.c:104-112 | exactly that region is given back |
| `KernelHeap.Heap.Realloc` | malloc.c:89-102 | where the copy fits: old contents kept, the new size reached exactly if it does not wrap, other live regions untouched, the old region kept if there is no memory |
| `KernelHeap.Heap.FreeAll` | malloc.c:104-112 | freeing everything in any order restores the initial block |
| `KernelHeap.BlocksAreDisjoint` | malloc.c:12-20 | blocks, headers included, do not overlap and lie within the heap |
| `KernelHeap.NothingLiveIsInitial` | malloc.c:36-46 | with nothing live the heap is the initial block |
| `Decimal.Memmove` | libc.c:20-31 | right for every overlap |
| `Decimal.LwipItoa` | lwip-2.1.3/src/core/def.c:198-239 | prints sign, digits and terminator exactly if they fit, else the empty string |
| `Decimal.Atoi` | libc.c:116-125 | spaces, sign and leading digits |
| `Decimal.ParsedOfPrinted` | libc.c:116-125 | parsing a printed number gives it back |
| `Netif.NumberIsFreeExactlyWhen` | lwip-2.1.3/src/core/netif.c:383-406 | one of the 255 numbers is free exactly if at most 254 interfaces are listed |
| `Netif.SearchEndsExactlyWhen` | lwip-2.1.3/src/core/netif.c:390-406 | the search, from any number, meets a free one exactly then; otherwise it goes round for ever |
| `Netif.Netifs.Add` | lwip-2.1.3/src/core/netif.c:383-416 | the search ends with the first number from netif_num on that is not taken; numbers stay distinct in 0..254 |
| `Netif.Netifs.Remove` | lwip-2.1.3/src/core/netif.c:790-806 | the walk to the predecessor unlinks the interface and keeps the rest in order; an unlisted one changes nothing |
| `Netif.Netifs.GetByIndex` | lwip-2.1.3/src/core/netif.c:1693-1709 | an interface with this index, none exactly if there is none |
| `Netif.Netifs.Find` | lwip-2.1.3/src/core/netif.c:1718-1746 | an interface the name stands for, none exactly if there is none |
| `Netif.FindsExactlyWhen` | lwip-2.1.3/src/core/netif.c:1718-1746 | a decimal name finds the number modulo 256, but nothing for a non-zero multiple of 256 |
| `Netif.Netifs.NameToIndex` | lwip-2.1.3/src/core/netif.c:1655-1664 | the index of a named interface, 0 exactly if none |
| `Netif.Netifs.IndexToName` | lwip-2.1.3/src/core/netif.c:1673-1685 | a name exactly for listed indices; the buffer holds letters and decimal number |
| `Netif.Netifs.RoundTrip` | lwip-2.1.3/src/core/netif.c:1654-1746 | name_to_index(index_to_name(i)) = i for every listed index |
| `EditorText.TypedIsInsertExactlyWhen` | editor.c:178-188 | typing inserts one character at the cursor of the flat text exactly if the line has room |
| `EditorText.EnteredIsInsertExactlyWhen` | editor.c:190-205 | Enter inserts a newline exactly if there is room for a line |
| `EditorText.BackspacedIsRemoveExactlyWhen` | editor.c:207-237 | Backspace removes the character before the cursor exactly if there is one and a joined line is not too long |
| `EditorText.DeletedIsRemoveExactlyWhen` | editor.c:239-255 | Delete removes the character at the cursor under the same condition |
| `EditorText.JoinIsRemoveExactlyWhen` | editor.c:218-236 | joining lines removes one newline exactly if the result is within the limit |
| `EditorText.LongJoinLosesText` | editor.c:218-236 | two lines that do not fit lose their end |
| `EditorText.ReloadGivesLinesBack` | editor.c:115-176 | loading what was saved gives the lines, and an empty one behind them if there is room |
| `Editor.EditBuffer.constructor` | editor.c:36-45 | an empty document |
| `Editor.EditBuffer.InsertChar` | editor.c:178-188 | the shifting loop does what typing does to the document |
| `Editor.EditBuffer.InsertNewline` | editor.c:190-205 | the row moves do what Enter does |
| `Editor.EditBuffer.BackspaceChar` | editor.c:207-237 | the loops do what Backspace does |
| `Editor.EditBuffer.DeleteChar` | editor.c:239-255 | and what Delete does |
| `Editor.EditBuffer.MoveCursor` | editor.c:257-267 | the cursor goes to the nearest place there is |
| `Editor.EditBuffer.PressAll` | editor.c:277-301 | every key sequence keeps lines and cursor within bounds and follows the document model |
| `Editor.EditBuffer.SaveFile` | editor.c:155-176 | the bytes written are the flat text and a final newline, never truncated |
| `Editor.EditBuffer.LoadFile` | editor.c:115-153 | the lines of any file, up to what the buffer holds |
| `Editor.EditBuffer.SaveAndReload` | editor.c:115-176 | saving and loading keeps the lines, adding an empty one if there is room |

## Left out

- Hardware access, drawing, games, the file system, TCP, UDP and pbuf internals: `tcp_*` results, send buffer sizes, `udp_new`, random numbers, packet contents and file reads are parameters or part of an action.
- SocketRefs, SelectWakeup, NetconnCompletion and MemInterrupt describe threads and callbacks as state machines on values, one step per protected section or handler; updating in place is modelled for single sections only (`SocketRefs.SocketTable`, `MemHeap.LwipHeap`).
- MemHeap.LwipHeap.MemMalloc: headers are kept beside the data in an array indexed by offset, so writes through a live pointer cannot damage them; statistics, MEM_OVERFLOW_CHECK, mem_calloc and the pool variants are not modelled.
- MemHeap.LwipHeap.MemFree: a plausible pointer leads to a block or to a header marked unused; user bytes inside a live block that look like a used header are excluded, as the code cannot tell.
- MemHeap.LwipHeap.MemTrim: a pointer inside the heap must be live, as the code's own check cannot tell; the assertion at lwip-2.1.3/src/core/mem.c:790 is not an invariant and is not stated.
- SocketRefs.SocketTable.AllocSocket: one call without interference; other threads between its per-slot sections are in the runs, where SocketRefs.AllocSkipsReferencedSlots speaks of each section.
- SocketRefs.UsedCountsReferences: beyond 255 references the code's assertion fails; runs stop there. lwip_poll is not a client of the model, since it releases references it may not have obtained.
- SelectWakeup.BlockedIsWoken: `select_cb_ctr` does not wrap, `rcvevent` is unbounded, the first scan and lwip_poll are not modelled, and what `lastdata` holds is part of the action.
- NetconnCompletion.MessagesCompleteOnce: a caller does not close a netconn that is closing; nonblocking connect, core locking, full duplex, SNDTIMEO and LINGER are off.
- VectoredWrite.WriteJob.WriteLoop: blocking writes with a vector other than the last above 65535 bytes are excluded, exactly those that can hang by VectoredWrite.CanStallExactlyWhen. The total is within SSIZE_MAX, and the timeouts of SO_SNDTIMEO are off.
- Checksum.StandardChksum1: a little-endian host is assumed; lwip_chksum_copy, the IPv6 pseudo header and lwip_port/inet_chksum.c, which computes something else, are not modelled.
- Dns.Resolver.Send: that no pbuf is to be had, or that udp_sendto fails, is not told apart from a query sent; it changes nothing in the tables.
- Dns.Resolver.Recv: the kind of a packet is a parameter; Dns.Resolver.ReceivePacket finds it from the bytes. Whether a packet comes from the server asked stays a parameter there.
- Dns.Resolver.Enqueue: names are numbers, equal if the names are equal up to case; the cache lookup, local host list, mDNS and callbacks that call the resolver again are not modelled.
- DnsNames.FillQuestion: hostnames have at most 255 bytes, which dns_gethostbyname enforces, so the overflow branch of dns_send is never taken.
- DnsNames.SkipIsRightExactlyWhen: packets are shorter than 65535 bytes; at 65535 a name that ends the packet gives the offset 0xFFFF, which is the error value.
- Memp.Pool.Free: the element must be handed out; addresses, alignment and the overflow check are not modelled.
- KernelHeap.Heap.Malloc: the block list is a sequence of headers with addresses; the magic word, which never differs in a heap used properly, and calls before heap_init are not modelled; calloc is left out.
- KernelHeap.Heap.Free: the pointer is NULL or live; what the magic word makes of others is not modelled.
- KernelHeap.Heap.Realloc: calls whose copy would overrun the new block are excluded; KernelHeap.CopyFitsExactlyWhen says which these are.
- Decimal.LwipItoa: INT_MIN, whose negation overflows, and the 32-bit overflow of atoi are not modelled.
- Netif.Netifs.Add: at most 254 interfaces are listed before; with 255 the search does not end, by Netif.SearchEndsExactlyWhen. Only numbering and naming are modelled.
- Editor.EditBuffer.InsertChar: characters are those editor_open passes on, printable ones; the scroll position and the message line are not modelled. A row is a value of 121 characters.
