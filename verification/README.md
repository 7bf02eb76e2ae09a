# Verified model of the serial Ethernet link and its lwIP core

This project models, in Dafny 4.11, the parts of the Ethernet-over-SLIP link and of its lwIP 2.1.0 stack whose
correctness is hard to see from the code, and proves what they promise.  Code that updates state in place is a class or
a method over arrays, maps and sequences; each such method is proved against a specification function, and the
theorems about whole runs are lemmas about these functions.

| component | modules | main results |
|---|---|---|
| heap allocator (`core/mem.c`) | `MemModel`, `MemBytes`, `MemHeap`, `MemRuns`, `MemSizes` | byte-level `struct mem` headers refine a block list; `mem_malloc` is linearizable first fit under every interleaving with `mem_free` and `mem_trim`; live data is never touched; everything freed gives back the initial heap |
| packet buffers (`core/pbuf.c`) | `PbufModel`, `PbufShape`, `PbufBytes`, `PbufEffects`, `PbufStore`, `PbufRuns` | exact reference counts over every run; fragmentation is invisible; 64k split of chains whose `tot_len` has wrapped |
| Internet checksum (`core/inet_chksum.c`) | `InetChecksum`, `ChecksumAlgorithms`, `ChecksumChains` | three algorithms, the chain, pseudo-header, partial and copy forms all compute one function (sections 1 and 2 of RFC 1071) |
| timers (`core/timeouts.c`) | `TimerQueue`, `TimerActions`, `Timeouts` | the list under a wrapping 32-bit clock refines a stable priority queue over the integers; no drift; `sys_check_timeouts` terminates |
| socket slots (`api/sockets.c`) | `SocketSlots`, `Sockets` | use counts are holders; every closed netconn is handed out exactly once, by the last holder |
| DNS resolver (`core/dns.c`) | `DnsModel`, `DnsRuns`, `DnsAnswers`, `DnsAges`, `DnsResolver` | every accepted request is called back exactly once within a bounded number of timer ticks; which requests a table with completed entries turns away |
| serial link (`arch/slip.c`, `src/uart2.c`, `arch/ethoslipif.c`) | `Slip`, `SerialLink`, `EthoslipIf` | SLIP resynchronises after any noise; frames cross the whole link unchanged, in reads of any sizes; what the 14-bit trailer detects |
| learning bridge (`netif/bridgeif_fdb.c`) | `BridgeFdb` | the array refines a capacity-bounded map with leases |

## Conventions

- The host is little-endian and `mem_size_t` is a u16.  `MEM_ALIGNMENT`, the header size, `MIN_SIZE_ALIGNED` and
  `MEM_SIZE_ALIGNED` are parameters (`MemModel.Config`).  Wrap-around of u8, u16 and u32 is written out wherever the code
  relies on it or could suffer from it.
- Fixed-size memory pools are finite: any allocation from one may fail.
- A pbuf store maps the live pbufs to their fields; a released pbuf is no longer in the map, so a dangling pointer is one
  that is not a key.  References held outside the store are a multiset.
- Other threads and interrupts are schedules: sequences of operations that run at each point where the code gives up
  its protection.  Theorems hold for every schedule.
- Clock readings, random numbers, the results of `read`, and the verdict on a DNS packet are parameters.
  `clock` and `draws` are functions of the number of the reading.
- Ghost parameters (`ids`, `hs`, `lo`, `due`, `bound`, ...) name what the caller knows and the code does not compute: the
  pbufs of a chain in order, the true time behind a wrapped one, a draw that is known to be fresh.
- DNS names stand for all their spellings in upper and lower case.  The number of table entries, requests and
  servers is arbitrary; a query is sent to a server at most `DNS_MAX_RETRIES` = 4 times.

## Where the code falls short

Each of these is proved for exactly the inputs named.

- `pbuf_dechain` returns a pointer to a released pbuf if and only if it released a positive multiple of 256 pbufs, since
  `pbuf_free` counts in a u8 (`PbufStore.Pool.Dechain`, with rows of pbufs that do it in `PbufStore.DechainRow`).
- The first assertion of `sock_inc_used_locked` fails if and only if the slot's pending free has completed and nobody
  allocated it since: `fd_free_pending` is reset by `alloc_socket` only (`Sockets.SocketTable.IncUsedLocked`,
  `Sockets.CompletedFreeLeavesPending`).
- `mem_trim` asserts at core/mem.c:790 that the block does not end at the end of the heap.  The assertion fails if and
  only if the last block is trimmed by enough for another block, which legal calls can do; without the assertion the
  code is right there too (`MemRuns.TrimAssertionFailsIff`, `MemRuns.WholeHeapTrimmed`, `MemHeap.Heap.Trim`).
- `dns_enqueue` refuses a request that finds no unused entry, although entries hold completed queries, if and only if
  each of these was opened a positive multiple of 256 queries ago, since the age is a u8 and an age of 0 is not taken
  (`DnsAges.TurnedAwayIff`, with a run in `DnsAges.TurnedAway`).
- The trailer drops bit 7 of the byte sum: a changed payload byte is missed if and only if it differs by 128 and
  nothing carries into bit 8 (`EthoslipIf.TrailerMeaning`, `EthoslipIf.SingleByteChange`, `EthoslipIf.Adding128`).
- A pending ESC swallows the END in front of the next packet, which is then spoilt; that is the only packet lost
  (`Slip.Resynchronises`, `EthoslipIf.LinkDelivers`).  Behind fewer than 128 stored noise bytes the spoilt packet is
  rejected; behind 128 it can be delivered with them in front (`EthoslipIf.SpoiltRejected`, `EthoslipIf.ManyBytes`).
- The assertion `chksum_len < 0x7fff` at core/inet_chksum.c:416 fails if and only if the chain is not empty, n > 0, and
  32767 or more of the n bytes are left after the first pbuf; the checksum is right all the same
  (`ChecksumChains.PseudoPartialBase`).
- `pbuf_chain` without a head chains nothing but still counts the tail up, so its count is one more than its holders know
  of (`PbufStore.Pool.ChainOnto`).

## Model

| member | source | states |
|---|---|---|
| `MemHeap.Heap.constructor` | tools/ethoslip_lwip/lwip-2.1.0/core/mem.c:515-545 | the heap starts as one free block, headers and end marker written into the byte array, lfree at the start |
| `MemModel.RoundedSound` | tools/ethoslip_lwip/lwip-2.1.0/core/mem.c:846-856 | a u16 request is refused exactly when it exceeds the heap, so a wrapped round-up never passes as a small request; an accepted one is rounded to the least aligned size that holds it and the minimum |
| `MemModel.AlignUpIsRounding` | tools/ethoslip_lwip/lwip-2.1.0/core/mem.c:844-850 | the recursive round-up used throughout is integer division by the alignment, rounded up: what LWIP_MEM_ALIGN_SIZE computes |
| `MemHeap.Heap.PlugHoles` | tools/ethoslip_lwip/lwip-2.1.0/core/mem.c:473-510 | coalesces with free neighbours on both sides, byte for byte; restores well-formedness, keeps all live data and never moves lfree |
| `MemModel.MergedLfree` | tools/ethoslip_lwip/lwip-2.1.0/core/mem.c:487-509 | merging two free neighbours never takes away the block lfree points to: both lfree tests of plug_holes are redundant |
| `MemHeap.Heap.BlocksLinkValid` | tools/ethoslip_lwip/lwip-2.1.0/core/mem.c:550-564 | no struct mem of the list is ever reported as badly linked |
| `MemHeap.Heap.Check` | tools/ethoslip_lwip/lwip-2.1.0/core/mem.c:622-667 | the alignment, range, double-free and link checks accept exactly the live pointers |
| `MemHeap.Heap.Free` | tools/ethoslip_lwip/lwip-2.1.0/core/mem.c:616-686 | frees exactly the given block, coalesces, keeps every other live payload unchanged, keeps lfree exact if it was; a pointer that is not live changes nothing and is counted as illegal |
| `MemHeap.Heap.Trim` | tools/ethoslip_lwip/lwip-2.1.0/core/mem.c:698-820 | shrinks a live block in place, by moving the free block behind it or splitting one off; retained bytes and all other live data unchanged; refusals and the returned pointer as in the code; the assertion before the split fails exactly under TrimAssertionFails |
| `MemHeap.Heap.Interfere` | tools/ethoslip_lwip/lwip-2.1.0/core/mem.c:873-884 | what any sequence of mem_free and mem_trim calls of other contexts can do at one unprotect point: heap shape, live data and the lfree rules are kept, and mem_free_count tells whether anything changed |
| `MemHeap.Heap.ScanOnce` | tools/ethoslip_lwip/lwip-2.1.0/core/mem.c:863-887 | one scan from lfree, with others running at every step: either it must restart, or it found the lowest-addressed free block that fits, or none fits |
| `MemHeap.Heap.TakeBlock` | tools/ethoslip_lwip/lwip-2.1.0/core/mem.c:886-927 | marks the chosen block used and splits off the remainder when another block fits; used statistic and live data as they should be |
| `MemHeap.Heap.AdjustLfree` | tools/ethoslip_lwip/lwip-2.1.0/core/mem.c:928-950 | whatever others free meanwhile, lfree is exactly the lowest free block again when the loop ends (only at or below every free block in between) |
| `MemHeap.Heap.Malloc` | tools/ethoslip_lwip/lwip-2.1.0/core/mem.c:830-976 | linearizable for every interleaving: the outcome is the one of an uninterrupted first-fit allocation after some of the other contexts' operations and before the rest; terminates, heap invariant and live data kept, failures counted |
| `MemSizes.MallocFailsIff` | tools/ethoslip_lwip/lwip-2.1.0/core/mem.c:844-976 | a request of at least one byte fails exactly if no free block has room for it and the minimum size |
| `MemSizes.MallocTakesFirst` | tools/ethoslip_lwip/lwip-2.1.0/core/mem.c:870-887 | otherwise the lowest free block with that room is taken |
| `MemSizes.MallocPortion` | tools/ethoslip_lwip/lwip-2.1.0/core/mem.c:886-927 | what is handed out is less than an alignment more than needed, or the whole block, which is then too small for a second one behind it |
| `MemSizes.TrimSucceedsIff` | tools/ethoslip_lwip/lwip-2.1.0/core/mem.c:709-748 | a live block can be trimmed exactly if it holds the new size and the minimum; to its own size always |
| `MemSizes.TrimPortion` | tools/ethoslip_lwip/lwip-2.1.0/core/mem.c:752-809 | what is left is less than an alignment more than needed, or the whole block if the cut would be too small for a block and none is free behind |
| `MemSizes.UsedAndFree` | tools/ethoslip_lwip/lwip-2.1.0/core/mem.c:677-926 | the used statistic and the free bytes add up to the heap |
| `MemModel.ExactIsLowest` | tools/ethoslip_lwip/lwip-2.1.0/core/mem.c:931-950 | a pointer that is exact in the sense of the invariant is the lowest free block, or ram_end if nothing is free |
| `MemModel.MallocKeepsWellFormed` | tools/ethoslip_lwip/lwip-2.1.0/core/mem.c:886-927 | allocation keeps the tiling, alignment, minimum size and no-two-free-neighbours rules |
| `MemModel.FreeKeepsWellFormed` | tools/ethoslip_lwip/lwip-2.1.0/core/mem.c:669-681 | freeing keeps them |
| `MemModel.TrimKeepsWellFormed` | tools/ethoslip_lwip/lwip-2.1.0/core/mem.c:752-804 | trimming keeps them |
| `MemRuns.MallocLive` | tools/ethoslip_lwip/lwip-2.1.0/core/mem.c:886-964 | mem_malloc adds one pointer that was not live, with at least the requested bytes, and leaves the size of every other one alone |
| `MemRuns.FreeLive` | tools/ethoslip_lwip/lwip-2.1.0/core/mem.c:669-681 | mem_free retires exactly the freed pointer |
| `MemRuns.TrimLive` | tools/ethoslip_lwip/lwip-2.1.0/core/mem.c:739-819 | mem_trim retires nothing and the trimmed block still holds the new size |
| `MemRuns.RunKeepsInvariant` | tools/ethoslip_lwip/lwip-2.1.0/core/mem.c:473-976 | every run of calls from mem_init keeps the list well formed, and the live pointers are exactly those handed out, each with room for its request |
| `MemRuns.LivePayloadsDisjoint` | tools/ethoslip_lwip/lwip-2.1.0/core/mem.c:830-976 | live payloads of any run are pairwise disjoint, aligned, inside the heap and at least as long as requested |
| `MemRuns.AllFreedRestoresInit` | tools/ethoslip_lwip/lwip-2.1.0/core/mem.c:473-510 | once every pointer of a run is freed the list is the single free block of mem_init |
| `MemRuns.FreeUndoesMalloc` | tools/ethoslip_lwip/lwip-2.1.0/core/mem.c:616-686 | freeing right after a successful mem_malloc gives back the very same block list |
| `MemRuns.TakenStaysLive` | tools/ethoslip_lwip/lwip-2.1.0/core/mem.c:928-950 | the block a running mem_malloc has taken stays its own, at full size, whatever other contexts free or trim |
| `MemRuns.LinearizedIsRun` | tools/ethoslip_lwip/lwip-2.1.0/core/mem.c:861-970 | an interrupted mem_malloc after a run leaves the list of that run continued by the other contexts' calls before it, the allocation, and their calls after it |
| `MemRuns.InterleavedIsRun` | tools/ethoslip_lwip/lwip-2.1.0/core/mem.c:473-976 | so every run whose allocations are interrupted anywhere has the list of an uninterrupted run |
| `MemRuns.InterleavedPayloads` | tools/ethoslip_lwip/lwip-2.1.0/core/mem.c:830-976 | its live payloads are disjoint, aligned, inside the heap and as long as requested, too |
| `MemRuns.InterleavedAllFreed` | tools/ethoslip_lwip/lwip-2.1.0/core/mem.c:473-510 | and with nothing live left its list is the single free block of mem_init |
| `MemRuns.TrimAssertionFailsIff` | tools/ethoslip_lwip/lwip-2.1.0/core/mem.c:781-790 | the assertion whose outcome Heap.Trim returns is violated exactly when the last block of the heap is trimmed by enough for another block |
| `MemRuns.WholeHeapTrimmed` | tools/ethoslip_lwip/lwip-2.1.0/core/mem.c:781-790 | a two-call run that violates it, in every configuration with room for two blocks |
| `PbufModel.FreedCounted` | tools/ethoslip_lwip/lwip-2.1.0/core/pbuf.c:743-798 | pbuf_free keeps every count equal to outside references plus live predecessors, and leaves no dangling next pointer |
| `PbufModel.ReleasedExactlyAtZero` | tools/ethoslip_lwip/lwip-2.1.0/core/pbuf.c:743-798 | pbuf_free releases a pbuf exactly when no reference to it is left |
| `PbufModel.FreedChain` | tools/ethoslip_lwip/lwip-2.1.0/core/pbuf.c:743-798 | on a chain it releases exactly the leading pbufs with one reference and touches nothing outside |
| `PbufEffects.FreedRest` | tools/ethoslip_lwip/lwip-2.1.0/core/pbuf.c:743-798 | what pbuf_free leaves of a chain keeps its bytes and its tot_len fields |
| `PbufStore.Pool.Free` | tools/ethoslip_lwip/lwip-2.1.0/core/pbuf.c:724-800 | the list-walking loop gives up one reference; the result is the number of released pbufs modulo 256 |
| `PbufStore.Pool.Ref` | tools/ethoslip_lwip/lwip-2.1.0/core/pbuf.c:828-836 | one more outside reference, counts stay exact |
| `PbufModel.CatEffect` | tools/ethoslip_lwip/lwip-2.1.0/core/pbuf.c:852-875 | concatenation joins the byte sequences and keeps all tot_len fields right modulo 2^16 |
| `PbufEffects.CatKeeps` | tools/ethoslip_lwip/lwip-2.1.0/core/pbuf.c:852-875 | and changes no count, flag or byte and no pbuf outside the head chain |
| `PbufStore.Pool.Cat` | tools/ethoslip_lwip/lwip-2.1.0/core/pbuf.c:852-875 | the loop does that concatenation in place and consumes the caller's reference to the tail |
| `PbufStore.Pool.ChainOnto` | tools/ethoslip_lwip/lwip-2.1.0/core/pbuf.c:894-901 | the same, but the caller keeps its reference; without a head, t is counted up although nothing refers to it |
| `PbufStore.Pool.Dechain` | tools/ethoslip_lwip/lwip-2.1.0/core/pbuf.c:911-940 | decouples the first pbuf, whose tot_len becomes its own length, and frees the tail; what is left of the tail is a chain with its bytes and right tot_len fields, even if the second pbuf's was wrong; the returned pointer dangles exactly when a positive multiple of 256 pbufs was released (the count is a u8) |
| `PbufEffects.DechainEffect` | tools/ethoslip_lwip/lwip-2.1.0/core/pbuf.c:917-927 | the decoupling itself: both parts are chains, their bytes concatenate to the old ones, and every tot_len is right |
| `PbufStore.DechainRow` | tools/ethoslip_lwip/lwip-2.1.0/core/pbuf.c:925-935 | rows of 257, 513, ... pbufs for which pbuf_dechain returns a released pbuf |
| `PbufModel.SplitEffect` | tools/ethoslip_lwip/lwip-2.1.0/core/pbuf.c:1113-1147 | after the cut every front tot_len is the exact suffix length, the rest stays right modulo 2^16 and the bytes are preserved |
| `PbufEffects.SplitKeeps` | tools/ethoslip_lwip/lwip-2.1.0/core/pbuf.c:1133-1140 | the FIN flag of the front reaches the rest; no other flag, count, byte or pbuf changes |
| `PbufStore.Pool.Split64k` | tools/ethoslip_lwip/lwip-2.1.0/core/pbuf.c:1113-1147 | the u16 overflow test finds the longest prefix of pbufs with at most 65535 bytes; the rest inherits the FIN flag |
| `PbufShape.ReallocEffect` | tools/ethoslip_lwip/lwip-2.1.0/core/pbuf.c:425-449 | shrinking leaves the prefix of the bytes with exact tot_len fields |
| `PbufStore.Pool.Realloc` | tools/ethoslip_lwip/lwip-2.1.0/core/pbuf.c:401-459 | pbuf_realloc is 'take prefix' on the flat bytes, keeps as few pbufs as hold them, frees what it cuts off, and changes no flag, count or other chain |
| `PbufStore.Pool.FreeHeader` | tools/ethoslip_lwip/lwip-2.1.0/core/pbuf.c:670-688 | pbuf_free_header is 'drop prefix' on the flat bytes, drops exactly the pbufs that end within them, passes the caller's reference on, keeps tot_len exact and changes no other chain |
| `PbufStore.Pool.CopyPartial` | tools/ethoslip_lwip/lwip-2.1.0/core/pbuf.c:1026-1057 | delivers exactly the requested slice of the flat bytes |
| `PbufStore.Pool.Take` | tools/ethoslip_lwip/lwip-2.1.0/core/pbuf.c:1195-1226 | overwrites the front of the flat bytes, if and only if they are long enough; no length, tot_len or other chain changes |
| `PbufStore.Pool.TakeThenCopyPartial` | tools/ethoslip_lwip/lwip-2.1.0/core/pbuf.c:1026-1226 | data taken into a chain reads back unchanged at every offset and length, whatever the fragmentation |
| `PbufStore.Pool.Copy` | tools/ethoslip_lwip/lwip-2.1.0/core/pbuf.c:960-1012 | between any two fragmentations without empty pbufs it succeeds and the target starts with the source bytes; with empty ones, success still means that; tot_len and everything outside the target stay |
| `PbufStore.Pool.AllocPool` | tools/ethoslip_lwip/lwip-2.1.0/core/pbuf.c:234-272 | a chain of pool elements of the right total length and exact tot_len, each full but the last, next to an untouched store; it fails only if all free elements together are too few, and then gives everything back |
| `PbufRuns.RunCounted` | tools/ethoslip_lwip/lwip-2.1.0/core/pbuf.c:724-940 | over every run of alloc, ref, free, cat, chain, dechain, split and realloc that respects ownership, each live pbuf's ref is its outside references plus its live predecessors, and no next pointer dangles |
| `PbufRuns.GoneExactlyWhenUnreferenced` | tools/ethoslip_lwip/lwip-2.1.0/core/pbuf.c:743-798 | after any such call a pbuf is live exactly when an outside reference or a live predecessor refers to it |
| `PbufRuns.StepAcyclic` | tools/ethoslip_lwip/lwip-2.1.0/core/pbuf.c:724-940 | no call makes a chain run into itself: an order in which all next pointers lead upwards survives |
| `PbufRuns.RunLeaksNothing` | tools/ethoslip_lwip/lwip-2.1.0/core/pbuf.c:724-940 | every run from the empty store that ends without outside references has released every pbuf |
| `InetChecksum.TwoFolds` | tools/ethoslip_lwip/lwip-2.1.0/core/inet_chksum.c:106-110 | two folds reduce any 32-bit sum to its one's complement representative |
| `InetChecksum.OneFold` | tools/ethoslip_lwip/lwip-2.1.0/core/inet_chksum.c:275-276 | one fold is enough for the sum of two representatives |
| `InetChecksum.SwapIsTimes256` | tools/ethoslip_lwip/lwip-2.1.0/core/inet_chksum.c:277-280 | swapping the bytes of a representative is multiplication by 256 modulo 65535 |
| `InetChecksum.ChksumZero` | tools/ethoslip_lwip/lwip-2.1.0/core/inet_chksum.c:79-114 | the checksum is zero exactly for all-zero data |
| `InetChecksum.StoredChecksumVerifies` | tools/ethoslip_lwip/lwip-2.1.0/core/inet_chksum.c:554-558 | storing the complement in a zeroed even-offset field makes re-verification give 0 |
| `ChecksumAlgorithms.Chksum1` | tools/ethoslip_lwip/lwip-2.1.0/core/inet_chksum.c:79-114 | version 1 computes the one's complement word sum |
| `ChecksumAlgorithms.Chksum2` | tools/ethoslip_lwip/lwip-2.1.0/core/inet_chksum.c:132-173 | version 2 computes the same at even or odd alignment |
| `ChecksumAlgorithms.CarryAddBack` | tools/ethoslip_lwip/lwip-2.1.0/core/inet_chksum.c:216-224 | 32-bit addition with the carry added back is one's complement addition |
| `ChecksumAlgorithms.Chksum3` | tools/ethoslip_lwip/lwip-2.1.0/core/inet_chksum.c:188-255 | version 3 computes the same for data of any length at any address |
| `ChecksumAlgorithms.InetChksum` | tools/ethoslip_lwip/lwip-2.1.0/core/inet_chksum.c:554-558 | inet_chksum is the complement of the one's complement word sum |
| `ChecksumChains.InetChksumPbuf` | tools/ethoslip_lwip/lwip-2.1.0/core/inet_chksum.c:567-588 | the checksum of a chain is that of its flat bytes, odd-length pbufs and single folds included |
| `ChecksumChains.PseudoBase` | tools/ethoslip_lwip/lwip-2.1.0/core/inet_chksum.c:259-294 | adds protocol and length words to address sum and chain sum |
| `ChecksumChains.ChksumPseudo` | tools/ethoslip_lwip/lwip-2.1.0/core/inet_chksum.c:309-363 | the transport checksum is that of the pseudo header followed by the flat data (section 3.1 of RFC 793) |
| `ChecksumChains.Ipv6PseudoHeader` | tools/ethoslip_lwip/lwip-2.1.0/core/inet_chksum.c:342-363 | the longer IPv6 pseudo header (section 8.1 of RFC 2460) has the same sum |
| `ChecksumChains.PseudoPartialBase` | tools/ethoslip_lwip/lwip-2.1.0/core/inet_chksum.c:398-440 | the partial form sums exactly the first n bytes, also when it stops inside an odd-length pbuf and when the assertion in the loop fails, which it does exactly if 32767 bytes or more are left after the first pbuf |
| `ChecksumChains.ChksumPseudoPartial` | tools/ethoslip_lwip/lwip-2.1.0/core/inet_chksum.c:455-511 | the partial transport checksum is that of pseudo header and data prefix |
| `ChecksumChains.ChecksumOnCopy.Fill` | tools/ethoslip_lwip/lwip-2.1.0/core/pbuf.c:1333-1358 | one piece copied to a place not filled before keeps the running checksum equal to that of the filled places; pieces that do not fit change nothing |
| `ChecksumChains.ChecksumOnCopy.Complete` | tools/ethoslip_lwip/lwip-2.1.0/core/pbuf.c:1333-1358 | however the payload was tiled and in whatever order, the result is the checksum of the whole |
| `Timeouts.WrappedOrder` | tools/ethoslip_lwip/lwip-2.1.0/core/timeouts.c:70-73 | within half the clock range the wrapped comparison is the true order |
| `TimerQueue.StableInsertSorted` | tools/ethoslip_lwip/lwip-2.1.0/core/timeouts.c:209-220 | insertion keeps the queue sorted by due time and arming order and adds exactly one element |
| `Timeouts.TimeoutList.TimeoutAbs` | tools/ethoslip_lwip/lwip-2.1.0/core/timeouts.c:179-221 | the wrapped list insertion is stable insertion into the ideal queue; an empty pool changes nothing |
| `Timeouts.TimeoutList.Timeout` | tools/ethoslip_lwip/lwip-2.1.0/core/timeouts.c:289-306 | arms a timer at the clock reading plus the delay |
| `Timeouts.TimeoutList.Untimeout` | tools/ethoslip_lwip/lwip-2.1.0/core/timeouts.c:316-341 | removes the first matching timer and nothing else |
| `Timeouts.TimeoutList.CyclicTimer` | tools/ethoslip_lwip/lwip-2.1.0/core/timeouts.c:231-261 | re-arms relative to the due time, or to the clock when overloaded |
| `TimerQueue.NoDrift` | tools/ethoslip_lwip/lwip-2.1.0/core/timeouts.c:243-260 | the k-th due time is the first plus k intervals exactly when no firing came too late, and otherwise later |
| `Timeouts.TimeoutList.CheckTimeouts` | tools/ethoslip_lwip/lwip-2.1.0/core/timeouts.c:351-396 | terminates; fires in due order, first come first served among equals, never early, and leaves nothing expired; the rounds are exactly those of the ideal queue, in which each head fires and its handler makes its calls; with self-rearming handlers only, each cyclic timer is kept and fires at most twice |
| `TimerActions.HandledArms` | tools/ethoslip_lwip/lwip-2.1.0/core/timeouts.c:386-391 | what a handler arms is pending when it returns, due at its clock reading plus the delay, unless it cancels it or the pool is empty |
| `TimerActions.HandledCancels` | tools/ethoslip_lwip/lwip-2.1.0/core/timeouts.c:316-341 | a handler that cancels another one takes its first pending timer off the list and does nothing else |
| `TimerActions.HandledRearms` | tools/ethoslip_lwip/lwip-2.1.0/core/timeouts.c:231-261 | a cyclic timer is pending again when its handler returns, one interval behind its due time or, if that has passed, behind the clock |
| `TimerActions.EveryArmMade` | tools/ethoslip_lwip/lwip-2.1.0/core/timeouts.c:351-396 | over a whole call, every timer that any handler that ran should arm has fired or is pending at the end, unless some handler cancels it, if the pool has room for all |
| `TimerActions.EveryCycleRearmed` | tools/ethoslip_lwip/lwip-2.1.0/core/timeouts.c:231-261 | and so has the next cycle of every cyclic timer that fired |
| `Timeouts.TimeoutList.RestartTimeouts` | tools/ethoslip_lwip/lwip-2.1.0/core/timeouts.c:403-420 | shifts all due times so that the head is due now; order and gaps stay |
| `Timeouts.TimeoutList.SleepTime` | tools/ethoslip_lwip/lwip-2.1.0/core/timeouts.c:425-443 | exactly the time to the head's due time, 0 if that has passed |
| `SocketSlots.RunKeeps` | tools/ethoslip_lwip/lwip-2.1.0/api/sockets.c:334-611 | over every interleaving a slot's holders all see its netconn, and every netconn that got a slot is in one slot or was handed out once |
| `SocketSlots.HeldConnStays` | tools/ethoslip_lwip/lwip-2.1.0/api/sockets.c:334-401 | while someone holds a slot its netconn does not change, whatever the others do |
| `SocketSlots.NoNewHolders` | tools/ethoslip_lwip/lwip-2.1.0/api/sockets.c:342-345 | once a free is pending nobody new gets in until the netconn is handed out |
| `SocketSlots.ClosedIsDeletedOnce` | tools/ethoslip_lwip/lwip-2.1.0/api/sockets.c:547-611 | a closed netconn is handed out exactly once, when the last holder leaves, and not before |
| `SocketSlots.HandedOutByLast` | tools/ethoslip_lwip/lwip-2.1.0/api/sockets.c:376-401 | only the last holder is ever handed a netconn, and only after a close |
| `Sockets.SocketTable.IncUsed` | tools/ethoslip_lwip/lwip-2.1.0/api/sockets.c:334-353 | fd_used is the number of holders; refused exactly while a free is pending |
| `Sockets.SocketTable.IncUsedLocked` | tools/ethoslip_lwip/lwip-2.1.0/api/sockets.c:356-369 | the same; its first assertion fails exactly when a pending free has completed |
| `Sockets.CompletedFreeLeavesPending` | tools/ethoslip_lwip/lwip-2.1.0/api/sockets.c:361-364 | a run of a correct program after which that assertion fails |
| `Sockets.SocketTable.DoneSocket` | tools/ethoslip_lwip/lwip-2.1.0/api/sockets.c:376-401 | gives up one hold; the last holder of a slot whose free is pending gets the netconn and the kind of socket that free noted |
| `Sockets.SocketTable.FreeSocketLocked` | tools/ethoslip_lwip/lwip-2.1.0/api/sockets.c:547-567 | the netconn comes out exactly if the caller was the last holder, otherwise the free becomes pending |
| `Sockets.SocketTable.AllocSocket` | tools/ethoslip_lwip/lwip-2.1.0/api/sockets.c:500-538 | takes the first slot that is free when its turn comes, the other threads running between the rounds; -1 only if none was |
| `Sockets.SocketTable.TryGetSocket` | tools/ethoslip_lwip/lwip-2.1.0/api/sockets.c:459-470 | the netconn read outside the lock is still the one of the entry; a failed lookup leaves no use count behind |
| `DnsResolver.Resolver.DnsSetServer` | tools/ethoslip_lwip/lwip-2.1.0/core/dns.c:361-370 | sets or clears one server within the table and keeps the resolver's invariant while queries are under way |
| `DnsResolver.Resolver.DnsCallFound` | tools/ethoslip_lwip/lwip-2.1.0/core/dns.c:941-996 | calls and clears exactly the requests of the entry, in order |
| `DnsResolver.Resolver.DnsCreateTxid` | tools/ethoslip_lwip/lwip-2.1.0/core/dns.c:999-1018 | the first id drawn that no outstanding query is using |
| `DnsResolver.Resolver.CheckOutstanding` | tools/ethoslip_lwip/lwip-2.1.0/core/dns.c:1070-1102 | timer, retries, next server or giving up, as the state machine says; u8 arithmetic never wraps |
| `DnsResolver.Resolver.DnsTmr` | tools/ethoslip_lwip/lwip-2.1.0/core/dns.c:1123-1131 | one tick over the whole table |
| `DnsResolver.Resolver.DnsCorrectResponse` | tools/ethoslip_lwip/lwip-2.1.0/core/dns.c:1136-1164 | answers the waiting requests and caches the address for at most the maximum TTL |
| `DnsResolver.Resolver.DnsRecv` | tools/ethoslip_lwip/lwip-2.1.0/core/dns.c:1169-1363 | a packet touches only the outstanding query with its id: next server, other address family, failure or answer |
| `DnsAnswers.IgnoredPacket` | tools/ethoslip_lwip/lwip-2.1.0/core/dns.c:1169-1250 | a packet that is no proper response to an outstanding query changes nothing |
| `DnsAnswers.AnswerDelivered` | tools/ethoslip_lwip/lwip-2.1.0/core/dns.c:1136-1164 | a good answer calls back every waiting request once, with the name and the address, frees their slots, and keeps the address for its time to live, at most 604800 seconds |
| `DnsAnswers.ServerErrorMovesOn` | tools/ethoslip_lwip/lwip-2.1.0/core/dns.c:1250-1264 | a server error sends the query to the next server, or fails it with a None callback to every waiting request |
| `DnsAnswers.NoAnswerFallsBack` | tools/ethoslip_lwip/lwip-2.1.0/core/dns.c:1324-1349 | without usable answer a request for either family asks for the other one, from the first server and under a new id; any other has failed |
| `DnsAnswers.OnlyAnswersAreReported` | tools/ethoslip_lwip/lwip-2.1.0/core/dns.c:962-968 | over every run, a callback with an address is only made for a packet that answers the query the request waits for with this address |
| `DnsAnswers.AnswerIsFinal` | tools/ethoslip_lwip/lwip-2.1.0/core/dns.c:962-968 | once that happened the request is never told anything else |
| `DnsResolver.Resolver.DnsEnqueue` | tools/ethoslip_lwip/lwip-2.1.0/core/dns.c:1374-1503 | joins a query under way, else takes an unused or the oldest completed entry, and sends; ERR_MEM otherwise |
| `DnsAnswers.RequestAccepted` | tools/ethoslip_lwip/lwip-2.1.0/core/dns.c:1374-1503 | an accepted request takes a free slot and waits for a query for its name: one under way, left as it is, or, only without such, a new one, sent to the first server; a new one takes an unused entry or else the oldest completed one |
| `DnsAnswers.RequestRefused` | tools/ethoslip_lwip/lwip-2.1.0/core/dns.c:1374-1467 | the exact reasons for a refusal, which leaves queries, requests and callbacks alone |
| `DnsResolver.Resolver.GetHostByName` | tools/ethoslip_lwip/lwip-2.1.0/core/dns.c:1616-1628 | refuses without a first server, else enqueues |
| `DnsAges.SeqnoCounts` | tools/ethoslip_lwip/lwip-2.1.0/core/dns.c:1469-1496 | over every run dns_seqno is the number of queries opened so far modulo 256, and each entry in use remembers the number of its own modulo 256, which lies below |
| `DnsAges.TurnedAwayIff` | tools/ethoslip_lwip/lwip-2.1.0/core/dns.c:1414-1444 | after any run, a request that needs an entry of its own is refused exactly when every entry is under way or was completed for a query opened a positive multiple of 256 queries ago |
| `DnsAges.TurnedAway` | tools/ethoslip_lwip/lwip-2.1.0/core/dns.c:1423-1444 | a run from empty tables after which a request is refused although one entry holds a completed, still cached query: 256 queries opened since, the last one under way |
| `DnsModel.CheckAskingIs` | tools/ethoslip_lwip/lwip-2.1.0/core/dns.c:1070-1102 | dns_check_entry on a query under way, free of u8 wrap-around |
| `DnsAnswers.AskingChecked` | tools/ethoslip_lwip/lwip-2.1.0/core/dns.c:1070-1102 | a due query is sent again and waits one second more than before; after the fourth try it goes to the next server; after the last one it has failed |
| `DnsAnswers.CachedForItsTime` | tools/ethoslip_lwip/lwip-2.1.0/core/dns.c:1103-1110 | an answer stays in the table for exactly its time to live in ticks |
| `DnsRuns.InitInv` | tools/ethoslip_lwip/lwip-2.1.0/core/dns.c:298-301 | the resolver's invariant holds of the empty tables |
| `DnsRuns.StepKeeps` | tools/ethoslip_lwip/lwip-2.1.0/core/dns.c:941-1503 | every tick, packet, request and server change keeps: timers running, requests attached to queries under way, ids distinct, each accepted request pending or answered once |
| `DnsRuns.NeverTwice` | tools/ethoslip_lwip/lwip-2.1.0/core/dns.c:962-968 | no run calls a request back twice, and none that was not accepted |
| `DnsRuns.StepAdvanced` | tools/ethoslip_lwip/lwip-2.1.0/core/dns.c:1046-1355 | no event sets a pending request back, and every tick brings it closer: the measure is timer, retries, servers and address family left |
| `DnsRuns.AnsweredInTime` | tools/ethoslip_lwip/lwip-2.1.0/core/dns.c:1046-1118 | a pending request is answered exactly once by the time its remaining ticks are over, whatever else happens |
| `DnsRuns.AcceptedIsAnsweredOnce` | tools/ethoslip_lwip/lwip-2.1.0/core/dns.c:1374-1503 | every accepted request is called back exactly once within 7 ticks per server, 14 with a second address family, whatever packets, requests and server changes come |
| `DnsRuns.SilenceTimesOut` | tools/ethoslip_lwip/lwip-2.1.0/core/dns.c:1070-1102 | with all servers set but silent the callback comes with the last of these ticks and not before |
| `Slip.EncodeReceived` | tools/ethoslip_lwip/lwip-2.1.0/arch/slip.c:64-126 | what a receiver in any state delivers for an encoded packet, and the state it is left in: idle, with the packet cut at the buffer length, joined to what was stored only if an ESC was pending |
| `Slip.Resynchronises` | tools/ethoslip_lwip/lwip-2.1.0/arch/slip.c:64-126 | after any noise the packets p2..pk arrive exactly (up to the buffer length), and p1 too unless the noise left an ESC pending |
| `Slip.PendingEsc` | tools/ethoslip_lwip/lwip-2.1.0/arch/slip.c:97-101 | noise leaves an ESC pending exactly when it ends in an odd number of ESC bytes |
| `Slip.StuffLength` | tools/ethoslip_lwip/lwip-2.1.0/arch/slip.c:25-50 | an encoded packet costs one extra character per END or ESC byte |
| `Slip.WireFormat` | tools/ethoslip_lwip/lwip-2.1.0/arch/slip.c:15-56 | the characters on the wire: 192 on both sides, 219 220 for 192, 219 221 for 219, all others as they are |
| `Slip.EscapedCharacter` | tools/ethoslip_lwip/lwip-2.1.0/arch/slip.c:94-112 | after 219 the receiver stores 192 for 220, 219 for 221, and any other character as it is |
| `SerialLink.Uart.SendChar` | tools/ethoslip_lwip/src/uart2.c:23-28 | appends to the transmit buffer and drops what does not fit |
| `SerialLink.Uart.RecvChar` | tools/ethoslip_lwip/src/uart2.c:54-65 | the next character of the stream, however it is cut into reads |
| `SerialLink.Uart.SendPacket` | tools/ethoslip_lwip/lwip-2.1.0/arch/slip.c:15-56 | one write of everything pending and the encoded packet, cut off at the buffer size |
| `SerialLink.Uart.RecvPacket` | tools/ethoslip_lwip/lwip-2.1.0/arch/slip.c:64-126 | successive calls return exactly the packets of the stream |
| `EthoslipIf.CalculateChecksum` | tools/ethoslip_lwip/lwip-2.1.0/arch/ethoslipif.c:55-73 | writes the 14-bit trailer behind the data and nothing else: 127 less bits 8 to 14 of the byte sum, then 127 less bits 0 to 6 |
| `EthoslipIf.TrailerBytes` | tools/ethoslip_lwip/lwip-2.1.0/arch/ethoslipif.c:60-72 | the two trailer bytes complement bits 8 to 14 and bits 0 to 6 of the byte sum to 127 |
| `EthoslipIf.AcceptsIff` | tools/ethoslip_lwip/lwip-2.1.0/arch/ethoslipif.c:75-89 | a frame is accepted exactly if its last two bytes do so for the bytes before |
| `EthoslipIf.Check` | tools/ethoslip_lwip/lwip-2.1.0/arch/ethoslipif.c:75-89 | accepts exactly the frames whose last two bytes are the trailer of the others |
| `EthoslipIf.TrailerMeaning` | tools/ethoslip_lwip/lwip-2.1.0/arch/ethoslipif.c:55-73 | two payloads share a trailer exactly when their byte sums agree in bits 0 to 6 and 8 to 14 |
| `EthoslipIf.SingleByteChange` | tools/ethoslip_lwip/lwip-2.1.0/arch/ethoslipif.c:75-89 | a single changed payload byte goes unnoticed exactly when it differs by 128 and the sum changes in bit 7 only |
| `EthoslipIf.Adding128` | tools/ethoslip_lwip/lwip-2.1.0/arch/ethoslipif.c:55-89 | the gap is real: adding 128 to a payload byte goes unnoticed exactly when bit 7 of the byte sum is clear |
| `EthoslipIf.FitsExactly` | tools/ethoslip_lwip/src/uart2.c:20-28 | a frame of n bytes with k END or ESC bytes survives the transmit buffer exactly if n + k + 4 <= 4000; the trailer is never escaped |
| `EthoslipIf.LowLevelOutput` | tools/ethoslip_lwip/lwip-2.1.0/arch/ethoslipif.c:25-49 | copies the frame, seals it and sends it |
| `EthoslipIf.ReceiveFrame` | tools/ethoslip_lwip/src/ethoslip_main.c:102-118 | the receive task delivers the accepted frames of the stream one by one and drops bad packets |
| `EthoslipIf.FramesAreAccepted` | tools/ethoslip_lwip/src/ethoslip_main.c:102-118 | delivered are the payloads of exactly those packets whose trailer is right |
| `EthoslipIf.LinkDelivers` | tools/ethoslip_lwip/lwip-2.1.0/arch/slip.c:64-126 | behind any noise all frames that fit arrive complete and in order; only after a pending ESC is the first one spoilt |
| `EthoslipIf.SpoiltAccepted` | tools/ethoslip_lwip/lwip-2.1.0/arch/ethoslipif.c:55-89 | a frame behind stray bytes passes the check exactly if these leave bits 0 to 6 and 8 to 14 of its byte sum alone |
| `EthoslipIf.SpoiltRejected` | tools/ethoslip_lwip/lwip-2.1.0/arch/ethoslipif.c:55-89 | fewer than 128 stray bytes and the END swallowed behind them never do |
| `EthoslipIf.ManyBytes` | tools/ethoslip_lwip/lwip-2.1.0/arch/ethoslipif.c:55-89 | 128 of them can |
| `EthoslipIf.OnlyFirstLost` | tools/ethoslip_lwip/lwip-2.1.0/arch/slip.c:64-126 | behind a pending ESC with fewer than 128 bytes stored, and room for the first frame, exactly that frame is lost and nothing is delivered in its place |
| `EthoslipIf.Transport` | tools/ethoslip_lwip/lwip-2.1.0/arch/ethoslipif.c:25-89 | frames sent through one port and received through another, in reads of any sizes, come out unchanged |
| `BridgeFdb.Fdb.UpdateSrc` | tools/ethoslip_lwip/lwip-2.1.0/netif/bridgeif_fdb.c:75-121 | learning refines the capacity-bounded map: known addresses are refreshed, unknown ones get a free entry, a full table ignores them |
| `BridgeFdb.Fdb.GetDstPorts` | tools/ethoslip_lwip/lwip-2.1.0/netif/bridgeif_fdb.c:127-146 | the port mask of the entry, or flood |
| `BridgeFdb.PortMaskBit` | tools/ethoslip_lwip/lwip-2.1.0/netif/bridgeif_fdb.c:127-146 | the mask of port p is bit p |
| `BridgeFdb.Fdb.AgeOneSecond` | tools/ethoslip_lwip/lwip-2.1.0/netif/bridgeif_fdb.c:152-176 | every lease is a second shorter and expired ones are gone |
| `BridgeFdb.Capacity` | tools/ethoslip_lwip/lwip-2.1.0/netif/bridgeif_fdb.c:98-118 | one live entry per known address, so the table is full exactly when all entries are live |
| `BridgeFdb.LookupIsLastHeard` | tools/ethoslip_lwip/lwip-2.1.0/netif/bridgeif_fdb.c:75-176 | after any run a lookup names the port of the last recorded frame from the address iff fewer than 300 seconds have passed since, and floods otherwise |
| `BridgeFdb.RunBounded` | tools/ethoslip_lwip/lwip-2.1.0/netif/bridgeif_fdb.c:98-121 | the table never outgrows its array, and a full one turns away unknown addresses only |

## Left out

- MemHeap.Heap.Check: an aligned pointer into the middle of a block is excluded, because `mem_free` then reads user data as a header; NULL, unaligned, out-of-range and already freed block pointers are included.
- MemHeap.Heap.Free: the same pointers into the middle of a block are excluded.
- MemHeap.Heap.Trim: a pointer inside the heap must be live; `mem_trim` does not check it.
- PbufStore.Pool.Realloc: the mem_trim of a shrunk RAM pbuf's memory, and custom pbufs.
- PbufStore.Pool.Copy: with empty pbufs in a chain it is not said when the copy ends early with an error, only that success means the bytes arrived.
- PbufStore.Pool.AllocPool: pbuf memory is plain data; header space is a smaller first element, and reuse of addresses by the pool is any unused key.
- PbufRuns.RunCounted: a chain from the pool appears as single pbufs that are then linked, as the counts do not depend on the lengths.
- EthoslipIf.LowLevelOutput: frames longer than the 4000-byte buffer less the trailer are excluded; the code would write past the buffer.
- SerialLink.Uart.RecvChar: `read` returns any 1 to 4000 bytes until the stream ends; -1 and 0, and partial writes on the sending side, are not modelled.
- EthoslipIf.ReceiveFrame: what the receive task does with an accepted frame (pbuf allocation and the queue to the stack).
- EthoslipIf.OnlyFirstLost: a first frame that does not fit behind the stored noise is cut off, and whether the rest passes the check is left to `Good` in LinkDelivers.
- ChecksumChains.ChecksumOnCopy.Fill: each place is filled once and no piece is empty; filling a place again would count both contents.
- DnsResolver.Resolver.DnsCreateTxid: the random source comes up with an unused id sooner or later; `rand` itself is not modelled.
- DnsAnswers.AskingChecked: a query counts as sent when it is handed to UDP; that `dns_send` may find no memory for it is one more way to lose it.
- DnsResolver.Resolver.DnsRecv: parsing of the wire format; a packet is ignored, a server error, without usable answer, or an answer.
- Timeouts.TimeoutList.CheckTimeouts: a handler run may re-arm itself as a cyclic timer and make any `sys_timeout` and `sys_untimeout` calls, finitely many of them in one call of `sys_check_timeouts`; freeing of pending out-of-order TCP data between two handlers is not modelled.
- The libc and pool variants of `core/mem.c`, `mem_calloc`, the guard regions of MEM_OVERFLOW_CHECK, and the overflow of the statistics counters.
- RAM, ROM, REF and custom pbufs, `pbuf_header`, `pbuf_coalesce`, `pbuf_memcmp` and the search functions, and the queueing of pbufs.
- `dns_lookup` in the cache, local host lists, multicast names, source-port randomisation beyond success or failure of the pcb, NULL callbacks, and callbacks that call the resolver again.
- `lwip_poll`, `lwip_select`, options and address conversion of `api/sockets.c`, and the receive and event fields of a socket.
- `bridgeif_fdb_init` and the bridge's forwarding of frames.
- The rest of lwIP: `api_msg.c`, `api_lib.c`, `tcpip.c`, `altcp*.c`, `netifapi.c`, `netdb.c`, `raw.c`, `ip.c`, `zepif.c`, `init.c`, `stats.c`, `err.c`.
- The tty, TAP, pthread, FreeRTOS and Wi-Fi plumbing, the packet queue and `soft_timer`, and the sharing of lwIP state between the two threads of `ethoslip_main.c`.
- `key_xor`, `sbuf_key_xor` and the `wlan_api` frames, which allow only easy claims; the second copies of `slip.c`, `uart2.c` and the trailer code.
