# Verified models of the FX3 NCM firmware's core

The firmware turns a Cypress FX3 into a USB network adapter: `lib/ncm` packs Ethernet frames into USB NCM transfer
blocks, `lib/lwip` is the TCP/IP stack behind it, and `src/cyfx/cyfx_tx.c` holds the memory allocators the FX3 SDK calls
into. This project models the parts where correctness is not visible in any single function, and proves what they keep
over every input, every run or every interleaving. `dafny verify dfyconfig.toml` checks all of it.

Code that works in place is modelled in place (classes, arrays and loops with invariants), and each such method is proved
against a pure specification, about which the main results are then proved.

**Heap** (`HeapChain`, `HeapRuns`, `HeapMemory`, `HeapCalls`). `HeapMemory.Heap` works on `struct mem` headers at offsets
of `ram`; `HeapChain` is the chain of blocks they spell out. After any calls, but for a trim that cuts something not in
use, the blocks tile the heap, `prev` inverts `next`, no two free blocks touch, `lfree` is the lowest free block and
`used` the exact extent of the used blocks. That invariant makes the chain a function of the set of live blocks alone, so
malloc followed by free restores the heap exactly. Headers that leave the chain are never marked used, so mem_free accepts
live pointers and no others.

**DMA buffers** (`DmaBits`, `DmaPool`, `DmaOwners`, `DmaManager`, `MemCopy`, `InUseList`). `DmaManager.BufferManager`
works on 32-bit words and masks, `DmaPool` on the bitmap they stand for. The bitmap is exactly the marks of the live
buffers, whose lengths are stored nowhere; each buffer's 0 terminator stays clear while it lives. `DmaOwners` keeps the
buffers as they were handed out.

**Checksum** (`OnesComplement`, `Checksum`, `ChecksumChain`). The reference is the one's-complement sum of section 2 of
RFC 1071. The three versions and the pbuf-chain forms all equal it; the only limit is the real 32-bit overflow.

**NCM** (`NcmBlock`, `NcmLists`, `NcmTransmit`, `NcmReceive`). The byte layout of an NTB16 (sections 3.2.1 and 3.3.1 of
USB CDC NCM 1.0), the transmit side that fills blocks and the receive side that walks them. `NcmLists` keeps the list
index updates as written (`+=` where `=` was meant).

**Sockets** (`SocketTable`, `SocketRuns`, `SocketData`, `SocketReaders`, `SocketRaces`). The use-count protocol of
`LWIP_NETCONN_FULLDUPLEX`. Every critical section is one step, every access to a slot outside one another, and the results
hold for every interleaving of any number of threads, including the slot-by-slot scan of `alloc_socket`, which is not
atomic, and the unlocked loads and stores of `lastdata` by reads.

**DNS** (`DnsTable`, `DnsRuns`, `DnsResolver`, `DnsAge`, `DnsCache`, `DnsNames`, `DnsCompare`). The resolver table as a
state machine over queries, timer ticks, replies and server changes, and the encoding, comparison and skipping of names
(section 4.1.4 of RFC 1035).

## Where the code does less than promised

Each of these is kept as the code has it, with the exact condition and an input or run at which it shows.

- `mem_trim` never looks at the used flag: given a freed pointer, whether its header is still in the chain or was merged
  away, it breaks the heap if and only if there is something to cut (`HeapMemory.Heap.Trim`, `HeapCalls.Perform`, runs
  `HeapRuns.TrimOfFreed` and `HeapCalls.TrimOfMerged`). It also asserts against splitting the last block although the code
  behind the assertion handles it (`HeapMemory.TrimOfLastAsserts`).
- A DMA allocation with `searchPos` k > 0 overlooks runs, exactly those that straddle the start of word k
  (`DmaPool.SearchFailsIff`, `DmaPool.OverlookedRunsStraddle`, run `DmaPool.SearchOverlooks`). Freeing a pointer into the
  middle of a buffer gives away the lines behind it (`DmaOwners.FreeInsideGivesAway`): buffers as handed out stay disjoint
  throughout a run if and only if no allocation takes such lines (`DmaOwners.RunApartIff`, run
  `DmaOwners.HandedOutTwice`).
- Checksum versions 1 and 2 are right for any length if and only if their 32-bit sums did not wrap
  (`Checksum.Version1RightIff`, `Checksum.Version2RightIff`); four bytes beyond the documented length both can be wrong
  (`Checksum.WrongBeyond`).
- An NCM list loses half its capacity with the first pop (`NcmLists.CapacityLost`). `tx_usbd_ntb` is never cleared and
  `tx_free_ntb` never refilled, so no run transfers more than one block or accepts more than 16 datagrams
  (`NcmTransmit.Transmitter.Run`). `net_can_tx` says yes to a datagram no block can hold, and may then queue an empty
  block; both happen if and only if the size exceeds 3144 (`NcmTransmit.Transmitter.CanTx`, run
  `NcmTransmit.QueuesEmpty`).
- The receive walk keeps a finished block in hand and delivers its last datagram again (`NcmReceive.RoundTrip`). A
  malformed block makes it read outside the block, exactly as `NcmReceive.Receiver.Offer` says (example
  `NcmReceive.MalformedLeaves`).
- Two threads reading one socket can free the same buffer twice (`SocketRaces.DoubleFree`) or lose one
  (`SocketRaces.LostStoreRun`). A run frees every buffer at most once if and only if no read finishes one, and no close
  hands one over, that was freed or is being freed already (`SocketData.RunFreesOnceIff`). It loses a buffer if and only
  if some step takes away the last pointer to it: a write over it in the slot, or the end of a read that only peeked
  (`SocketData.RunLosesIff`). With one reader per slot at a time neither happens (`SocketReaders.OneReaderSafe`).
  `alloc_socket` clears `lastdata` after leaving the critical section, and loses a buffer if and only if the last thread
  to write there since stored one and no thread has another pointer to it (`SocketReaders.ClearLosesIff`, run
  `SocketRaces.ClearLost`).
- `dns_skip_name` finds the end of a well-formed name if and only if it is not the root (`DnsNames.SkipRightIff`).
  `dns_compare_name` checks neither the length of the name, nor the characters between labels, nor dots inside them, and
  takes the root for an empty label (`DnsCompare.CompareRightIff`, `DnsCompare.RootAccepted`, examples
  `DnsCompare.AcceptsOthers`). On any message it reads behind the host name exactly when the labels there are to read
  agree with the whole of it and go on (`DnsCompare.CompareOverrunsIff`, examples `DnsCompare.OverrunExamples`).
- `dns_enqueue` refuses a query although completed entries exist if their age is a multiple of 256 (`DnsRuns.PickIs`, run
  `DnsAge.Refused`).

## Model

| member | source | states |
|---|---|---|
| `HeapChain.RequestSizeExact` | lib/lwip/src/core/mem.c:844-856 | rounding with wrap-around refuses a request exactly when it exceeds the heap, and otherwise rounds up by less than 4 or to the minimum |
| `HeapChain.AllocKeepsInv` | lib/lwip/src/core/mem.c:886-928 | splitting or near-fit allocation keeps tiling, minimum sizes and coalescing |
| `HeapChain.AllocEffect` | lib/lwip/src/core/mem.c:886-928 | exactly one block goes live, of exactly the size asked for or whole if the rest would be too small for a block, and the used extent grows by its size |
| `HeapChain.AllocDisjoint` | lib/lwip/src/core/mem.c:886-928 | a new block overlaps no live block |
| `HeapChain.FreeKeepsInv` | lib/lwip/src/core/mem.c:473-510 | one merge forward and one backward are enough to coalesce again |
| `HeapChain.FreeEffect` | lib/lwip/src/core/mem.c:669-680 | free removes exactly its block from the live ones, and its extent from the statistic |
| `HeapChain.TrimKeepsInv` | lib/lwip/src/core/mem.c:753-810 | both trim cases keep the invariant |
| `HeapChain.FreedTrimBreaks` | lib/lwip/src/core/mem.c:753-804 | cutting a block that is free already tiles but leaves two free neighbours |
| `HeapChain.TrimEffect` | lib/lwip/src/core/mem.c:753-810 | a trim that cuts changes only the end of its own block and the statistic by the difference |
| `HeapChain.TrimCuts` | lib/lwip/src/core/mem.c:753-804 | trim of a used block leaves it exactly as large as asked, unless what it could give up is too little for a block and the block behind is in use; then nothing changes |
| `HeapRuns.FirstFit` | lib/lwip/src/core/mem.c:867-890 | the lowest block that fits |
| `HeapRuns.StepKeepsInv` | lib/lwip/src/core/mem.c:616-976 | a call keeps the invariant if and only if it is not a trim that cuts a freed block of the chain; refused sizes and any pointer to mem_free included |
| `HeapRuns.RunKeepsInv` | lib/lwip/src/core/mem.c:515-976 | over every run from mem_init, trims through headers of the chain and none that cuts a freed block, the blocks tile the heap, are coalesced and 4-aligned |
| `HeapRuns.ChainDeterminedByLive` | lib/lwip/src/core/mem.c:473-510 | two reachable heaps with the same live blocks are equal block by block |
| `HeapRuns.RunsWithSameLiveBlocksAgree` | lib/lwip/src/core/mem.c:515-976 | the heap has no memory: runs that leave the same blocks live leave the same chain |
| `HeapRuns.MallocFreeRestores` | lib/lwip/src/core/mem.c:616-976 | malloc, then free of that pointer, restores the whole chain |
| `HeapRuns.MallocFailsIff` | lib/lwip/src/core/mem.c:844-890 | mem_malloc fails exactly for an empty or refused request or if no free block is large enough |
| `HeapRuns.MallocGives` | lib/lwip/src/core/mem.c:844-928 | otherwise it gives the lowest such block, cut to size, and no other block changes hands |
| `HeapRuns.TrimGives` | lib/lwip/src/core/mem.c:698-804 | mem_trim of an owned pointer shrinks its block as far as it can, and no other |
| `HeapRuns.FreedNotLive` | lib/lwip/src/core/mem.c:651-667 | a pointer that was freed is not live: a second free is illegal |
| `HeapRuns.TrimOfFreed` | lib/lwip/src/core/mem.c:781-802 | malloc, malloc, free and a trim of the freed pointer leave two free neighbours |
| `HeapMemory.ChainLinkOk` | lib/lwip/src/core/mem.c:550-564 | mem_link_valid holds of every block of the chain |
| `HeapMemory.NoneFitsAbove` | lib/lwip/src/core/mem.c:870 | stopping the scan at MEM_SIZE_ALIGNED - size overlooks no block |
| `HeapMemory.LowestFreeAfterAlloc` | lib/lwip/src/core/mem.c:931-950 | lfree moves exactly when its block is taken, and then to the next free one |
| `HeapMemory.LowestFreeAfterFree` | lib/lwip/src/core/mem.c:672-675 | freeing can only lower lfree, to the freed block |
| `HeapMemory.PlugLfreeIdle` | lib/lwip/src/core/mem.c:487-504 | called from mem_free, plug_holes never has to move lfree |
| `HeapMemory.LowestFreeAfterTrim` | lib/lwip/src/core/mem.c:761-794 | the lfree updates of both trim cases are exact |
| `HeapMemory.FreeByJoins` | lib/lwip/src/core/mem.c:473-510 | the forward join followed by the backward join is the merge of the whole free stretch |
| `HeapMemory.FreeSettles` | lib/lwip/src/core/mem.c:669-680 | after mem_free the chain is coalesced and aligned, lfree the lowest free block and the statistic exact |
| `HeapMemory.TrimSettles` | lib/lwip/src/core/mem.c:753-804 | the same after mem_trim |
| `HeapMemory.Heap.constructor` | lib/lwip/src/core/mem.c:515-545 | mem_init establishes the invariant with one free block |
| `HeapMemory.Heap.Scan` | lib/lwip/src/core/mem.c:867-890 | from lfree up to the early stop it finds the first fit, or there is none |
| `HeapMemory.Heap.NextFree` | lib/lwip/src/core/mem.c:931-950 | the walk stops at the lowest free block or ram_end |
| `HeapMemory.Heap.Malloc` | lib/lwip/src/core/mem.c:830-976 | returns the lowest fitting block or NULL if none fits, counts the error, keeps links, lfree and statistic exact |
| `HeapMemory.Heap.PlugForward` | lib/lwip/src/core/mem.c:483-496 | header writes of the forward merge produce the joined chain; the header reaches to its end |
| `HeapMemory.Heap.PlugBackward` | lib/lwip/src/core/mem.c:498-509 | header writes of the backward merge produce the joined chain; the header merged away keeps its next |
| `HeapMemory.Heap.PlugHoles` | lib/lwip/src/core/mem.c:473-510 | both merges in turn, with lfree following a header that disappears |
| `HeapMemory.Heap.LinkValid` | lib/lwip/src/core/mem.c:550-564 | the test mem_link_valid makes on memory |
| `HeapMemory.Heap.Release` | lib/lwip/src/core/mem.c:669-680 | an accepted pointer's block is freed with the whole invariant restored |
| `HeapMemory.Heap.Free` | lib/lwip/src/core/mem.c:616-686 | frees live pointers, counts all others as illegal and changes nothing; the freed header, even if merged away, reaches to the end of the free stretch |
| `HeapMemory.Heap.OwnerAccepted` | lib/lwip/src/core/mem.c:626-667 | a live pointer passes every check of mem_free |
| `HeapMemory.Heap.AcceptedIffOwner` | lib/lwip/src/core/mem.c:626-667 | mem_free goes through for a pointer if and only if it is live |
| `HeapMemory.Heap.Shrink` | lib/lwip/src/core/mem.c:753-804 | the writes of both shrinking cases, through any header that was ever written |
| `HeapMemory.Heap.Trim` | lib/lwip/src/core/mem.c:698-820 | for any pointer outside the heap or behind a written header: result, new chain, illegal count, exactly when an assertion fires, that an owned block shrinks as far as it can, and that the heap is in order afterwards if and only if nothing was cut that nobody owns; otherwise no chain makes it so |
| `HeapMemory.StaleCutBreaks` | lib/lwip/src/core/mem.c:753-804 | cutting through a header that has left the chain leaves no chain with the statistic right |
| `HeapMemory.FreedCutBreaks` | lib/lwip/src/core/mem.c:753-804 | nor does cutting a free block of the chain leave a coalesced one |
| `HeapMemory.SameChain` | lib/lwip/src/core/mem.c:753-804 | writes off the chain, or that link back off it, leave memory spelling out the old chain or none |
| `HeapMemory.ChainUnique` | lib/lwip/src/core/mem.c:473-510 | memory spells out one chain only |
| `HeapMemory.Heap.HeadSays` | lib/lwip/src/core/mem.c:730-804 | for a header of the chain, what is cut and when an assertion fires is as the chain says |
| `HeapMemory.Heap.TrimBlock` | lib/lwip/src/core/mem.c:730-820 | the same once size and range are legal, with the statistic |
| `HeapMemory.Heap.MallocThenFree` | lib/lwip/src/core/mem.c:616-976 | malloc, then free of the result, leaves blocks, lfree, statistic and illegal count as they were |
| `HeapMemory.TrimOfLastAsserts` | lib/lwip/src/core/mem.c:790 | on a heap of one used block the assertion fires although cutting keeps the invariant |
| `HeapCalls.UsedIffOwned` | lib/lwip/src/core/mem.c:651-667 | the used flag of any header, in the chain or not, tells whether a block in use starts there |
| `HeapCalls.Perform` | lib/lwip/src/core/mem.c:616-976 | any call on the heap in memory keeps it in order if and only if it is not a trim that cuts something whose used flag is clear |
| `HeapCalls.Drive` | lib/lwip/src/core/mem.c:515-976 | so does any sequence of calls from mem_init on, up to the first such trim, after which no chain is right |
| `HeapCalls.TrimOfMerged` | lib/lwip/src/core/mem.c:781-802 | three mallocs, two frees that merge, and a trim of the second pointer, which breaks the heap |
| `DmaBits.MaskBits` | src/cyfx/cyfx_tx.c:806-811 | the mask expression has exactly the bits from start to end, up to a full word |
| `DmaBits.OrBits` | src/cyfx/cyfx_tx.c:818 | or with a mask, bit by bit |
| `DmaBits.AndNotBits` | src/cyfx/cyfx_tx.c:822 | and with a complemented mask, bit by bit |
| `DmaBits.AndOneBit` | src/cyfx/cyfx_tx.c:909 | the one-bit test reads that bit |
| `DmaPool.Lines` | src/cyfx/cyfx_tx.c:897-898 | two lines, or as many as the request needs and none to spare |
| `DmaPool.LinesLeast` | src/cyfx/cyfx_tx.c:897-898 | no fewer lines would do |
| `DmaPool.AllocKeepsInv` | src/cyfx/cyfx_tx.c:852-977 | live buffers stay disjoint and the bitmap exactly their marks |
| `DmaPool.FreeFindsEnd` | src/cyfx/cyfx_tx.c:1053-1066 | counting ones from any marked line of a buffer stops exactly at the buffer's last line |
| `DmaPool.LastLineClear` | src/cyfx/cyfx_tx.c:918-921 | no other buffer ever sets a live buffer's 0 terminator |
| `DmaPool.FreeKeepsInv` | src/cyfx/cyfx_tx.c:985-1079 | free clears exactly the marks of its own allocation |
| `DmaPool.FreeInsideShortens` | src/cyfx/cyfx_tx.c:1048-1068 | freeing a line inside a buffer keeps the bitmap exact for the buffer cut short; the lines behind are free |
| `DmaPool.FreeUnmarkedIdle` | src/cyfx/cyfx_tx.c:1053-1073 | freeing an unmarked line changes no bit |
| `DmaPool.BitmapDeterminedByLive` | src/cyfx/cyfx_tx.c:918-921 | the bitmap is a function of the live buffers |
| `DmaPool.AllocFreeRestores` | src/cyfx/cyfx_tx.c:852-1079 | alloc, then free, restores bitmap and live buffers |
| `DmaPool.SearchFailsIff` | src/cyfx/cyfx_tx.c:900-946 | allocation fails if and only if neither part of the split range has a run of size + 1 |
| `DmaPool.SearchFromTopComplete` | src/cyfx/cyfx_tx.c:900-946 | with searchPos 0, as after any free, if and only if the bitmap has none |
| `DmaPool.OverlookedRunsStraddle` | src/cyfx/cyfx_tx.c:931-943 | an overlooked run straddles the start of word searchPos; no run across the array end is used |
| `DmaPool.FoundAt` | src/cyfx/cyfx_tx.c:900-946 | the first long enough run from word searchPos on is the one found, before any run below |
| `DmaPool.SearchOverlooks` | src/cyfx/cyfx_tx.c:931-943 | four allocations, two frees and an allocation on a fresh pool of 64 lines, after which a request for two lines fails although three are clear |
| `DmaPool.RunKeepsInv` | src/cyfx/cyfx_tx.c:852-1079 | over every run, freeing any line included, the bitmap is exactly the marks of disjoint buffers: those handed out, cut short by frees inside them |
| `DmaOwners.KeepsLedger` | src/cyfx/cyfx_tx.c:852-1079 | every buffer handed out keeps a live front part until its own pointer is freed |
| `DmaOwners.FreeInsideGivesAway` | src/cyfx/cyfx_tx.c:1048-1068 | a free inside a buffer gives away exactly the lines behind the freed one |
| `DmaOwners.OthersGiveNothing` | src/cyfx/cyfx_tx.c:852-1079 | no other call gives lines away |
| `DmaOwners.CallKeepsApartIff` | src/cyfx/cyfx_tx.c:852-977 | buffers as handed out stay disjoint if and only if the call does not allocate lines given away |
| `DmaOwners.RunApartIff` | src/cyfx/cyfx_tx.c:852-1079 | so over a whole run, after every call |
| `DmaOwners.WholeBuffersApart` | src/cyfx/cyfx_tx.c:852-1079 | without frees inside buffers what is handed out is what is live, and always disjoint |
| `DmaOwners.HandedOutTwice` | src/cyfx/cyfx_tx.c:852-1079 | alloc, a free in the middle and another alloc on a fresh pool: two owners share two lines |
| `DmaManager.BufferManager.constructor` | src/cyfx/cyfx_tx.c:696-743 | a clear bitmap and an empty pool |
| `DmaManager.BufferManager.SetStatus` | src/cyfx/cyfx_tx.c:797-840 | sets or clears exactly [startPos, startPos + numBits) across words, and ends |
| `DmaManager.BufferManager.Scan` | src/cyfx/cyfx_tx.c:900-946 | the wrapping word-and-bit loop ends with the lowest run of the split search, or fails with it |
| `DmaManager.BufferManager.Alloc` | src/cyfx/cyfx_tx.c:852-977 | refines the pool's allocation; pointer, marks and searchPos |
| `DmaManager.BufferManager.CountOnes` | src/cyfx/cyfx_tx.c:1053-1066 | the counting loop counts the consecutive ones |
| `DmaManager.BufferManager.Free` | src/cyfx/cyfx_tx.c:985-1079 | refines the pool's free; refuses exactly addresses outside the region |
| `MemCopy.Copy` | src/cyfx/cyfx_tx.c:551-619 | memmove for every overlap and count, through unrolled and tail loops; nothing else changes |
| `InUseList.PushedLinked` | src/cyfx/cyfx_tx.c:338-347 | the header writes of an allocation link the new block at the end, both ways |
| `InUseList.UnlinkedLinked` | src/cyfx/cyfx_tx.c:396-406 | the writes of a free take out that block and leave the others linked in order |
| `InUseList.Tracker.Track` | src/cyfx/cyfx_tx.c:303-361 | appends a signed block and changes no other block but for its next link |
| `InUseList.Tracker.Untrack` | src/cyfx/cyfx_tx.c:368-412 | removes exactly that block, reports overwritten signatures and changes nothing but links in other headers |
| `InUseList.Tracker.CorruptionCheck` | src/cyfx/cyfx_tx.c:463-497 | succeeds if and only if every block in use lies in the heap with both signatures |
| `OnesComplement.Delivers` | lib/lwip/src/core/inet_chksum.c:79-114 | a 16-bit value congruent to the plain sum, zero only for zero, is the reference sum |
| `OnesComplement.RefIsPlain` | lib/lwip/src/core/inet_chksum.c:79-114 | the reference is congruent to the plain sum of words |
| `OnesComplement.PlainConcatSame` | lib/lwip/src/core/inet_chksum.c:259-294 | the sum of a concatenation: the second part is shifted by a byte behind an odd first part |
| `OnesComplement.OrdersSwapped` | lib/lwip/src/core/inet_chksum.c:132-173 | byte order independence |
| `OnesComplement.FoldTwice` | lib/lwip/src/core/inet_chksum.c:162-165 | two folds keep the number and leave 16 bits |
| `Checksum.Version1` | lib/lwip/src/core/inet_chksum.c:79-114 | what the byte-pair loop computes, wrap-around included |
| `Checksum.Version1Correct` | lib/lwip/src/core/inet_chksum.c:79-114 | is the reference while the sum fits 32 bits |
| `Checksum.Version2` | lib/lwip/src/core/inet_chksum.c:132-173 | what the word loop computes for either alignment, wrap-around included |
| `Checksum.Version2Correct` | lib/lwip/src/core/inet_chksum.c:132-173 | is the reference without wrap-around, for odd and even start |
| `Checksum.NoWrap` | lib/lwip/src/core/inet_chksum.c:116-131 | no 32-bit overflow up to and including 0x20000 bytes |
| `Checksum.Version2RightIff` | lib/lwip/src/core/inet_chksum.c:132-173 | for any int length, right if and only if the sum did not wrap |
| `Checksum.Version1RightIff` | lib/lwip/src/core/inet_chksum.c:79-114 | the same of version 1 and its sum in network order |
| `Checksum.VersionsAgreeIff` | lib/lwip/src/core/inet_chksum.c:79-255 | the three agree at any int length if and only if neither sum wraps |
| `Checksum.WrongBeyond` | lib/lwip/src/core/inet_chksum.c:79-173 | 131076 bytes of 255: versions 1 and 2 are both wrong |
| `Checksum.VersionsAgree` | lib/lwip/src/core/inet_chksum.c:79-173 | versions 1 and 2 equal the reference, hence version 3, up to 0x20000 bytes |
| `Checksum.Version3` | lib/lwip/src/core/inet_chksum.c:188-255 | equals the reference for every length and start address |
| `ChecksumChain.InetChksum` | lib/lwip/src/core/inet_chksum.c:554-558 | complement of the reference |
| `ChecksumChain.AddPbuf` | lib/lwip/src/core/inet_chksum.c:266-280 | one round keeps the sum, shifted by a byte exactly while the swapped flag is set |
| `ChecksumChain.SumChain` | lib/lwip/src/core/inet_chksum.c:259-283 | the loop sums the concatenation of all payloads |
| `ChecksumChain.InetChksumPbuf` | lib/lwip/src/core/inet_chksum.c:567-588 | for every split into pbufs, odd and empty ones included, the checksum of the whole |
| `ChecksumChain.SumFront` | lib/lwip/src/core/inet_chksum.c:398-430 | the partial loop sums the first chksum_len bytes, and exactly when its assertion fires |
| `ChecksumChain.SumAddresses` | lib/lwip/src/core/inet_chksum.c:309-363 | the halves of both addresses, folded |
| `ChecksumChain.ChksumPseudo` | lib/lwip/src/core/inet_chksum.c:259-363 | checksum of pseudo header and payload |
| `ChecksumChain.ChksumPseudoPartial` | lib/lwip/src/core/inet_chksum.c:398-511 | the same over the first chksum_len bytes of the payload |
| `ChecksumChain.StoredChecksumVerifies` | lib/lwip/src/core/inet_chksum.c:545-558 | a message with its checksum stored sums to all ones |
| `NcmBlock.OpenedPacked` | lib/ncm/tx.c:64-76 | a populated block is a well-formed NTB16 without datagrams and carries its sequence number |
| `NcmBlock.SlotsInOrder` | lib/ncm/net.c:31-36 | slots are 4-aligned, disjoint and cover from offset 56 on, up to padding |
| `NcmBlock.AppendedPacked` | lib/ncm/net.c:31-36 | appending to a block that carries ds gives one that carries ds and the new datagram, terminator kept |
| `NcmBlock.WirePacked` | lib/ncm/tx.c:94 | the first wBlockLength bytes of a block are all of it |
| `NcmLists.Push` | lib/ncm/struct.c:42-69 | appends while there is capacity, refuses otherwise; indices stay in range |
| `NcmLists.Pop` | lib/ncm/struct.c:71-90 | removes the oldest element; capacity is one from then on |
| `NcmLists.CapacityLost` | lib/ncm/struct.c:60 | a list popped once refuses a second element with a slot empty |
| `NcmTransmit.Partition` | lib/ncm/include/struct.h:31-36 | each block is in exactly one of USB slot, wait list, user slot and free list |
| `NcmTransmit.RoomInEmpty` | lib/ncm/tx.c:39-46 | an empty block has room exactly for sizes up to 3144 |
| `NcmTransmit.RoomIff` | lib/ncm/tx.c:39-46 | a datagram has room exactly if a well-formed block can carry it behind the others |
| `NcmTransmit.DatagramsAppend` | lib/ncm/net.c:31-36 | a datagram put into the open block joins the accepted ones at the end |
| `NcmTransmit.PlacedStart` | lib/ncm/tx.c:83-92 | taking a block for USB keeps the places of all blocks |
| `NcmTransmit.PlacedQueue` | lib/ncm/tx.c:50-55 | so does queueing the open block |
| `NcmTransmit.PlacedOpen` | lib/ncm/tx.c:57-62 | and opening the next free one, possible exactly while one is left |
| `NcmTransmit.OpenContent` | lib/ncm/tx.c:57-76 | opening a block changes no accepted datagram and nothing USB was given |
| `NcmTransmit.AppendContent` | lib/ncm/net.c:26-42 | appending adds one accepted datagram and changes nothing USB was given |
| `NcmTransmit.Populate` | lib/ncm/tx.c:64-76 | header and cleared table |
| `NcmTransmit.Append` | lib/ncm/net.c:30-36 | the block carries the new datagram behind the others |
| `NcmTransmit.Transmitter.constructor` | lib/ncm/net.c:50-59 | both blocks free, nothing accepted or sent |
| `NcmTransmit.Transmitter.FitsUser` | lib/ncm/tx.c:39-46 | true if and only if the open block has room |
| `NcmTransmit.Transmitter.TryStart` | lib/ncm/tx.c:79-95 | starts the oldest block if USB is free and there is data, and never a second time |
| `NcmTransmit.Transmitter.AcceptUser` | lib/ncm/tx.c:48-77 | queues the open block and opens a free one, with exactly when that fails and when an empty one is queued |
| `NcmTransmit.Transmitter.CanTx` | lib/ncm/net.c:15-24 | says yes exactly if the datagram fits or a block can be opened; a yes means room if and only if the size is at most 3144, and only beyond that an empty block is queued; after a no a transfer is under way |
| `NcmTransmit.Transmitter.Tx` | lib/ncm/net.c:26-42 | exactly when the datagram has room: appends it and gets a block on its way, or drops it without an open block |
| `NcmTransmit.Transmitter.Completed` | lib/ncm/net.c:74-80 | completion leaves a started block alone, starts one otherwise, and does neither when an empty packet has to follow |
| `NcmTransmit.Transmitter.Handle` | lib/ncm/net.c:15-86 | no call in between breaks the promise net_can_tx made |
| `NcmTransmit.Transmitter.Run` | lib/ncm/net.c:15-86 | over every run granted datagrams are packed once, in order; no empty block is queued; at most one transfer and 16 datagrams |
| `NcmTransmit.Transmitter.HostReceives` | lib/ncm/tx.c:94 | the transferred bytes read back as the first accepted datagrams |
| `NcmTransmit.QueuesEmpty` | lib/ncm/net.c:15-24 | asked twice for 3145 bytes, a fresh interface says yes twice and has queued an empty block |
| `NcmReceive.WalkSees` | lib/ncm/rx.c:27-34 | on a packed block the walk shows datagram after datagram and sees where they end |
| `NcmReceive.InsideIff` | lib/ncm/rx.c:27-34 | on any block: no read leaves it if and only if every byte of the entry, of the datagram it points to and, after an acceptance, of the next entry is in it |
| `NcmReceive.WalkAny` | lib/ncm/rx.c:27-38 | on any block with a readable table: entry after entry up to the first with a zero half, and then the last one again and again |
| `NcmReceive.RoundTrip` | lib/ncm/rx.c:18-42 | for every sequence of answers the k-th acceptance delivers the k-th datagram; pushed back on the last one and again after |
| `NcmReceive.MalformedLeaves` | lib/ncm/rx.c:27-29 | a block that names a table beyond its end is read outside |
| `NcmReceive.Receiver.Fetch` | lib/ncm/rx.c:20-24 | takes the oldest waiting block if none is in hand |
| `NcmReceive.Receiver.Offer` | lib/ncm/rx.c:25-41 | on any block: whether a read leaves it, else what is shown, and that it advances or pushes the block back after the last |
| `NcmReceive.Receiver.Update` | lib/ncm/rx.c:18-42 | both halves, on any block |
| `NcmReceive.Receiver.Walk` | lib/ncm/rx.c:18-42 | any number of calls on any block deliver what the specification says |
| `SocketTable.IncUsed` | lib/lwip/src/api/sockets.c:373-393 | counts a use unless a close is pending; asserts exactly at 255 |
| `SocketTable.FreeLocked` | lib/lwip/src/api/sockets.c:586-606 | the last use takes conn and data out, an earlier one leaves a note with the right kind |
| `SocketTable.Done` | lib/lwip/src/api/sockets.c:415-439 | drops a use and takes the parts out if it was the last one of a closed slot |
| `SocketTable.Table.SockIncUsed` | lib/lwip/src/api/sockets.c:373-393 | the critical section in place, one slot changed |
| `SocketTable.Table.FreeSocketLocked` | lib/lwip/src/api/sockets.c:586-606 | the same for freeing |
| `SocketTable.Table.DoneSocket` | lib/lwip/src/api/sockets.c:415-439 | the same for dropping a use |
| `SocketTable.Table.TrygetSocket` | lib/lwip/src/api/sockets.c:449-509 | a use is counted if and only if the descriptor is open and not being closed |
| `SocketTable.Table.AllocSocket` | lib/lwip/src/api/sockets.c:539-576 | the lowest free slot, or failure if and only if there is none |
| `SocketRuns.SlotStep` | lib/lwip/src/api/sockets.c:373-650 | a step that balances one slot's count and owners keeps the whole invariant |
| `SocketRuns.StepKeepsInv` | lib/lwip/src/api/sockets.c:373-650 | every step keeps: fd_used is the number of users, held conns stay, owners are conserved; only the overflow assertion can fire |
| `SocketRuns.Run` | lib/lwip/src/api/sockets.c:373-848 | the same over every interleaving |
| `SocketRuns.InitInv` | lib/lwip/src/api/sockets.c:373-848 | it holds of the empty table with any number of threads |
| `SocketRuns.GetKeepsInv` | lib/lwip/src/api/sockets.c:467-478 | the overflow assertion fires exactly with 255 users counted |
| `SocketRuns.GetHolds` | lib/lwip/src/api/sockets.c:449-509 | get_socket by one thread: the use counted and the netconn found, nothing if a close is noted or there is no such slot |
| `SocketRuns.ScanKeepsInv` | lib/lwip/src/api/sockets.c:547-574 | the non-atomic scan hands a slot to one creator only |
| `SocketRuns.ScanFinds` | lib/lwip/src/api/sockets.c:547-575 | whatever other threads do meanwhile, the scan takes the first slot it finds free and gives up only after it has found every slot not free |
| `SocketRuns.ScanAlone` | lib/lwip/src/api/sockets.c:547-575 | left alone it takes the lowest free slot, or gives up if and only if there is none |
| `SocketRuns.SocketOpens` | lib/lwip/src/api/sockets.c:1759-1776 | lwip_socket by one thread: a netconn of the kind asked for in the lowest free slot, or freed again if there is none |
| `SocketRuns.KeptIsFound` | lib/lwip/src/api/sockets.c:978-1037 | what a read leaves over is what the next one copies from |
| `SocketRuns.ReadToEnd` | lib/lwip/src/api/sockets.c:978-1042 | a read of all that was left over frees it once and leaves nothing |
| `SocketRuns.ReadMisses` | lib/lwip/src/api/sockets.c:981-1001 | a read that gets nothing changes nothing |
| `SocketRuns.NoUseAfterFree` | lib/lwip/src/api/sockets.c:410-439 | a netconn in use is in its slot, nobody frees it and it was not freed |
| `SocketRuns.HeldStays` | lib/lwip/src/api/sockets.c:410-439 | whatever others do, a held slot keeps its netconn and is not reallocated |
| `SocketRuns.FreedOnce` | lib/lwip/src/api/sockets.c:610-625 | no netconn is freed twice |
| `SocketRuns.LastUserFrees` | lib/lwip/src/api/sockets.c:415-439 | conn and data are handed over in the step that drops the last use of a closed slot and in no other |
| `SocketRuns.ClosedDrains` | lib/lwip/src/api/sockets.c:382-384 | after a close no use is added until the netconn is handed over |
| `SocketRuns.Quiescent` | lib/lwip/src/api/sockets.c:809-848 | with no call under way no close is outstanding and every netconn is open or was freed once |
| `SocketRuns.ReadKeepsInv` | lib/lwip/src/api/sockets.c:971-1048 | whatever a read does to left-over data, uses and netconns are kept |
| `SocketData.CommittedStep` | lib/lwip/src/api/sockets.c:415-1042 | a buffer becomes certain to be freed exactly when a read has read it, or its head, to the end or the last user takes it out of a closed slot |
| `SocketData.TracesStep` | lib/lwip/src/api/sockets.c:415-1042 | which steps add and take away pointers to a buffer; freeing turns a pointer into a free |
| `SocketData.StepFreesOnceIff` | lib/lwip/src/api/sockets.c:415-1042 | a step keeps every buffer freed at most once if and only if what it makes certain to be freed is not so already |
| `SocketData.StepLosesIff` | lib/lwip/src/api/sockets.c:560-1042 | a step loses a buffer if and only if it takes away its last pointer; lost once is lost for good |
| `SocketData.RunFreesOnceIff` | lib/lwip/src/api/sockets.c:415-1042 | over every run: freed at most once if and only if no step made a buffer certain to be freed for the second time |
| `SocketData.RunLosesIff` | lib/lwip/src/api/sockets.c:560-1042 | over every run: lost if and only if some step took away the last pointer |
| `SocketData.FinishFrees` | lib/lwip/src/api/sockets.c:415-1042 | what is certain to be freed is freed that often once the threads about to free go on |
| `SocketData.InitData` | lib/lwip/src/api/sockets.c:971-1048 | nothing is lost or freed in the empty table |
| `SocketData.QuietLostIff` | lib/lwip/src/api/sockets.c:971-1048 | with no call under way a buffer is lost if and only if it is in no slot and was not freed |
| `SocketReaders.StepKeepsData` | lib/lwip/src/api/sockets.c:978-1042 | a step of a thread that finds in its slot what it last saw keeps every buffer in one place |
| `SocketReaders.StepSettled` | lib/lwip/src/api/sockets.c:978-1042 | with one reader per slot no step detaches a reader from its slot |
| `SocketReaders.InOnePlace` | lib/lwip/src/api/sockets.c:978-1042 | then every buffer is freed at most once and none is lost |
| `SocketReaders.OneReaderSafe` | lib/lwip/src/api/sockets.c:978-1228 | over every run with at most one reader per slot at a time nothing is lost and every buffer is freed at most once |
| `SocketReaders.InitSettled` | lib/lwip/src/api/sockets.c:971-1048 | it holds of the empty table |
| `SocketReaders.CopyingNotFreed` | lib/lwip/src/api/sockets.c:1020-1022 | the buffer such a reader copies from is in its slot, not freed and not being freed |
| `SocketReaders.CreatedClean` | lib/lwip/src/api/sockets.c:547-563 | a slot just allocated has nothing left over |
| `SocketReaders.ClearLosesIff` | lib/lwip/src/api/sockets.c:560-563 | clearing lastdata loses a buffer if and only if the last write since the allocation stored one and the slot has the only pointer to it |
| `SocketRaces.DoubleFree` | lib/lwip/src/api/sockets.c:978-1042 | a schedule of two readers from the empty table on that frees one buffer twice |
| `SocketRaces.LostStore` | lib/lwip/src/api/sockets.c:978-1030 | after the second of two stores the first thread only peeks: what it received is lost |
| `SocketRaces.LostStoreRun` | lib/lwip/src/api/sockets.c:978-1030 | the whole schedule of two readers that both wait, from the empty table on |
| `SocketRaces.OverwriteHarmless` | lib/lwip/src/api/sockets.c:978-1042 | if both read to the end instead, each buffer is freed once |
| `SocketRaces.ClearLost` | lib/lwip/src/api/sockets.c:560-563 | a thread with an old descriptor stores and keeps a buffer before the creator clears: lost, from the empty table on |
| `DnsTable.TxidExists` | lib/lwip/src/core/dns.c:1019-1037 | pigeonhole: the search for an id ends within table size + 1 rounds |
| `DnsTable.CreatedTxidUnused` | lib/lwip/src/core/dns.c:1019-1037 | the id found belongs to no pending query |
| `DnsTable.CheckLocal` | lib/lwip/src/core/dns.c:1066-1137 | checking an entry touches only that entry, runs at most its own callback, and keeps its id unique |
| `DnsTable.RespondLocal` | lib/lwip/src/core/dns.c:1269-1372 | so does a reply |
| `DnsRuns.PickIs` | lib/lwip/src/core/dns.c:1438-1468 | first unused, else oldest completed entry, never a pending one; refusal exactly characterised |
| `DnsRuns.Match` | lib/lwip/src/core/dns.c:1213-1217 | the first pending query with this id |
| `DnsRuns.StepInv` | lib/lwip/src/core/dns.c:961-1526 | every call keeps: accepted callbacks are waiting or were run, once in all; pending ids are distinct |
| `DnsRuns.Run` | lib/lwip/src/core/dns.c:961-1526 | the same over every interleaving of queries, ticks, replies and server changes |
| `DnsRuns.InitInv` | lib/lwip/src/core/dns.c:337-340 | it holds of the empty table |
| `DnsRuns.CheckAdvances` | lib/lwip/src/core/dns.c:1072-1121 | the measure on servers, retries and timer drops with every check |
| `DnsRuns.StepAdvances` | lib/lwip/src/core/dns.c:961-1526 | each tick brings a waiting request nearer to its timeout and no call puts it off |
| `DnsRuns.QueryAdvances` | lib/lwip/src/core/dns.c:1438-1526 | dns_enqueue leaves every pending request and its entry unchanged |
| `DnsRuns.RunAdvances` | lib/lwip/src/core/dns.c:961-1526 | a waiting request is answered or has one tick less to go for every tick of the run |
| `DnsRuns.Deadline` | lib/lwip/src/core/dns.c:1066-1137 | an accepted request's callback is run exactly once within the ticks of all servers |
| `DnsRuns.NotBefore` | lib/lwip/src/core/dns.c:1066-1137 | with all servers set and no reply it waits through all ticks but the last: the bound is exact |
| `DnsRuns.UnansweredNull` | lib/lwip/src/core/dns.c:1102-1107 | without a message carrying an address callbacks are run with NULL only |
| `DnsRuns.AnswerReaches` | lib/lwip/src/core/dns.c:1156-1183 | an answer reaches the one request whose id and server match, its address is stored and its TTL capped |
| `DnsRuns.ReplyReaches` | lib/lwip/src/core/dns.c:1213-1373 | from the right server: an error turns the request to the next server if one is set, otherwise, and without an address, the callback is run with NULL at once; any other message changes nothing |
| `DnsRuns.StrayReply` | lib/lwip/src/core/dns.c:1213-1216 | a message with the id of no pending query changes nothing |
| `DnsRuns.ServerAnswers` | lib/lwip/src/core/dns.c:360-370 | after dns_setserver replies are accepted from the new address only |
| `DnsRuns.QueryAsks` | lib/lwip/src/core/dns.c:1394-1526 | an accepted query asks the first server under an unused id, or fails at once if that is not set; nothing else changes |
| `DnsRuns.ResendFailsIff` | lib/lwip/src/core/dns.c:1088-1121 | a timer that runs out fails the request exactly if the server asked again is not set or no further one is |
| `DnsCache.CacheExpires` | lib/lwip/src/core/dns.c:1122-1129 | an address with TTL n stays for n ticks of any run, one less each, and is gone with the n-th, unless a query takes the entry |
| `DnsCache.RunHistory` | lib/lwip/src/core/dns.c:1438-1526 | over every run the sequence number of an entry is that of the query that filled it, modulo 256 |
| `DnsCache.EvictsOldest` | lib/lwip/src/core/dns.c:1438-1526 | after any run a query that takes a completed entry takes the one filled by the earliest query, within 255 queries |
| `DnsResolver.Resolver.CreateTxid` | lib/lwip/src/core/dns.c:1019-1037 | the retry loop ends with the first unused id |
| `DnsResolver.Resolver.CallFound` | lib/lwip/src/core/dns.c:961-992 | runs the entry's callback once and clears it |
| `DnsResolver.Resolver.Send` | lib/lwip/src/core/dns.c:781-793 | without a server the request fails at once |
| `DnsResolver.Resolver.CheckEntry` | lib/lwip/src/core/dns.c:1066-1137 | refines the step on one entry |
| `DnsResolver.Resolver.CheckEntries` | lib/lwip/src/core/dns.c:1143-1150 | refines one tick of the table |
| `DnsResolver.Resolver.CorrectResponse` | lib/lwip/src/core/dns.c:1156-1183 | refines an answer with an address |
| `DnsResolver.Resolver.Answer` | lib/lwip/src/core/dns.c:1269-1372 | refines all kinds of reply |
| `DnsResolver.Resolver.Recv` | lib/lwip/src/core/dns.c:1213-1243 | refines the search for the entry and the address check |
| `DnsResolver.Resolver.Choose` | lib/lwip/src/core/dns.c:1438-1468 | the search loop finds the specified entry |
| `DnsResolver.Resolver.Enqueue` | lib/lwip/src/core/dns.c:1394-1526 | refines the whole of dns_enqueue |
| `DnsAge.ManyRounds` | lib/lwip/src/core/dns.c:1449-1450 | after k uncached queries the first completed entry has age k + 1 modulo 256 |
| `DnsAge.Refused` | lib/lwip/src/core/dns.c:1458-1462 | a run of 256 queries after which the next is refused although an entry is completed |
| `DnsNames.JoinedLabels` | lib/lwip/src/core/dns.c:810-826 | a name is its labels with dots between them |
| `DnsNames.ParseWire` | lib/lwip/src/core/dns.c:810-828 | labels written and parsed back are the same, and end where the encoding ends |
| `DnsNames.EncodeName` | lib/lwip/src/core/dns.c:810-828 | the loop writes the name moved by one with label lengths in place of dots, and nothing else |
| `DnsNames.EncodedRight` | lib/lwip/src/core/dns.c:810-828 | that is the wire form of the name's labels |
| `DnsNames.SkipName` | lib/lwip/src/core/dns.c:726-758 | the skip loop against its specification |
| `DnsNames.SkipFindsEnd` | lib/lwip/src/core/dns.c:726-758 | finds the end of every name but the root; a cut-off pointer ends one behind the message |
| `DnsNames.SkipRightIff` | lib/lwip/src/core/dns.c:726-758 | right on a well-formed name if and only if it is not the root |
| `DnsNames.SkipPointer` | lib/lwip/src/core/dns.c:738-740 | stops behind the two bytes of a pointer, after any labels |
| `DnsNames.SkipIs` | lib/lwip/src/core/dns.c:726-758 | on any bytes: the end of the name, a pointer at the very end counting as whole; the root is swallowed with the name behind it |
| `DnsCompare.CompareLabel` | lib/lwip/src/core/dns.c:688-703 | the inner loop decides equality but for case, within the message and the query's memory |
| `DnsCompare.LowerIff` | lib/lwip/src/core/dns.c:694 | characters count as equal exactly if they are, or are the same letter in both cases |
| `DnsCompare.CompareName` | lib/lwip/src/core/dns.c:669-717 | the compare loop against its specification, for any message and any memory |
| `DnsCompare.CompareIs` | lib/lwip/src/core/dns.c:669-717 | on a well-formed name other than the root: accepted, overrun or refused, by its labels |
| `DnsCompare.LeavesMemoryIff` | lib/lwip/src/core/dns.c:669-717 | on any message the memory of the query is left if and only if the labels there are to read, up to a zero byte, a pointer or the end, run over it |
| `DnsCompare.RootAccepted` | lib/lwip/src/core/dns.c:677-710 | a root question before a zero byte is accepted for every host name, with the wrong end |
| `DnsCompare.RootTakesNext` | lib/lwip/src/core/dns.c:677-710 | what becomes of a root question before any bytes: it is judged by the labels behind it |
| `DnsCompare.NameRoundTrip` | lib/lwip/src/core/dns.c:669-828 | both readers accept an encoded name and stop right behind it |
| `DnsCompare.SentNameAccepted` | lib/lwip/src/core/dns.c:669-828 | the same for what the loop of dns_send wrote, anywhere in a message |
| `DnsCompare.SameNameIff` | lib/lwip/src/core/dns.c:669-717 | same labels but for case if and only if accepted, equally long, dots between labels and none inside |
| `DnsCompare.CompareRightIff` | lib/lwip/src/core/dns.c:669-717 | right on a well-formed name exactly under these conditions; on the root exactly if the labels behind it neither match nor run over |
| `DnsCompare.PrefixAccepted` | lib/lwip/src/core/dns.c:704-710 | any leading labels of an accepted name are accepted |
| `DnsCompare.AcceptsOthers` | lib/lwip/src/core/dns.c:704-710 | three messages accepted for a name they do not carry |
| `DnsCompare.OverrunsIff` | lib/lwip/src/core/dns.c:693-704 | any labels run over the terminating zero exactly when they agree with the whole text and go on, in a later label or behind a zero byte of their own |
| `DnsCompare.CompareOverrunsIff` | lib/lwip/src/core/dns.c:669-717 | the loop reads behind it exactly for such messages, well-formed, cut off or neither |
| `DnsCompare.OverrunExamples` | lib/lwip/src/core/dns.c:693-704 | a label with a zero byte, a message cut off and the root before a label |

## Left out

- HeapRuns.StepKeepsInv: on the chain alone a trim is by a header of the chain; trims through headers that have left it need the memory and are in HeapMemory.Heap.Trim and HeapCalls.Drive.
- HeapRuns.RunKeepsInv: the same.
- HeapMemory.Heap.Trim: a pointer in front of which no header was ever written, or one overwritten with user data since, makes it read user data as a header, which is not modelled.
- HeapMemory.Heap.Free: headers are slots of their own, so user data that overwrites a stale header with something that looks like a used block is not modelled.
- NcmTransmit.Transmitter.Tx: when a datagram has no room, what is overwritten is not modelled.
- NcmTransmit.Transmitter.Completed: does not push rx_usbd_ntb to the receive side's free list.
- NcmTransmit.Transmitter.Run: USB only completes transfers that were started; notifications and control requests other than the active flag.
- NcmReceive.Receiver.Offer: when a read leaves the block, what is then read is not modelled.
- InUseList.Tracker.Untrack: takes a tracked block whose links are intact; after an overwritten header the links are not to be trusted.
- SocketRuns.Run: lwip_poll, lwip_select, socket options, FIONREAD and the netconns themselves; netconn_prepare_delete may succeed or fail at will; a buffer read in part counts as one buffer or, when pbufs at its head are freed, as what was read and the rest; the test and the load of lastdata at lib/lwip/src/api/sockets.c:978-979 count as one access.
- DnsRuns.Run: several requests per entry, random ids and ports, IPv6 fallback, mDNS and callbacks that call back into the resolver; parsing of a reply beyond its names is a parameter.
- Heap overflow checks, freeing from other contexts, pools (memp) and the mutexes around all allocators.
- Marking status bits beyond the region (src/cyfx/cyfx_tx.c:734-738), not reachable with the configured memory maps.
- lwip_chksum_copy, hardware checksum options and the dispatch by address family.
- Receive-side block ownership in lib/ncm, where pushed blocks stay in their slots.
- The FX3 start-up code, USB descriptors, the flash tool and the rest of lwIP.
