# Verification of the kernel's memory, network and scheduling core

This project models six parts of the kernel in Dafny and proves what they keep over whole runs.

| part | source | modules |
|---|---|---|
| frames, page tables, mmap, munmap, brk | `mm.c`, `kernel.c`, `sched.c` | `FrameAllocation`, `PageTables`, `VirtualMemory`, `MemoryManagement`, `AddressSpaces`, `PageLoops`, `MemoryCalls`, `ByteRanges`, `LostFrames`, `ProcessMemory` |
| TCP endpoint | `net/tcp.c` | `TcpBuffers`, `TcpConnection`, `TcpDelivery`, `TcpSending`, `TcpSockets` |
| DNS names, cache, dotted addresses | `net/dns.c`, `net/dns_utils.c` | `DnsNames`, `DnsCodec`, `DnsHostnames`, `DnsParser`, `DnsCompression`, `DnsCache`, `DottedDecimal` |
| Internet checksum, IP header, UDP datagram | `net/ip.c`, `net/udp_checksum.c`, `net/udp.c` | `InternetChecksum`, `IpPacket`, `UdpDatagram` |
| key stream buffering | `net/crypto/chacha20.c` | `ChaCha20` |
| recurrent network, round-robin scheduler | `liquid_nn.c`, `kernel.c` | `LiquidNet`, `Scheduler` |

`CTypes` writes the C integer types out over unbounded integers (with the wrap-around, the bitwise or,
and division that truncates toward zero); `CString` holds `memcpy` and the byte-order helpers of `lib/string.c`.

How the parts are built: code that works by updating memory is a class or a method over arrays and
fields, and its contract ties the new state to a function on values (`View() == Spec(old(View()))`).
The theorems are lemmas about those functions and about sequences of their steps. What an operation computes
is also said in terms that use none of its functions: bytes asked for, segments that may go, bytes of a packet.

Physical memory is one sequence of 64-bit words, 512 to a frame. The tables of all address spaces form
a forest: a table is named by its address space, its level and the leading bits of the pages it
serves, and `PageTables.Sound` says that memory really links the tables that way, that no two of them
share a frame, and that their frames are marked used. The abstract value of memory is, for each
address space, a partial map from virtual page (bits 12 to 47) to page-table entry: `PageTables.Leaf`.

## What the code does that its comments do not say

Each point is a lemma: the exact condition under which the code is right, and, where the code can be
wrong, a lemma with an input on which it is.

- When `sys_mmap` runs out of frames it releases the frames of the pages already mapped but leaves the
  pages mapped (kernel.c:1364-1373). Frame ownership survives a call if and only if the free frames
  suffice for all but the last page and one frame more, or not even for the first page, or the address is
  not page-aligned (`MemoryCalls.MmapKeepsOwnershipIff`, `MemoryCalls.StrandingIsReal`). Which frames are used
  after such a call is `LostFrames.FailedMmapGivesBack`.
- `sys_mmap` counts pages in 32 bits and rounds up in 64 (kernel.c:1361): a request of 2^44 bytes, or of nearly
  2^64, succeeds and maps nothing (`ByteRanges.HugeRequestIsReal`). With frames for the pages counted, every byte
  is mapped if and only if the length is at most 2^44 - 4096 (`ByteRanges.LengthIsCutIff`). `sys_munmap` counts the
  same way, and its addresses repeat after 4 GB (`ByteRanges.ClearedAfterIff`, `ByteRanges.HugeUnmapIsReal`).
- From an address that is not page-aligned, `sys_mmap` and `sys_brk` can leave the last bytes unmapped, because the
  length alone is rounded up: `ByteRanges.CoveredAfterIff` is the exact condition, `ByteRanges.UnalignedEndIsReal` a call.
- `sys_mmap` can report success without having mapped its last page: `map_page` does not report that
  it found no frame for a table (mm.c:140-149). `MemoryCalls.MmapSuccessMapsAllIff` says exactly when,
  `MemoryCalls.SuccessWithoutPageIsReal` is such a call.
- The frame taken for such a page stays used for good, as do the frames of pages that `sys_mmap` or
  `sys_brk` map over. `LostFrames.LeaksIff` is the exact condition for every call, on the state before it;
  `LostFrames.LeakIsReal` and `LostFrames.MapOverIsReal` are calls that leak in these two ways, and
  `LostFrames.UsedFramesAccounted` says what every used frame is used for after any run.
- `sys_munmap` from an address that is not page-aligned unmaps its pages but releases no frame
  (`free_page` refuses the address, mm.c:68): `PageLoops.UnmapPagesClearsRange`, `MemoryCalls.UnalignedUnmapIsReal`.
- A `sys_brk` that cannot grow the heap unmaps every page it got to, also those that were mapped before the
  call, so it restores the translations if and only if none of these pages was. It gives back all frames but those of
  tables if and only if none was free, or they ran out just after some pages with their tables and the break
  was page-aligned (`LostFrames.FailedBrkRestoresIff` has both conditions in terms of free frames before the call;
  `LostFrames.FailedBrkUnmapsIsReal`, `LostFrames.FailedBrkKeepsFrameIsReal`).
- Nothing ever drains `send_buf` (net/tcp.c:210-239), so a connection accepts 8192 bytes for sending in
  its lifetime. This is part of what `TcpConnection.UnackedDataIsRetained` states.
- The answer to `tcp_connect` does not set `send_ack` (net/tcp.c:493-502), which is 0 then. So until the first
  acknowledgement in ESTABLISHED, `tcp_send` sends nothing unless its first number is below the advertised window
  (`TcpSending.FirstSendWaitsIff`).
- `tcp_dequeue_segment` compares in 64 bits (net/tcp.c:385), so once sequence numbers wrap it can remove a segment
  that is not acknowledged, or keep one for ever that is. `TcpConnection.RemovalIsRightIff` says when it is
  right, `TcpConnection.WrappedDataIsDropped` and `TcpConnection.WrappingDataStays` are connections where it is not.
- `dns_parse_name` does not end on a packet with a cycle of compression pointers; parsing ends from every
  position if and only if every chain of pointers ends within as many steps as the packet has bytes
  (`DnsParser.ParsingEndsIff`, `DnsParser.SelfPointerRunsForever`); `DnsParser.HaltsIff` gives the condition for one position.
  It does not move `*pos` when a pointer led to the root label (net/dns.c:77-81), takes bytes 0x40 to 0xBF for
  label lengths, and accepts a name that runs to the end of the packet (`DnsParser.PositionAfterName`,
  `DnsParser.PositionCanStay`, `DnsParser.ParseRefinesDecode`).
- `dns_resolve` can put a second valid entry of one name in the cache. It does so if and only if its lookup
  misses, a server answers, and an entry other than the one overwritten already carries the name as it is
  stored (`DnsCache.ResolveKeepsDistinctIff`); a lookup misses such an entry only if its address is 0 or the
  name has more than 255 characters and is cut (`DnsCache.MissedNameIsCutOrZero`). `DnsCache.DoublingIsReal`
  has the runs: any name answered 0 twice, any long name resolved twice. Besides, an answer of 0 is
  stored as an entry that no lookup can tell from a miss (`DnsCache.ResolveKeepsProperIff`).
- `udp_checksum` makes the last odd byte the high byte of a raw little-endian word; section 2(B) of
  RFC 1071 would make it the low byte. `InternetChecksum.ByteOrderIndependentIff` gives the exact condition,
  `InternetChecksum.ByteOrderMatters` a message.
- `ip_send_packet` stores the checksum without `htons` (net/ip.c:143), so its packets pass
  `ip_validate_header` if and only if the plain sum of the header is divisible by 257 (then the two checksum
  bytes are equal), besides what length and source address have to meet (`IpPacket.SentPacketIsValidIff`,
  `IpPacket.SomePacketIsRejected`).
- A UDP socket bound to 0.0.0.0 sums source address 0 where the receiver sums the real one;
  `UdpDatagram.AnyAddressAcceptedIff` says when the datagram is accepted all the same,
  `UdpDatagram.AnyAddressIsDropped` has one that is not.
- `chacha20_init` packs key and nonce with the first byte highest, where section 2.3 of RFC 8439 packs them
  little-endian; the key stream repeats after 2^38 bytes (`ChaCha20.StreamRepeats`). `chacha20_xor` into a range
  that starts inside its input encrypts its own output from there on (`ChaCha20.OverlapFeedsBack`).
- `schedule` leaves two processes RUNNING, even if only the current one was, unless its caller took that one out
  of RUNNING first or nobody else is ready (`Scheduler.OneRunsAfterScheduleIff`, `Scheduler.TwoCanRun`).
- A process that left RUNNING is set RUNNING again when nobody else is ready (kernel.c:75-78), also one that has
  exited: `Scheduler.LeftStaysOutIff` says exactly when it stays out over a run, `Scheduler.ZombieRunsOn` is such a call.

## Model

| member | source | states |
|---|---|---|
| `FrameAllocation.FreeFrameExists` | mm.c:47-65 | `get_free_page` gives 0 exactly when no frame is free; otherwise an aligned address in [16 MB, 128 MB) of a frame that was free |
| `FrameAllocation.KernelNeverReleased` | mm.c:67-75 | over every run of `get_free_page` and `free_page` from `mm_init`, the first 4096 frames stay used |
| `FrameAllocation.UsedAreKernelOrLive` | mm.c:56-75 | over every such run the used frames are exactly the reserved ones and those handed out and not given back |
| `FrameAllocation.NoLiveFrameHandedOutTwice` | mm.c:56-75 | between two hand-outs of one address there is a `free_page` of it |
| `FrameAllocation.SetOneBit` | mm.c:28-41 | setting or clearing one bit of a bitmap byte changes that bit and no other |
| `FrameAllocation.MarkedUsed` | mm.c:28-32 | `set_page_used` on the packed bitmap adds that frame to the set of used frames and nothing else |
| `FrameAllocation.MarkedFree` | mm.c:37-41 | `set_page_free` on the packed bitmap removes that frame and nothing else |
| `FrameAllocation.FrameAllocator.IsPageUsed` | mm.c:19-23 | the bit test decides membership in the set of used frames |
| `FrameAllocation.FrameAllocator.SetPageUsed` | mm.c:28-32 | in place: the used set gains the frame |
| `FrameAllocation.FrameAllocator.SetPageFree` | mm.c:37-41 | in place: the used set loses the frame |
| `FrameAllocation.FrameAllocator.FindFirstFreePageIndex` | mm.c:47-54 | the least free frame, or SIZE_MAX when there is none |
| `FrameAllocation.FrameAllocator.GetFreePage` | mm.c:56-65 | address handed out and new used set are those of the allocator on sets |
| `FrameAllocation.FrameAllocator.FreePage` | mm.c:67-75 | releases the frame of an aligned address in range, ignores every other address |
| `FrameAllocation.FrameAllocator.Init` | mm.c:203-212 | from a cleared bitmap exactly the first 4096 frames are used |
| `PageTables.TablesDeterminedByMemory` | mm.c:81-95 | memory and the roots leave one reading of where the tables lie, so translations are a fact about memory |
| `PageTables.HungAt` | mm.c:86-91 | clearing a fresh frame and linking it changes no other word of any table |
| `PageTables.HangKeepsTranslations` | mm.c:86-91 | hanging a fresh table keeps the separation invariant and every translation of every address space |
| `PageTables.RootKeepsTranslations` | sched.c:69-77 | a cleared frame as new page directory is an empty address space and leaves the others alone |
| `PageTables.LeafWriteIsMapUpdate` | mm.c:152-175 | writing a page-table entry changes the translation of that page alone, in that address space alone |
| `VirtualMemory.AllocTakesFreeFrame` | mm.c:56-65 | allocating keeps the separation invariant and every translation, and fails exactly when nothing is free |
| `VirtualMemory.ReleaseKeepsSound` | mm.c:67-75 | releasing a frame that holds no table keeps the separation invariant and every translation |
| `VirtualMemory.IndicesOfAddress` | mm.c:100-103 | the four shift-and-mask indices of an address are the digits of its virtual page number |
| `VirtualMemory.AddressThenFlags` | mm.c:152 | flags within the low twelve bits, or-ed to an address, leave the address alone |
| `VirtualMemory.TableEnsuredWorks` | mm.c:81-95 | `get_or_create_table` finds or makes the table exactly when it exists or a frame is free, and no translation notices |
| `VirtualMemory.PathEnsuredWorks` | mm.c:139-149 | all tables of a page exist afterwards if and only if the free frames cover the missing ones; otherwise no frame is left |
| `VirtualMemory.PathEnsuredByCalls` | mm.c:139-149 | the walk over any number of levels is the three calls that `map_page` makes |
| `VirtualMemory.MapPageIsMapUpdate` | mm.c:131-153 | `map_page` refines a map update of one page of one address space, or changes no translation when frames run out |
| `VirtualMemory.UnmapPageIsMapRemoval` | mm.c:155-179 | `unmap_page` removes one page from one address space and touches no table and no frame |
| `MemoryManagement.MemoryManager.GetFreePage` | mm.c:56-65 | bitmap, memory and tables afterwards |
| `MemoryManagement.MemoryManager.FreePage` | mm.c:67-75 | bitmap afterwards, memory and tables unchanged |
| `MemoryManagement.MemoryManager.GetOrCreateTable` | mm.c:81-95 | the address of the table that memory is then linked to, or 0 with nothing changed |
| `MemoryManagement.MemoryManager.GetPhysicalAddress` | mm.c:97-129 | the walk through four levels answers frame plus offset of the translation of the address's page, or 0 without one |
| `MemoryManagement.MemoryManager.MapPage` | mm.c:131-153 | for any flags, the memory words written are those of the map update; a null directory changes nothing |
| `MemoryManagement.MemoryManager.UnmapPage` | mm.c:155-179 | the memory words written are those of the map removal |
| `MemoryManagement.MemoryManager.NewAddressSpace` | sched.c:69-77 | a frame allocated and cleared becomes an empty address space |
| `AddressSpaces.MapPageMapsOrFills` | mm.c:131-153 | with Present among the flags the page is mapped to the given frame, or frames ran out |
| `AddressSpaces.NewMappingKeepsOwned` | kernel.c:1363-1380 | mapping a fresh frame keeps: mapped frames are used, at or above 16 MB, private to one page, and hold no table |
| `PageLoops.MapPagesOutcome` | kernel.c:1362-1381 | how many iterations complete, and that they cost one frame a page and one a missing table, for any number of pages |
| `PageLoops.PagesApart` | kernel.c:1380 | different iterations address different virtual pages, in spite of the 32-bit product and wrap-around |
| `PageLoops.MapPagesMapsRange` | kernel.c:1362-1381 | with frames enough the loop maps exactly its pages, each to a frame that was free, and touches nothing else |
| `PageLoops.PageFreedWorks` | kernel.c:1411-1415 | one iteration of `sys_munmap` unmaps its page, and releases its frame exactly when the address is aligned |
| `PageLoops.UnmapPagesClearsRange` | kernel.c:1410-1416 | `sys_munmap` clears exactly its pages and releases exactly their frames (from an aligned address) |
| `MemoryCalls.MunmapUndoesMmap` | kernel.c:1352-1419 | mapping an unmapped aligned range and unmapping it restores every translation; the used frames grew by exactly the tables made |
| `MemoryCalls.RoundTripIsReal` | kernel.c:1352-1384 | a machine with four free frames meets every condition of that round trip for one page: the page and three tables |
| `MemoryCalls.MmapKeepsOwnershipIff` | kernel.c:1352-1384 | `sys_mmap`, out-of-memory path included, keeps frame ownership if and only if it does not release frames that stay mapped; the condition counts free frames |
| `MemoryCalls.StrandingIsReal` | kernel.c:1364-1373 | on a machine whose last four frames are free a two-page request does so |
| `MemoryCalls.MmapSuccessMapsAllIff` | kernel.c:1362-1383 | a successful `sys_mmap` has mapped all its pages if and only if the frames covered pages and tables |
| `MemoryCalls.LastPageMissing` | kernel.c:1380-1383 | otherwise it is the last page that is missing |
| `MemoryCalls.SuccessWithoutPageIsReal` | kernel.c:1362-1383 | on a machine with three free frames a one-page request succeeds and its page is not mapped |
| `MemoryCalls.UnalignedUnmapReleasesNothing` | kernel.c:1410-1416 | from an unaligned address `sys_munmap` clears its pages and every frame stays used |
| `MemoryCalls.UnalignedUnmapIsReal` | kernel.c:1410-1416 | a page mapped and then unmapped one byte further on: gone, and its frame still used |
| `MemoryCalls.SpawnKeepsOwned` | sched.c:58-91 | `create_process` keeps frame ownership, also when it gives the page directory back |
| `MemoryCalls.StoreKeepsOwned` | mm.c:56-65 | a store to a frame without a table keeps frame ownership and every translation |
| `MemoryCalls.StepKeepsOwnershipIff` | kernel.c:1352-1456 | each call of the run keeps frame ownership if and only if it is not such a `sys_mmap` |
| `MemoryCalls.BootedIsOwned` | mm.c:203-212 | the machine `mm_init` leaves satisfies the ownership invariant |
| `MemoryCalls.RunsKeepFramesApart` | kernel.c:1352-1456 | over every run from `mm_init`, of any number of processes: two pages never share a frame, mapped frames are used, at or above 16 MB and hold no table |
| `MemoryCalls.ReleasedFrameUnreachable` | kernel.c:1404-1419 | a frame `sys_munmap` releases is mapped nowhere afterwards |
| `ByteRanges.MeetsIff` | kernel.c:1380 | which pages a range of bytes meets, also where it wraps |
| `ByteRanges.PageCountIff` | kernel.c:1361 | the page count of a length is that of the pages holding so many bytes if and only if the length is at most 2^44 - 4096 |
| `ByteRanges.BreakIsBehind` | kernel.c:1358 | `heap_brk` moves by whole pages, behind the bytes asked for and less than a page further |
| `ByteRanges.MmapGrantsBytes` | kernel.c:1352-1384 | for any nonzero length at an aligned address, with frames for the pages holding so many bytes and for tables: the call succeeds, every byte is mapped to a frame that was free, with the write, execute and private bits as asked, and no page without one of the bytes changes |
| `ByteRanges.CoveredAfterIff` | kernel.c:1361-1383 | a `sys_mmap`, or a heap growth, that reports success has mapped every byte if and only if the free frames covered its pages and tables, and the bytes keep within so many pages or the next one was mapped before |
| `ByteRanges.LengthIsCutIff` | kernel.c:1361 | with frames for the pages counted, every byte is mapped if and only if the length is at most 2^44 - 4096 |
| `ByteRanges.HugeRequestIsReal` | kernel.c:1361-1383 | a length of 2^44, or within a page of 2^64, succeeds on every machine and maps nothing |
| `ByteRanges.UnalignedEndIsReal` | kernel.c:1361-1383 | a `sys_mmap` of 4096 bytes from the middle of a page succeeds and leaves the last of them unmapped |
| `ByteRanges.FlagsAsAsked` | kernel.c:1375-1378 | the low bits of an entry are Present and one bit for each request, and no others |
| `ByteRanges.MunmapClears` | kernel.c:1408-1416 | `sys_munmap` removes exactly the translations of the pages within its reach: whole pages, modulo 2^44 bytes, at most 4 GB |
| `ByteRanges.ClearedAfterIff` | kernel.c:1408-1416 | no byte of the range is mapped afterwards if and only if no page of it beyond that reach was mapped; up to 4 GB the reach is the range |
| `ByteRanges.HugeUnmapIsReal` | kernel.c:1408-1416 | a length of 2^44, or within a page of 2^64, unmaps nothing |
| `LostFrames.MapPagesSettle` | kernel.c:1362-1381 | however the mapping loop ends, its finished pages have fresh frames, and at most one more frame was taken that is neither mapped nor a table |
| `LostFrames.SettledLoses` | kernel.c:1362-1381 | a mapping loop loses exactly the frames of the pages it maps over and that one |
| `LostFrames.GoneLoses` | kernel.c:1410-1416 | an unmapping loop loses exactly the frames it unmaps from an unaligned address |
| `LostFrames.SpawnLoses` | sched.c:69-91 | `create_process` sets exactly one frame aside, for the registers, and only if it gets both |
| `LostFrames.StepLoses` | kernel.c:1352-1456 | for every call, the frames used but neither reserved, tables nor mapped are the earlier ones, the ones it leaks and the register frame of a new process |
| `LostFrames.LeaksIff` | kernel.c:1352-1456 | a call leaks some frame if and only if, by the free frames, missing tables and mapped pages before it: it maps over a mapped page, one of its pages gets a frame but not its tables, it unmaps a mapped page at an unaligned address, or a heap growth from an unaligned break fails |
| `LostFrames.LeakIsReal` | kernel.c:1362-1383 | a `sys_mmap` of one page that leaks its frame |
| `LostFrames.MapOverIsReal` | kernel.c:1362-1383 | a `sys_mmap` over a mapped page, whose first frame is lost |
| `LostFrames.LostAfterRun` | kernel.c:1352-1456 | over every run the lost frames are those lost before, leaked by some call, or taken for registers: none is ever given back |
| `LostFrames.NoneLeaksIff` | kernel.c:1352-1456 | no frame is leaked in a run if and only if none of its calls is leaky when made |
| `LostFrames.UsedFramesAccounted` | kernel.c:1352-1456 | after every run from `mm_init` each used frame is reserved, a table, mapped, a register frame or leaked, and the last two kinds are none of the others |
| `LostFrames.FramesFreedExactly` | kernel.c:1366-1371 | the out-of-memory path releases, from an aligned address, exactly the frames of the pages it goes through |
| `LostFrames.FailedMmapGivesBack` | kernel.c:1364-1373 | after a `sys_mmap` that fails at an aligned address the used frames have grown by the tables made and the frame spilled for the last page, if any; the pages it mapped stay mapped |
| `LostFrames.BrkGrowsIff` | kernel.c:1432-1445 | the heap grows if and only if it needs no page, or the frames cover all pages but the last, with their tables, and one more |
| `LostFrames.FailedBrkRestoresIff` | kernel.c:1432-1445 | a `sys_brk` that cannot grow restores every translation if and only if no page it got to, counted in free frames, was mapped; the used frames grew by exactly the tables made if and only if the frames ran out just after some pages with their tables and the break was aligned, or at once |
| `LostFrames.FailedBrkUnmapsIsReal` | kernel.c:1437-1442 | a growth by two pages, the first mapped before, that fails and unmaps it |
| `LostFrames.FailedBrkKeepsFrameIsReal` | kernel.c:1432-1445 | a growth by two pages that fails with three frames left and keeps more than tables |
| `ProcessMemory.Process.SysMmap` | kernel.c:1352-1384 | which bytes are mapped afterwards, with which bits, and when a reported success covers them all; result, `heap_brk` and memory; the exact condition under which the process stays valid |
| `ProcessMemory.Process.FreeDone` | kernel.c:1364-1373 | the out-of-memory path releases the frames of the finished pages and leaves memory as it is |
| `ProcessMemory.Process.SysMunmap` | kernel.c:1404-1419 | the translations of exactly the bytes within reach are gone; result and memory afterwards; always keeps the process valid |
| `ProcessMemory.Process.SysBrk` | kernel.c:1421-1456 | result, new break and memory afterwards, and when the bytes between old and new break are all mapped; a failed growth is rolled back; always keeps the process valid |
| `ProcessMemory.Process.RollBack` | kernel.c:1436-1443 | the rollback loop is the unmapping loop over the pages mapped so far |
| `TcpBuffers.EnqueueAppends` | net/tcp.c:65-74 | copying in at `tail`, wrapped or not, appends to the bytes held |
| `TcpBuffers.DequeueDrops` | net/tcp.c:85-96 | taking from `head`, wrapped or not, gives the oldest bytes and leaves the rest |
| `TcpBuffers.TcpBuffer.Enqueue` | net/tcp.c:60-77 | contents grow by the data, or a refusal changes nothing; `tail == (head + used) % size` is kept |
| `TcpBuffers.TcpBuffer.Dequeue` | net/tcp.c:80-99 | the bytes given out and the contents left are the two parts of the old contents |
| `TcpBuffers.BufferIsFifo` | net/tcp.c:60-99 | over every sequence of calls the bytes taken then held are the bytes accepted, in order |
| `TcpConnection.OffsetOfNumber` | net/tcp.c:533 | in a stream under 2^32 bytes a sequence number names one offset |
| `TcpConnection.EventKeepsInOrder` | net/tcp.c:460-591 | every segment, `tcp_send` and `tcp_recv` keeps the delivery invariant |
| `TcpConnection.DeliveryIsInOrder` | net/tcp.c:242-252 | under any loss, repetition and reordering the bytes received and buffered are a prefix of the peer's stream, and `recv_seq` numbers its next byte |
| `TcpDelivery.CarriedData` | net/tcp.c:406-408 | the data of a segment are the bytes behind as many words as the upper half of its offset byte says |
| `TcpDelivery.EventDelivers` | net/tcp.c:533-544 | what is delivered grows by exactly the data of a segment, without FIN or RST, in ESTABLISHED, that is next in the stream, not empty and fits the buffer; no other event changes it |
| `TcpDelivery.RecvGives` | net/tcp.c:242-252 | `tcp_recv` hands out the oldest bytes, as many as asked for if there are so many |
| `TcpDelivery.StreamGetsThrough` | net/tcp.c:242-544 | once all pieces of the peer's stream have arrived in order, each with room for it, amid any repetition and reordering, the whole stream is delivered, and one large `tcp_recv` hands it out |
| `TcpDelivery.MovesIff` | net/tcp.c:460-591 | a segment moves the connection if and only if it carries a flag that its state expects; which moves there are, and where they set `recv_seq` |
| `TcpDelivery.ConnectOpens` | net/tcp.c:187-502 | the answer to `tcp_connect` establishes the connection with the numbers it acknowledges and announces; the SYN is in the table until acknowledged |
| `TcpDelivery.SimultaneousOpenAgrees` | net/tcp.c:503-515 | two endpoints that connect to each other end up established, each expecting the number the other sends next |
| `TcpDelivery.EndIsFinal` | net/tcp.c:491-594 | once a connection is closing or closed, nothing more is sent, stored or delivered over any run |
| `TcpDelivery.FinThenAckCloses` | net/tcp.c:518-589 | a FIN and then an ACK close the connection |
| `TcpConnection.BackToBackRetains` | net/tcp.c:350-375 | a chain of segments with adjoining numbers holds, oldest first, that slice of the data sent |
| `TcpConnection.KeptIsBackToBack` | net/tcp.c:378-400 | removing acknowledged segments takes data from the old end only, and nothing above the number acknowledged |
| `TcpConnection.SendLoopRetains` | net/tcp.c:221-236 | however far the sending loop gets, what it sent is in the outstanding table in full |
| `TcpConnection.UnackedDataIsRetained` | net/tcp.c:210-239 | over every run the outstanding data, oldest first, are the bytes sent from some acknowledged number up to `send_seq`; at most 8192 bytes are ever sent |
| `TcpConnection.KeptIsAbove` | net/tcp.c:385-397 | what an acknowledgement keeps ends above it |
| `TcpConnection.AckedDataIsReleased` | net/tcp.c:545-549 | over every run in which no acknowledgement is for numbers not yet sent, no data segment acknowledged in full stays in the table |
| `TcpConnection.EstablishedIsUnused` | net/tcp.c:491-515 | whatever events establish a connection opened by `tcp_connect`, no data are queued, sent or stored by then |
| `TcpConnection.StoreSinceConnect` | net/tcp.c:187-239 | both halves for whole connections, from `tcp_connect` on |
| `TcpConnection.KeptIff` | net/tcp.c:378-400 | an entry stays exactly when its end, added without wrapping, exceeds the number acknowledged |
| `TcpConnection.RemovalIsRightIff` | net/tcp.c:385 | counted without wrapping, a segment is removed just when it is acknowledged if and only if its first byte and the acknowledgement lie between the same two wraps, or the acknowledgement has wrapped but lies inside the segment |
| `TcpConnection.WrappedDataIsDropped` | net/tcp.c:385-392 | a connection whose unacknowledged segment behind a wrap is removed |
| `TcpConnection.WrappingDataStays` | net/tcp.c:385-397 | a connection whose segment across the wrap no acknowledgement removes |
| `TcpSending.SendCountIff` | net/tcp.c:210-239 | which calls `tcp_send` refuses; otherwise it sends the data cut every 1460 bytes up to the first segment whose number lies a window or more beyond the number acknowledged, or that gets no memory; what it returns and what it records |
| `TcpSending.FlightIsBounded` | net/tcp.c:225 | what is in flight never passes the window by 1460 bytes or more |
| `TcpSending.OpenWindowCount` | net/tcp.c:221-238 | with nothing in flight and memory, a window of w bytes takes whole segments until w is reached, or all the data |
| `TcpSending.WindowIsLast` | net/tcp.c:593 | over every run the window is the one the last segment advertised |
| `TcpSending.AckIsLast` | net/tcp.c:545-549 | over every run `send_ack` is the number of the last segment whose acknowledgement is taken |
| `TcpSending.FirstSendWaitsIff` | net/tcp.c:225-228 | while `send_ack` is 0, a call sends nothing if and only if its first number is not below the window |
| `TcpSockets.TcpSocket.EnqueueSegment` | net/tcp.c:351-375 | the linked list gains the segment in front, or stays when there is no memory |
| `TcpSockets.TcpSocket.DequeueSegment` | net/tcp.c:378-400 | unlinking in place leaves exactly the segments that end above the acknowledged number, in order |
| `TcpSockets.TcpSocket.Connect` | net/tcp.c:187-207 | the state after `tcp_connect` |
| `TcpSockets.TcpSocket.Send` | net/tcp.c:210-239 | state and count afterwards, for any pattern of failed allocations: those that `TcpSending.SendCountIff` describes |
| `TcpSockets.TcpSocket.Recv` | net/tcp.c:242-252 | bytes given out and state afterwards |
| `TcpSockets.TcpSocket.HandlePacket` | net/tcp.c:491-594 | the state after a segment for this socket, in every connection state of an active socket, data length taken modulo 2^64 as the code computes it: the state that `TcpDelivery.EventDelivers` and `TcpDelivery.MovesIff` describe |
| `DnsNames.JoinSplit` | net/dns.c:41-58 | splitting a name at its dots and joining the labels gives the name back |
| `DnsNames.IsValidHostname` | net/dns_utils.c:17-45 | the scan accepts exactly the names of 1 to 253 characters whose labels are 1 to 63 letters, digits or hyphens |
| `DnsHostnames.ValidHostnameIff` | net/dns_utils.c:17-45 | a name is accepted if and only if it has at most 253 characters, all letters, digits, hyphens or dots, no dot at either end or beside another, and a dot among any 64 characters in a row |
| `DnsCodec.EncodedAreSplit` | net/dns.c:41-58 | the labels encoded are those between the dots, but for an empty last one |
| `DnsCodec.EncodesIff` | net/dns.c:45-46 | encoding succeeds if and only if no part between two dots has more than 63 bytes |
| `DnsCodec.EncodeName` | net/dns.c:34-63 | fails exactly when a label exceeds 63 bytes; else writes each label behind its length, then 0, and nothing behind |
| `DnsParser.ParseRefinesDecode` | net/dns.c:66-116 | the parser succeeds just when a recursive decoder of labels and pointers does and the name fits, and gives the labels joined by dots |
| `DnsParser.PositionAfterName` | net/dns.c:77-112 | where each way of succeeding leaves `*pos` |
| `DnsParser.PositionCanStay` | net/dns.c:77-81 | a three-byte packet on which a pointer is followed and `*pos` stays |
| `DnsParser.ParsingEndsIff` | net/dns.c:74-108 | parsing ends from every position if and only if every chain of pointers in the packet ends within as many steps as it has bytes |
| `DnsParser.SettlesIff` | net/dns.c:82-93 | a chain of pointers that ends does so within as many steps as the packet has bytes |
| `DnsParser.HaltsIff` | net/dns.c:74-108 | parsing from one position ends if and only if the chain of pointers there ends, and the chain behind every label read while the name has room |
| `DnsParser.HaltsWithinIff` | net/dns.c:74-108 | if it ends, it does so within a number of steps given by the lengths of packet and buffer |
| `DnsParser.BackwardPointersHalt` | net/dns.c:74-108 | in particular when pointers lead strictly backwards, by room left in the name and then pointers left |
| `DnsParser.SelfPointerRunsForever` | net/dns.c:82-93 | a two-byte packet on which it does not end |
| `DnsParser.HostnameRoundTrip` | net/dns.c:34-116 | every accepted hostname, encoded anywhere in a packet, is parsed back with `*pos` just past the root label |
| `DnsParser.HostnameEncodes` | net/dns.c:34-63 | for an accepted hostname the encoder succeeds and writes strlen + 2 bytes |
| `DnsCompression.CompressedNameParses` | net/dns.c:66-116 | a name whose labels lie in pieces, each ending in the two bytes of a pointer to the next, is parsed in full for any number of pointers to anywhere in the packet |
| `DnsCompression.CompressedHostnameRoundTrip` | net/dns.c:82-93 | a hostname cut after any label, with the bytes 0xC0 + t / 256 and t % 256 there and the rest at t, is parsed back |
| `DnsCompression.NameMayEndThePacket` | net/dns.c:74-115 | a name that ends with the packet, without a root label, is accepted, and `*pos` stays |
| `DnsParser.ParseName` | net/dns.c:66-116 | in place on the caller's buffer, within its bounds: the result of the machine, terminated by 0; `*pos` unchanged on failure; what names that gives is said of the bytes by `DnsCompression.CompressedNameParses` |
| `DnsCache.LookupZeroIff` | net/dns.c:408-419 | in a proper cache a lookup misses exactly for names no valid entry has |
| `DnsCache.OneVictim` | net/dns.c:382-397 | the entry to overwrite is determined: first unused, or else first of the oldest |
| `DnsCache.ReplaceKeepsProperIff` | net/dns.c:399-405 | overwriting keeps names distinct and addresses nonzero exactly when the address is nonzero and no other entry has the cut name |
| `DnsCache.ReplaceKeepsDistinctIff` | net/dns.c:399-405 | overwriting keeps names distinct exactly when no other entry has the cut name |
| `DnsCache.ResolveKeepsDistinctIff` | net/dns.c:306-347 | from any cache of distinct names `dns_resolve` doubles a name if and only if its lookup misses, a server answers and another entry carries the name as stored |
| `DnsCache.MissedNameIsCutOrZero` | net/dns.c:408-419 | a stored name is missed only if it is cut or its entry has address 0 |
| `DnsCache.ResolvedTwiceDoublesIff` | net/dns.c:306-347 | one name resolved twice from an empty cache is stored twice exactly when it is cut or the answer is 0 |
| `DnsCache.DoublingIsReal` | net/dns.c:306-347 | there are such runs, for every long name and for every name answered 0 |
| `DnsCache.ResolveKeepsProperIff` | net/dns.c:306-347 | the same for a whole `dns_resolve`, as a condition on name, answer and cache before the call |
| `DnsCache.CacheAgreesWithMap` | net/dns.c:306-347 | over every run with reasonable names and answers, names are distinct and a lookup gives the address last stored or a miss |
| `DnsCache.PrimaryWins` | net/dns.c:324-328 | after a miss, an answer of the primary server is returned, and no other is stored |
| `DnsCache.SecondaryHelps` | net/dns.c:330-346 | the secondary server counts only if it is set and the primary does not answer; else 0 is returned and nothing stored |
| `DnsCache.StoredNameIsFound` | net/dns.c:399-419 | a name just stored is found by its first 255 characters |
| `DnsCache.FlushedMisses` | net/dns.c:421-428 | after `dns_flush_cache` every lookup misses |
| `DnsCache.SurvivesIff` | net/dns.c:379-406 | under a clock that moves on, an entry survives a run of additions if and only if there are no more of them than entries unused, older, or as old and before it |
| `DnsCache.DnsResolver.CacheLookup` | net/dns.c:408-419 | the address of the first valid entry of the name, or 0 |
| `DnsCache.DnsResolver.CacheAdd` | net/dns.c:379-406 | overwrites the first unused entry, or one of least timestamp when all are used, or returns -1 when all carry the largest timestamp |
| `DnsCache.DnsResolver.FlushCache` | net/dns.c:421-428 | every entry invalid, addresses and timestamps kept |
| `DnsCache.DnsResolver.Resolve` | net/dns.c:306-347 | cache first, then the primary and the secondary server; what is returned and what is stored |
| `DottedDecimal.ValueOfDecimal` | net/dns_utils.c:107-111 | reading a printed number gives the number |
| `DottedDecimal.StringToIp` | net/dns_utils.c:72-101 | the scan yields the address of four digit fields of value at most 255, and 0 for every other string |
| `DottedDecimal.DottedRoundTrip` | net/dns_utils.c:72-114 | parsing undoes printing for every 32-bit address |
| `DottedDecimal.FieldsInMemory` | net/dns_utils.c:96-100 | the four fields lie in memory in the order in which they are written |
| `DottedDecimal.DecimalDigits` | net/dns_utils.c:107-111 | the numeral printed has the decimal digit of each place there, and no idle zero in front |
| `DottedDecimal.LeadingZeros` | net/dns_utils.c:79-85 | zeros in front of a field change nothing |
| `CString.Swap32IsInvolution` | lib/string.c:37-50 | `htonl` is its own inverse |
| `CString.LongIsItsBytes` | lib/string.c:37-50 | `htonl` turns the four bytes of a number round, so that it lies in memory first byte highest |
| `CString.Memcpy` | lib/string.c:3-8 | exactly the range named changes, to the source bytes |
| `InternetChecksum.IpChecksum` | net/ip.c:29-50 | for every length the loop computes the complement of the one's-complement sum of the big-endian words |
| `InternetChecksum.FoldAll` | net/ip.c:36-46 | carry folding ends with a 16-bit number of the same residue modulo 65535, 0 only for 0 |
| `InternetChecksum.AddCarryIsOnesSum` | net/udp_checksum.c:22-23 | one end-around carry per word keeps the one's-complement sum |
| `InternetChecksum.TotalIsNumber` | net/ip.c:29-50 | the sum of a message is, modulo 65535, the message read as one number, with a zero byte behind an odd length |
| `InternetChecksum.ChecksumIsResidue` | net/ip.c:29-50 | the checksum is the one 16-bit number that takes the message, read as a number, to a multiple of 65535, and 65535 only for all zeros |
| `InternetChecksum.UdpChecksum` | net/udp_checksum.c:4-41 | for every length the loops compute the complement of the one's-complement sum of pseudo-header and raw words |
| `InternetChecksum.ChecksumVerifies` | net/ip.c:142-143 | with its checksum written in word order into a zeroed field, every message sums to a checksum of 0 |
| `InternetChecksum.LittleIsTimes256` | net/udp_checksum.c:26-31 | raw little-endian words sum to 256 times the big-endian sum modulo 65535 |
| `InternetChecksum.ByteOrderIndependentIff` | net/udp_checksum.c:26-38 | raw words give the byte swap of the sum over `ntohs` words if and only if the length is even or the last byte is 0 |
| `InternetChecksum.ByteOrderMatters` | net/udp_checksum.c:33-38 | a one-byte message whose two sums are not byte swaps of each other |
| `InternetChecksum.RawStoreVerifiesIff` | net/ip.c:143 | stored without `htons`, the checksum verifies if and only if its two bytes are equal |
| `InternetChecksum.EqualBytesIff` | net/ip.c:143 | they are equal exactly when the plain sum is divisible by 257 |
| `IpPacket.BuildPacket` | net/ip.c:117-143 | the packet built, its length cut to 16 bits and its checksum stored raw |
| `IpPacket.Statistics.ValidateHeader` | net/ip.c:52-88 | which headers pass, and which counter each refusal raises |
| `IpPacket.SentPacketIsValidIff` | net/ip.c:52-143 | a packet built here passes validation if and only if it is short enough, the plain sum of its header is divisible by 257 and its source address is neither 0.0.0.0 nor 255.255.255.255 |
| `IpPacket.SomePacketIsRejected` | net/ip.c:117-143 | a concrete packet that does not |
| `IpPacket.SentBytes` | net/ip.c:122-141 | what each byte of a packet sent holds: version, length, identification, hops, protocol, both addresses, data |
| `IpPacket.SentChecksum` | net/ip.c:142-143 | its checksum field, read low byte first, takes the rest of the header to a multiple of 65535 |
| `IpPacket.VerdictIff` | net/ip.c:52-88 | each of the three refusals and the acceptance as an exact condition on the bytes of the header |
| `UdpDatagram.BuildPacket` | net/udp.c:166-190 | ports, length, data and checksum as laid out in the packet, or a refusal when the data are too long |
| `UdpDatagram.HandlePacket` | net/udp.c:271-301 | which datagrams are dropped, and what is extracted from the others |
| `UdpDatagram.DatagramIsAccepted` | net/udp.c:166-301 | under equal addresses every datagram built is accepted with its ports and data, also when its checksum is 0 |
| `UdpDatagram.AcceptedIff` | net/udp.c:183-296 | under any two address pairs: accepted if and only if the checksum is 0 or the address halves have equal sums modulo 65535 |
| `UdpDatagram.AnyAddressAcceptedIff` | net/udp.c:105-119 | the same for a socket bound to 0.0.0.0, in terms of the real source address |
| `UdpDatagram.AnyAddressIsDropped` | net/udp.c:284-296 | a datagram of such a socket that is dropped |
| `UdpDatagram.SentBytes` | net/udp.c:166-180 | which bytes of a datagram hold the source port, the destination port, the length and the data |
| `UdpDatagram.AcceptIff` | net/udp.c:271-301 | which datagrams are taken, as an exact condition on their bytes and the two addresses, and what is taken from them |
| `ChaCha20.CutsDoNotMatter` | net/crypto/chacha20.c:73-90 | however a message is cut, the calls together give what one call gives |
| `ChaCha20.DecryptionUndoesEncryption` | net/crypto/chacha20.c:73-90 | a fresh context with the same key and nonce takes an encryption back, each side cutting as it likes |
| `ChaCha20.CountersRepeatIff` | net/crypto/chacha20.c:76-78 | two block states are equal exactly when the block numbers agree modulo 2^32 |
| `ChaCha20.StreamRepeats` | net/crypto/chacha20.c:78 | the key stream has period 2^38 bytes |
| `ChaCha20.StatesNeverShared` | net/crypto/chacha20.c:37-71 | block states agree exactly for the same key, nonce and block number modulo 2^32: packing loses nothing |
| `ChaCha20.InitialStateBytes` | net/crypto/chacha20.c:40-69 | word by word, first byte highest, the state holds "expand 32-byte k", the key, the counter 0 and the nonce |
| `ChaCha20.EncryptionAddsBlocks` | net/crypto/chacha20.c:73-90 | what encryption XORs to each byte is the byte at its place in the blocks for counters start, start + 1, and so on modulo 2^32 |
| `ChaCha20.XoredIsCrypted` | net/crypto/chacha20.c:81-84 | unless the output range starts inside the input range, byte-by-byte writing stores the encryption of the input as it was |
| `ChaCha20.OverlapFeedsBack` | net/crypto/chacha20.c:81-84 | if it does, each byte past the overlap distance is made from the output byte that many places before |
| `ChaCha20.Context.constructor` | net/crypto/chacha20.c:37-71 | the bytes of constant, key and nonce are those of the state's words, first byte highest, the counter is 0, and the buffer counts as used up |
| `ChaCha20.Context.Refill` | net/crypto/chacha20.c:75-79 | the buffer holds the next block and the counter has moved on, wrapping |
| `ChaCha20.Context.Xor` | net/crypto/chacha20.c:73-90 | from any buffer state and for any overlap of the two ranges: the memory that byte-by-byte writing leaves; and where the output does not start inside the input, each output byte is the input byte XOR the key stream byte of its position, and no other byte changes |
| `ChaCha20.CryptInPlace` | net/crypto/chacha20.c:37-90 | a client that encrypts an array in place in arbitrary pieces gets the one-call result |
| `LiquidNet.Net.constructor` | liquid_nn.c:10-22 | `liquid_init`: neurons 102, weights 10, time constants 1024 |
| `LiquidNet.Net.Step` | liquid_nn.c:30-53 | in place: every neuron becomes the sum of its weighted input and the weighted old neurons |
| `LiquidNet.StepIsLinear` | liquid_nn.c:30-53 | 1024 times the new value of a neuron is all three inputs by their weights plus ten times all eight neurons, but for less than 1024 from each of eleven products; and exactly that where nothing is cut off |
| `LiquidNet.StepGap` | liquid_nn.c:30-53 | one step takes the largest gap d between two states to at most 8 * (10 d / 1024 + 1), rounding down |
| `LiquidNet.GapShrinks` | liquid_nn.c:30-53 | a gap above 8 strictly shrinks, its excess by a factor of ten; a gap of at most 8 stays so |
| `LiquidNet.MemoryFades` | liquid_nn.c:30-53 | over every input sequence the excess over 8 comes down by a factor of ten a step |
| `LiquidNet.StartIsForgotten` | liquid_nn.c:30-53 | after as many steps as the first gap has digits two runs differ by at most 8 |
| `LiquidNet.EightIsReached` | liquid_nn.c:30-53 | the bound is exact: two states 8 apart that stand still under one constant input |
| `LiquidNet.StaysBounded` | liquid_nn.c:30-53 | inputs within X, input weights within W and 944 B >= 3 W X keep the neurons within B over every run |
| `LiquidNet.NoOverflow` | liquid_nn.c:30-53 | under the same bounds with B at most 2^51 no intermediate value of a step leaves a 64-bit long |
| `Scheduler.ChoiceIsTheNearest` | kernel.c:59-79 | the process chosen is the nearest READY one behind the current process, and the current one only failing that; and no other meets this |
| `Scheduler.Kernel.StartInit` | kernel.c:42-51 | the first process makes a ring of one and runs |
| `Scheduler.Kernel.Schedule` | kernel.c:59-79 | the walk over `next` pointers ends and switches to that process, with a full time slice; the ring is kept |
| `Scheduler.Kernel.TimerInterrupt` | kernel.c:382-390 | one tick, and a switch when the slice is used up |
| `Scheduler.OneRunsAfterScheduleIff` | kernel.c:59-79 | exactly one process runs after `schedule` if and only if no other was running, and the current one only where nobody else was ready |
| `Scheduler.TwoCanRun` | kernel.c:59-79 | a ring of two on which a call leaves both RUNNING |
| `Scheduler.ExactlyOneRuns` | kernel.c:382-390 | over every run of ticks, yields and changes of other processes exactly the current process is RUNNING |
| `Scheduler.FullSliceIsServed` | kernel.c:59-390 | a process that `schedule` chose runs, unless it leaves, until as many interrupts have come as its slice has ticks; the last takes the processor from it if and only if another is ready |
| `Scheduler.LeavingRunsOnIff` | kernel.c:59-79 | a process that leaves RUNNING is set RUNNING again at once if and only if nobody else is ready |
| `Scheduler.ZombieRunsOn` | kernel.c:75-78 | a ring of two on which a process that exits is RUNNING again |
| `Scheduler.OutStaysOut` | kernel.c:59-79 | over every run, a process that is neither READY, RUNNING nor the current one does not run unless made READY |
| `Scheduler.LeftStaysOutIff` | kernel.c:59-79 | a process that leaves without being READY, and is not made READY, stays out over any run if and only if another was READY when it left |
| `Scheduler.ScheduleComesNearer` | kernel.c:59-79 | each call chooses a waiting process or brings the current one strictly nearer to it on the ring |
| `Scheduler.ChosenWithinDistance` | kernel.c:59-79 | a process left READY at ring distance d (at most n - 1) is chosen within d calls, whatever else happens |
| `Scheduler.ChosenWithinTime` | kernel.c:382-390 | in interrupts: within the rest of the current slice and one full slice for each process between |
| `Scheduler.DistanceIsNeeded` | kernel.c:59-79 | the bound is exact: where everyone is READY it takes d calls |

## Left out

Readings of damaged lines: mm.c:53 returns SIZE_MAX; net/tcp.c:373 stores the new segment in
`outstanding_segments` and returns 0; kernel.c:47 sets RUNNING; kernel.c:1407 casts the address;
kernel.c:1437 starts the rollback at the old break; sched.c:58 is the header of `create_process`.

- The kernel's identity mapping of physical memory is taken for granted: a table's address is used as a pointer to it.
- TLB invalidation, CR3 and `switch_to_process` are assembly; `get_pte` and `sys_mprotect` use a bit-field layout that does not match the masks of mm.c.
- The large-page branches of mm.c:116-118 and mm.c:171 are written out in the walk but never taken: the invariant excludes large-page entries, which nothing creates.
- `MemoryCalls.RunsKeepFramesApart`: is about runs without a `sys_mmap` that strands pages; the lemma `MemoryCalls.StepKeepsOwnershipIff` shows that this is exactly what has to be excluded. Allocations by `kmalloc` are not calls of these runs, and stores go to frames without tables.
- `ProcessMemory.Process.SysBrk`: is for heaps that end below 4 GB minus 16 MB, as `create_process` sets them.
- Bit masks and shifts on addresses and entries are arithmetic on numbers; the allocator's bitmap bytes and TCP flags are bit vectors.
- `kmalloc` and `kfree` do not track runs of pages and are not modelled; where a failing allocation changes what the code does in net/tcp.c, it is a parameter.
- Passive open, the accept queue, `tcp_close` and the socket list of net/tcp.c, and the second ring in net/socket.c.
- `TcpSockets.TcpSocket.HandlePacket`: starts behind the checksum gate and the socket search (net/tcp.c:416-457), for a socket that is not listening.
- `TcpConnection.DeliveryIsInOrder`: starts behind the checksum gate and the socket search (net/tcp.c:416-457); the text after the peer's FIN keeps only the prefix claim.
- `TcpConnection.UnackedDataIsRetained`: assumes the first number leaves room for 8192 more below 2^32, because acknowledgements are compared in 64 bits without wrapping (`TcpConnection.RemovalIsRightIff` says what happens beyond), and that outstanding entries get memory.
- Retransmission itself does not exist in the source: the table is kept but never read.
- `DnsParser.ParseName`: requires that the loop ends on the packet, since a method has to; `DnsParser.HaltsIff` says when it does. Null pointers cannot be passed.
- `DnsCodec.EncodeName`: requires room for the name, which the C code does not check.
- `DnsCache.CacheAgreesWithMap`: names up to 255 characters and nonzero answers; the other cases are decided by `DnsCache.ResolveKeepsDistinctIff` and `DnsCache.ResolveKeepsProperIff`. Queries, responses and the tick counter are parameters.
- `DottedDecimal.StringToIp`: fields are unbounded, where the C code would overflow an `int` at ten digits or more. `snprintf` is not part of this model: printing is the decimal numeral.
- `IpPacket.Statistics.ValidateHeader`: 20 bytes and those that the header length field names are readable, as the code reads them before it compares with the packet length.
- `UdpDatagram.BuildPacket`: takes a bound socket, a destination and a successful allocation; socket queues, locks and delivery below IP are left out.
- ARP, ICMP, DHCP, the Ethernet layer and all drivers; the system call table and the stubs that return constants.
- `chacha20_block` is an arbitrary function of the 16 state words; a context buffer used as input or output is excluded.
- The other ciphers, hashes and generators under net/crypto lean on functions the repository does not have.
- `LiquidNet.Net.Step`: sums are unbounded; `LiquidNet.NoOverflow` says when 64 bits are enough. `update_weights_liquid` and `kernel_liquid_predict` change the input weights between steps and are left out, so runs keep them fixed.
- `Scheduler.Kernel.Schedule`: the ring is given, since no code links a second process into it; processes do not join or leave during a run. The scheduler of sched.c, wait queues and spinlocks are left out.
