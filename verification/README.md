# min1visor: a verified model of its core

min1visor is a small AArch64 type-1 hypervisor. This project models the parts of it that are algorithms over memory,
tables, queues and locks, and proves what they are for:

| part | files |
|---|---|
| stage-2 page tables against the architectural walk (chapter D8 of Arm DDI 0487) | `Descriptor`, `Geometry`, `Stage2`, `Stage2Update`, `TableCount`, `Paging`, `Vm` |
| the heap allocator whose free list lives in the free memory | `HeapModel`, `Allocator` |
| the flattened device tree scanner against a tree and its encoding (Devicetree Specification v0.4) | `DeviceTree`, `DtbScanner`, `DtbQueries` |
| FAT32 read and write against "concatenate the cluster chain and slice it" | `Fat32Model`, `Fat32Passes`, `Fat32Footprint`, `Fat32` |
| the virtio block queue, device side and driver side (VIRTIO 1.1, split virtqueues) | `VirtioDevice`, `VirtioDriver` |
| the virtual GICv2, the virtual PL011 and the rpi4 interrupt handshake over all runs | `Gicv2`, `Pl011`, `Handshake`, `Rpi4` |
| the GICv3 list registers and the set-enable and set-pending writes | `ListRegisters`, `Gicv3` |
| the spinlock that masks interrupts, for any number of CPUs and locks | `Spinlock` |

`Arithmetic` and `Options` are shared helpers. `dafny verify dfyconfig.toml` checks the whole project.

Code that changes state in place is modelled as classes and methods over arrays and fields; each such method is tied to
a specification function or relation, and the theorems are lemmas about those. Protocols in which several parties take
turns (`Handshake`, `Spinlock`, the runs of `HeapModel`) are transition systems, and their theorems quantify over every
run. Addresses are natural numbers that index a modelled memory; the 16-bit ring counters, 32-bit lengths and 64-bit
words wrap where the code lets them wrap.

## How the parts are modelled

- **Page tables.** Memory is an array of descriptor words. `Stage2.Walk` is the architectural walk and knows nothing of
  the writer. A ghost label per table says which single slot it hangs from; `Stage2.Tree` makes the tables a tree with
  no sharing. `Stage2.Step` says what mapping a range may do to one slot, and the walk lemmas follow from it by
  induction on the level. The page allocator appears as a pool of free pages that can run dry, which is the only way a
  mapping of whole pages fails.
- **Heap.** `HeapModel` is the allocator on values (free list, live blocks, lost padding); `Allocator` is the same
  algorithm on an array of words in which every free region holds its own list node.
- **Device tree.** A `Node` is any tree with any number of NOPs, any padding bytes and any mix of properties and
  subnodes; `Encode` is its structure block. The scanners are proved on every memory that holds such an encoding.
- **FAT32.** Disk and memory are byte stores; device replies are an arbitrary list of successes and failures. A transfer
  is a list of passes, each one device request; `Read` and `Write` are proved to do exactly what their passes do, for
  every range, whether they succeed or fail, and the theorems about ranges are lemmas about passes.
- **Interrupts.** One event is one handler run or one register access. The guest does what it likes; the physical timer
  fires only while enabled. Theorems that need a guest that behaves say what it must not do.
- **Spinlock.** Loads, exchanges, stores and DAIF writes are separate steps of an interleaving, and an interrupt may be
  taken at every point where DAIF allows it. Atomics are sequentially consistent.

## What the code does not do

Each of these is a property one might expect, a concrete input on which the code lacks it, and the exact condition under
which it holds.

- Mapping a range that cuts an existing block in two loses the translation of the rest of the block: `CutExample`,
  `FrameIff`.
- `read` and `write` of a file range that is not in one run of clusters. Each pass over a run compares with the whole
  length, so most such ranges fail (`FragmentedExample`, `CompletesIff`). The passes also measure a range by what is
  left of its offset inside a sector, not inside the cluster, so a range that begins behind the first sector of a
  cluster can run past the end of its run and succeed: `read` then delivers bytes of a cluster that is not in the file
  (`CrossingReadExample`), and `write` overwrites them (`CrossingWriteExample`). The bytes come out right, whatever
  they are, exactly for a range in one run and for a range that begins in the first sector of a cluster and ends where
  the chain jumps to a further cluster: `ReadExact`, `WriteExact`. When a write stays inside the clusters of the file,
  whether or not it succeeds: `StaysInChainIff`.
- A transfer that fails has made its passes up to there, and since each pass asks for the whole length again, the last
  one can go past the range. `read` then writes memory behind the buffer (`OverrunReadExample`), and `write` overwrites
  the part of the file behind the range with what is behind the buffer (`OverrunWriteExample`). That happens exactly
  when the range ends strictly inside a later run of the chain, and another run follows or the length would fit in that
  one: `OverrunsIff`, `ReadStaysIff`, `WriteStaysIff`.
- `write` refuses an offset of exactly one sector into a cluster: `RefusedExample`, `RestZeroIff`.
- The place of a `reg` pair wraps around for large indices and cell counts, so a pair that is not there can be found:
  `RegWrapsExample`, `RegOffsetIff`.
- A virtio buffer that starts outside guest RAM is skipped without moving the file offset, so the transfers cover the
  range exactly when every buffer that carries bytes starts in guest RAM: `SkippedBufferExample`, `TilesIff`. Where a
  buffer ends is not looked at, so the transfers stay inside guest memory exactly when every buffer that starts in it
  also ends in it: `LeavesRamExample`, `IsolatedIff`.
- The virtio device does not look at the flag that lets it write a buffer, so it writes one that it may only read:
  `FlagIgnoredExample`; what the driver offers is within the flags: `DeviceServesDriver`.
- A virtio request that is turned down is taken without a used element and without an interrupt. From then on the used
  index stays behind the available index, by the number of requests turned down so far, and the requests behind it are
  served at the next notification: `TurnedDownExample`, and `Operation` for every sequence of notifications.
- Ending the timer interrupt while it is pending enables the timer too early: `EarlyEndExample`, `TimerStepIff`,
  `TimerRunIff`.
- A guest that masks the UART interrupt before ending it and unmasks it afterwards loses it until the next byte:
  `LostInterrupt`, `UartStepIff`, `UartRunIff`.
- A full receive buffer drops the next byte and repeats its last one, and it never empties by reading:
  `LostByteExample`, `RepeatedByteExample`, `BytesKeptIff`, `FullStaysFull`.
- One INTID can occupy two live list registers, exactly when an idle register precedes the live one: `DuplicateExample`,
  `DuplicateIff`.
- The software interrupt for an interrupt routed to another CPU has affinity level 1 in the place of level 3, so it
  wakes that CPU exactly when level 1 of the route is zero: `WrongCpuExample`, `WakeUpIff`.
- Dropping the outermost of several guards while another is held unmasks interrupts, and unless it goes last DAIF is not
  restored: `OutOfOrderExample`, `OutOfOrderIff`, `LastDropDecides`.
- `operation_sync` gives nothing back when it finds fewer than three free descriptors: `ExhaustedExample`,
  `OperationSync`; that this cannot happen from a full pool is `PoolNeverRunsOut`.

## Model

| member | source | states |
|---|---|---|
| Descriptor.PageDescriptor | src/paging.rs:41-75 | the chain of setters on a zeroed word gives the page descriptor of that address and permission, and as the MMU reads it: executable, accessible, inner shareable write-back memory; every other one of the 64 bits is zero |
| Descriptor.BlockDescriptor | src/paging.rs:49-75 | the same for a block descriptor |
| Descriptor.TableDescriptor | src/paging.rs:45-63 | a table descriptor whose table address reads back; besides it only the type and the access flag are set |
| Stage2.WalkKept | src/paging.rs:141-213 | a step on a range leaves the translation of every address whose slot meets nothing of the range |
| Stage2.NewTableFaults | src/paging.rs:188-199 | a table made for a range translates nothing outside it |
| Stage2.WalkOutside | src/paging.rs:141-213 | outside the range a translation is kept, or was provided by a block that reaches into the range and is gone |
| Stage2.SameLeaf | src/paging.rs:160-182 | two addresses in one block or page are translated by the same leaf |
| Stage2Update.LeafWritten | src/paging.rs:163-182 | writing a leaf descriptor keeps the tables a tree and touches only its slot's range |
| Stage2Update.LeafWalk | src/paging.rs:143-150 | inside the slot the new leaf decides the walk |
| Stage2Update.TableHung | src/paging.rs:186-199 | hanging a zeroed fresh page keeps the tables a tree without sharing |
| Stage2Update.RangeExtended | src/paging.rs:160-213 | a range mapped up to a slot border stays mapped while what follows is mapped |
| Stage2Update.ChildRange | src/paging.rs:201-209 | what the next-level table maps linearly, the slot that names it maps linearly |
| Stage2Update.DoneBelow | src/paging.rs:184-209 | work done below a next-level table counts as work below the table that names it, with the same frame |
| Stage2Update.RemappedExactly | src/paging.rs:128-253 | for every address: inside the range the walk yields pa + (x - ipa), readable and writable as asked, executable, in plain inner shareable write-back memory; outside, the old result, or a fault exactly where the old leaf reaches into the range |
| TableCount.FrugalExtended | src/paging.rs:160-199 | the table counts of two adjoining parts of a range add up to those of the whole |
| TableCount.FrugalSlot | src/paging.rs:184-209 | a slot that cannot be a block needs a table only if an end of its range is off the slot border |
| TableCount.AtMostTwo | src/paging.rs:160-199 | when pa and ipa agree modulo the block size above a level, one call of any size makes at most two tables of that level |
| Paging.TopTableReach | src/paging.rs:79-85 | the concatenated top table covers the whole 64 - T0SZ bit space, and exactly that when concatenation applies |
| Paging.TopTableAlignment | src/paging.rs:99-101 | the alignment asked of the allocator is a multiple of the size of the concatenated tables |
| Paging.AddressSpaceFits | src/paging.rs:90-99 | T0SZ makes the input address space exactly as large as the physical one of the CPU, the top table reaches all of it, and the architecture allows that many tables |
| Paging.S2ap | src/paging.rs:246 | bit 0 of the permission is read, bit 1 write |
| Paging.TranslationTable.constructor | src/paging.rs:87-104 | a zeroed top table of the size for the address range; every address walks to a fault |
| Paging.TranslationTable.ZeroPage | src/paging.rs:191-194 | exactly the 512 words of the page become zero |
| Paging.TranslationTable.WriteLeaf | src/paging.rs:163-182 | one word of memory changes, to a value given bit by bit; the slot's range is mapped linearly to pa, nothing else changes, the tables stay a tree |
| Paging.TranslationTable.NextTable | src/paging.rs:184-199 | the slot names a next-level table afterwards; one is made, from the first page of the pool, exactly if there was none; fails only on an empty pool and then changes nothing |
| Paging.TranslationTable.MapPages | src/paging.rs:141-158 | maps pages up to the end of the range or of the table; pa, ipa and the remaining size move by the same amount |
| Paging.TranslationTable.MapSlot | src/paging.rs:160-213 | one descriptor of the loop: a block where it fits, else the next level; same promises |
| Paging.TranslationTable.MapThroughTable | src/paging.rs:184-212 | the table branch of the loop; same promises |
| Paging.TranslationTable.MapDescriptors | src/paging.rs:160-214 | the loop over descriptors of levels 0 to 2; same promises |
| Paging.TranslationTable.MapLevel | src/paging.rs:128-215 | maps as far as the table reaches, linearly, on success; on failure the pool is empty, the three counters agree on how far it came, and that part is mapped |
| Paging.TranslationTable.Map | src/paging.rs:217-253 | refuses sizes that are not whole pages and changes nothing; otherwise every translation after the call, with its rights, is known from those before it and from the arguments, on success and on failure; every page taken from the pool is a table that was made, and with pa and ipa equal modulo 2 MiB at most two of them are level-3 tables |
| Paging.TranslationTable.MappedAllMeaning | src/paging.rs:217-253 | the relation kept by the recursion gives the translation of every address of the top table after a success |
| Paging.TranslationTable.MappedPartMeaning | src/paging.rs:188-190 | the same after a failed allocation |
| Paging.TranslationTable.FrameIff | src/paging.rs:141-213 | after a success every translation outside the range is unchanged if and only if the range cuts no existing block |
| Paging.TranslationTable.FrameOnFailure | src/paging.rs:188-209 | after a failure too, when the range cuts no existing block |
| Paging.TranslationTable.CutExample | src/paging.rs:186-199 | mapping the first page of a block loses the second |
| Vm.Dispatch | src/vm.rs:134-168 | the first entry that claims the address, or none exactly if no entry does |
| Vm.OneDevice | src/vm.rs:241-273 | no two device ranges of a board overlap |
| Vm.DeviceMap | src/vm.rs:241-273 | exactly which addresses the devices of a board claim |
| Vm.MappedAgrees | src/vm.rs:170-178 | after the RAM mapping, for every address of the top table: the walk succeeds iff `get_physical_address` returns one, with the same result, readable, writable and executable, and every address a device claims faults |
| Vm.CreateVm | src/vm.rs:442-464 | builds that state from a fresh table, or fails with the page pool empty |
| HeapModel.AlignUp | src/allocator/linked_list.rs:138-140 | the least multiple of the alignment at or above the address |
| HeapModel.RoundSize | src/allocator/linked_list.rs:99-105 | the least multiple of 8 that holds the bytes and a list node |
| HeapModel.Place | src/allocator/linked_list.rs:81-97 | a placed block is aligned and inside the region |
| HeapModel.PlaceIff | src/allocator/linked_list.rs:81-97 | a region is used exactly when its first aligned address leaves room for the block below 2^64, and behind it nothing or 16 bytes and more; the block starts there |
| HeapModel.PlacedWell | src/allocator/linked_list.rs:89-94 | and leaves nothing or a whole list node behind it, on the node alignment |
| HeapModel.FirstFit | src/allocator/linked_list.rs:64-76 | the first listed region that takes the block |
| HeapModel.AllocSound | src/allocator/linked_list.rs:107-121 | an allocation keeps free regions and live blocks disjoint inside the heap, and every byte accounted for |
| HeapModel.FreeSound | src/allocator/linked_list.rs:130-135 | so does freeing any live block |
| HeapModel.RunSound | src/allocator/linked_list.rs:107-135 | so does every run; the padding dropped never shrinks, and free + live + dropped is the heap size |
| HeapModel.InitSound | src/allocator/linked_list.rs:39-41 | the initial heap is such a state |
| HeapModel.AllocComplete | src/allocator/linked_list.rs:59-121 | null if and only if there is room in no listed region, in the numbers of `PlaceIff`; otherwise the first with room, what is left of it at the head of the list, the others in order |
| Allocator.FollowsFreeList | src/allocator/linked_list.rs:64-76 | following the next pointers in memory gives exactly the abstract free list and ends |
| Allocator.CutChained | src/allocator/linked_list.rs:68-71 | cutting a node out of the chain in memory leaves the chain of the others |
| Allocator.LinkedListAllocator.constructor | src/allocator/linked_list.rs:39-41 | one free region, chained in memory |
| Allocator.LinkedListAllocator.AddFreeRegion | src/allocator/linked_list.rs:44-55 | the region becomes the head of the chain; only its node is written |
| Allocator.LinkedListAllocator.FindRegion | src/allocator/linked_list.rs:64-75 | the cursor stops at the first fit and its predecessor |
| Allocator.LinkedListAllocator.Unlink | src/allocator/linked_list.rs:68-70 | the chain without that node; writes stay inside free regions |
| Allocator.LinkedListAllocator.FindAndTakeRegion | src/allocator/linked_list.rs:59-77 | takes the first fit, or finds none and changes nothing |
| Allocator.LinkedListAllocator.PutBackRest | src/allocator/linked_list.rs:110-116 | the rest behind the block returns to the head of the chain; the assertions hold |
| Allocator.LinkedListAllocator.Alloc | src/allocator/linked_list.rs:107-121 | null iff there is room in no free region, else the first one with room; the memory refines the value model; no word of a live block changes |
| Allocator.LinkedListAllocator.Dealloc | src/allocator/linked_list.rs:130-135 | the same for freeing a live block |
| Allocator.LinkedListAllocator.AllocatePages | src/allocator/linked_list.rs:142-153 | the pages, aligned to 2^order bytes, become a new live block in the first region with room, or an error exactly when there is none |
| Allocator.LinkedListAllocator.FreePages | src/allocator/linked_list.rs:156-164 | live pages become the head of the free list |
| DeviceTree.DecodeEncodeU32 | src/dtb.rs:75-77 | a big-endian word reads back |
| DeviceTree.EncodingExample | src/dtb.rs:228-284 | a small node as the bytes of a structure block |
| DeviceTree.CellNames | src/dtb.rs:213-226 | the names of the two cell properties |
| DeviceTree.OffersInPreorder | src/dtb.rs:313-389 | with properties ahead of subnodes, the first compatible property in document order belongs to the first compatible node in pre-order |
| DeviceTree.LookupInherits | src/dtb.rs:427-477 | with no cell property ahead, a property is read under the inherited cell counts |
| DeviceTree.LookupCells | src/dtb.rs:427-477 | a property is read under the last `#address-cells` and the last `#size-cells` of its node up to it, as big-endian numbers, and under the inherited count where there is none |
| DtbScanner.SkipNop | src/dtb.rs:170-176 | stops at the token behind any number of NOPs |
| DtbScanner.SkipString | src/dtb.rs:325-329 | ends at the word border behind the NUL |
| DtbScanner.CompareString | src/dtb.rs:106-140 | true exactly for the whole name or its part before the unit address; always moves past the name |
| DtbScanner.CompareNameSegment | src/dtb.rs:79-104 | true exactly for the name at that offset of the strings block |
| DtbScanner.EnterNode | src/dtb.rs:235-239 | enters a node, and reports the end token instead of one |
| DtbScanner.NextToken | src/dtb.rs:248-250 | the token that the encoding has next, behind padding and NOPs |
| DtbScanner.CheckCells | src/dtb.rs:213-226 | updates exactly the cell count that the property names |
| DtbScanner.ReadProperty | src/dtb.rs:265-277 | length, name offset, value and following cell counts of the encoded property, and where the rest begins |
| DtbScanner.SearchChild | src/dtb.rs:251-257 | a subnode without a match consumes exactly its own encoding |
| DtbScanner.SearchBody | src/dtb.rs:247-283 | the first match in the body, or the address just past it |
| DtbScanner.SearchNode | src/dtb.rs:228-284 | for every encoded tree: the first node in pre-order that matches, or the address just past the encoding |
| DtbQueries.IsDeviceCompatible | src/dtb.rs:493-514 | true iff the string is exactly one of the NUL-separated list |
| DtbQueries.CompareMember | src/dtb.rs:504-511 | one string of the list compared byte by byte with its NUL |
| DtbQueries.SearchNodeByCompatible | src/dtb.rs:313-389 | the first match in document order, or the address past the subtree |
| DtbQueries.SearchBodyByCompatible | src/dtb.rs:331-388 | the same over a body |
| DtbQueries.OfferProperty | src/dtb.rs:352-380 | a `compatible` property that lists the string ends the search, any other is passed |
| DtbQueries.SearchChildByCompatible | src/dtb.rs:337-346 | a subnode without a match consumes exactly its own encoding |
| DtbQueries.GetProperty | src/dtb.rs:427-477 | the first property of that name ahead of any subnode, with the value that the tree has for it in memory, and the cell counts in force |
| DtbQueries.ReadBigEndian | src/dtb.rs:531-539 | the big-endian number, cut to 64 bits |
| DtbQueries.ReadReg | src/dtb.rs:523-541 | nothing exactly when the tree has no `reg` value or the pair runs past it; otherwise the i-th big-endian pair of that value under the counts in force, which are the inherited ones when no cell property comes first |
| DtbQueries.RegOffsetIff | src/dtb.rs:527-530 | the 32-bit and 64-bit arithmetic finds the pair, or its absence, exactly when nothing wraps around or the wrapped end lies behind the property |
| DtbQueries.RegWrapsExample | src/dtb.rs:527-530 | an index at which it finds a pair that is not there |
| DtbQueries.SearchByName | src/dtb.rs:286-311 | from the start of the block: the first match in pre-order, or none when there is none |
| DtbQueries.SearchByCompatible | src/dtb.rs:391-425 | the first compatible node, in pre-order when properties come first, or none |
| Fat32Model.ClusterToSectorIs | src/fat32.rs:157-161 | a cluster begins where the one before it ends, and cluster 2 where the last copy of the FAT ends, the copies following each other behind the reserved sectors |
| Fat32Model.ClustersBehindFats | src/fat32.rs:157-161 | no cluster meets the reserved sectors or a copy of the FAT |
| Fat32Model.NextClusterIs | src/fat32.rs:178-191 | the next cluster is the FAT entry if that is 2 to 0x0FFFFFF7, and there is none exactly otherwise or outside the FAT |
| Fat32Model.RunByte | src/fat32.rs:157-161 | clusters that follow each other on the disk hold consecutive bytes of the concatenated chain |
| Fat32Model.SectorsEnough | src/fat32.rs:366-369 | the sectors counted are the fewest that hold the bytes |
| Fat32Model.SplitOffset | src/fat32.rs:359-363 | whole sectors skipped and the rest add up to the offset |
| Fat32Model.RestZeroIff | src/fat32.rs:481-513 | an offset leaves nothing inside a sector exactly when it is sector-aligned and not a single sector |
| Fat32Passes.CompletesIff | src/fat32.rs:349-424 | the passes complete iff the range, measured from its rest inside a sector, fits the first run or ends exactly at a jump of the chain |
| Fat32Passes.TooMuch | src/fat32.rs:419-423 | after more bytes than asked for the loop never ends well |
| Fat32Passes.PassAt | src/fat32.rs:387-418 | the request of a pass holds its bytes, which begin at the offset into the cluster |
| Fat32Passes.MiddlePass | src/fat32.rs:374-385 | a pass in the middle of a transfer that completes is exactly one whole run |
| Fat32Passes.PassBytesFrom | src/fat32.rs:400-418 | which disk byte each byte of a pass comes from, right or wrong, after all passes |
| Fat32Passes.DeliversByte | src/fat32.rs:349-424 | a transfer whose passes stay in their runs delivers every byte of its range of the concatenated chain |
| Fat32Passes.RunsPast | src/fat32.rs:357-370 | a transfer that completes without fitting takes the first byte of the next cluster of the disk for the first byte of the next cluster of the chain |
| Fat32Passes.ReadExact | src/fat32.rs:309-426 | `read` completes with the bytes of the file for every disk, memory and buffer iff the range fits |
| Fat32Passes.WriteOutByte | src/fat32.rs:514-515 | a disk byte changes only if a request covers it, and then comes from the place in the buffer where that pass has it |
| Fat32Passes.ReadBackByte | src/fat32.rs:387-418 | a memory byte changes only if a pass writes it, and then comes from the place on the disk where that pass has it |
| Fat32Passes.StaysInChainIff | src/fat32.rs:465-521 | a write, completing or failing, covers clusters of the file only iff the range is in one run, or begins with a cluster, or the cluster behind the run on the disk is one of the file, or the first pass already runs out of clusters |
| Fat32Passes.ChainDistinct | src/fat32.rs:178-191 | no cluster occurs twice in a chain that ends |
| Fat32Passes.DepositsByte | src/fat32.rs:465-521 | a transfer whose passes stay in their runs stores every byte of its range, and no later pass overwrites it |
| Fat32Passes.WriteExact | src/fat32.rs:428-523 | `write` completes with the given bytes in the file for every disk, memory and buffer iff the range fits |
| Fat32Passes.OnePass | src/fat32.rs:349-424 | a range in one run takes one pass |
| Fat32Passes.FragmentedExample | src/fat32.rs:366-370 | a file of two separate clusters cannot be read whole |
| Fat32Passes.CrossingReadExample | src/fat32.rs:357-370 | a read that succeeds with a byte of a cluster that is not in the file |
| Fat32Passes.CrossingWriteExample | src/fat32.rs:472-492 | a write that succeeds and overwrites that byte |
| Fat32Footprint.OverrunsIff | src/fat32.rs:349-424 | some pass goes past the range iff the range ends strictly inside a later run that another run follows, or that the length would fit in |
| Fat32Footprint.RangeOverruns | src/fat32.rs:419-423 | the same for a range of the file, and such a transfer never completes |
| Fat32Footprint.ReadStaysIff | src/fat32.rs:387-418 | `read`, completing or failing, writes no memory outside the wanted bytes iff the range does not end so, and a direct read of a range in one run is of whole sectors |
| Fat32Footprint.WriteStaysIff | src/fat32.rs:465-521 | for whole sectors from the first sector of a cluster on, or in one run: `write`, completing or failing, overwrites no disk byte outside the range iff the range does not end so |
| Fat32Footprint.OverrunTouches | src/fat32.rs:514-521 | a write that goes past its range overwrites the byte of the file behind it |
| Fat32Footprint.CoversRange | src/fat32.rs:465-521 | every other one covers bytes of the range of the file only |
| Fat32Footprint.FitsFrame | src/fat32.rs:428-523 | a write of whole sectors in a fitting range changes no disk byte outside the range of the file |
| Fat32Footprint.PassesInData | src/fat32.rs:387-396 | every request of a transfer, completing or failing, begins behind the last copy of the FAT |
| Fat32Footprint.WriteKeepsFats | src/fat32.rs:428-523 | `write`, completing or failing and however far it comes, changes no byte of the reserved sectors or of a FAT |
| Fat32Footprint.OverrunExample | src/fat32.rs:366-370 | the first two of the one-sector clusters 2, 4, 5 and 6 take a second pass of two sectors, and the transfer fails |
| Fat32Footprint.OverrunReadExample | src/fat32.rs:396-400 | reading them puts cluster 5 behind the wanted bytes in memory |
| Fat32Footprint.OverrunWriteExample | src/fat32.rs:514-515 | writing them overwrites cluster 5, outside the range, with what is behind the buffer |
| Fat32.CountRun | src/fat32.rs:357-385 | the sectors and bytes of one run of consecutive clusters, and how the count ends |
| Fat32.Volume.ReadSectors | src/fat32.rs:163-176 | one device request for those bytes of the disk |
| Fat32.ClearLowBits | src/fat32.rs:389-391 | `size & !(lba_size - 1)` rounds down to whole blocks |
| Fat32.Volume.BouncePagesIs | src/fat32.rs:389-392 | the pages of the bounce buffer for a block size that is a power of two |
| Fat32.Volume.BounceLargeEnough | src/fat32.rs:389-395 | the bounce buffer always holds the sectors read into it, for every geometry, and is at most a block and a page larger |
| Fat32.Volume.ReadRun | src/fat32.rs:387-418 | one request; memory then holds the bytes behind the skipped part, or every sector read |
| Fat32.Volume.SkipClusters | src/fat32.rs:338-346 | the cluster at a chain position, or failure exactly past the end |
| Fat32.Volume.ReadPass | src/fat32.rs:349-424 | one pass of the outer loop: its request, what it puts in memory, its bytes and clusters; with nothing failing outside it fails only when the chain ends, and a failed pass changes no memory |
| Fat32.Volume.Read | src/fat32.rs:309-426 | clamped length; memory and requests are those of the passes made, on success and on failure, for every range; with nothing failing outside all passes are made and success means exactly that they complete; one request on a consecutive range, and the bytes of the file on every fitting one |
| Fat32.Volume.WriteSectors | src/fat32.rs:226-239 | one device request that replaces those bytes of the disk |
| Fat32.Volume.WritePass | src/fat32.rs:465-521 | one pass of the outer loop of `write`: its request and what it puts on the disk; refuses offsets inside a sector |
| Fat32.Volume.Write | src/fat32.rs:428-523 | clamped length; disk and requests are those of the passes made, on success and on failure, for every range; none for less than a sector or an offset that leaves something inside a sector; otherwise, with whole sectors and nothing failing outside, all passes are made and success means exactly that they complete |
| Fat32.Volume.WriteThenRead | src/fat32.rs:309-523 | on every fitting range the read succeeds and the written bytes come back, and with whole sectors every disk byte outside the range of the file is unchanged; in any case nothing in front of the clusters changes |
| Fat32.Volume.RefusedExample | src/fat32.rs:481-513 | one sector cannot be written one sector into a cluster |
| VirtioDevice.TransfersTile | src/mmio/virtio_blk.rs:136-177 | each transfer begins where the one before ends |
| VirtioDevice.TilesIff | src/mmio/virtio_blk.rs:146-177 | the transfers cover [sector*512, sector*512 + sum of lengths) without gap iff every buffer that carries bytes starts in guest RAM |
| VirtioDevice.IsolatedIff | src/mmio/virtio_blk.rs:146-175 | every transfer stays inside the memory that backs guest RAM iff every data buffer that starts in guest RAM ends in it |
| VirtioDevice.LeavesRamExample | src/mmio/virtio_blk.rs:148-165 | a buffer at the last byte of guest RAM: the transfer leaves it |
| VirtioDevice.SkippedBufferExample | src/mmio/virtio_blk.rs:148-157 | two sectors of which the second is transferred in place of the first |
| VirtioDevice.FlagIgnoredExample | src/mmio/virtio_blk.rs:146-165 | a read into a buffer that the device may only read |
| VirtioDevice.ChainUnique | src/mmio/virtio_blk.rs:136-145 | a head determines its chain |
| VirtioDevice.CounterSlot | src/mmio/virtio_blk.rs:75-88 | a wrapped 16-bit counter leads to the slot of the unbounded count |
| VirtioDevice.RingAppend | src/mmio/virtio_blk.rs:84-100 | the next slot overwrites no entry that is still wanted |
| VirtioDevice.VirtioBlkMmio.constructor | src/mmio/virtio_blk.rs:28-45 | an empty queue |
| VirtioDevice.VirtioBlkMmio.Publish | src/drivers/virtio_blk.rs:232-238 | a published head extends the list of offered requests |
| VirtioDevice.VirtioBlkMmio.GetNextAvailId | src/mmio/virtio_blk.rs:75-82 | the slot after the last one taken, or none when the indices agree |
| VirtioDevice.VirtioBlkMmio.WriteUsed | src/mmio/virtio_blk.rs:84-100 | the element in the next slot of the used ring, then the index |
| VirtioDevice.VirtioBlkMmio.TransferOne | src/mmio/virtio_blk.rs:146-175 | one transfer, none when the buffer is out of reach, and whether it succeeded |
| VirtioDevice.ServingStep | src/mmio/virtio_blk.rs:136-177 | done so far and still to come stay the whole request along the chain |
| VirtioDevice.VirtioBlkMmio.ServeData | src/mmio/virtio_blk.rs:132-177 | terminates; transfers, byte count and status of the whole chain |
| VirtioDevice.VirtioBlkMmio.ServeRequest | src/mmio/virtio_blk.rs:104-184 | transfers, status byte and used element of a request, or nothing when it is turned down |
| VirtioDevice.VirtioBlkMmio.ServeNext | src/mmio/virtio_blk.rs:103-185 | takes the oldest request not yet taken, for counters that wrap: serves it, or turns it down without a used element |
| VirtioDevice.VirtioBlkMmio.Operation | src/mmio/virtio_blk.rs:102-190 | over any sequence of notifications the used ring lists the served heads in order; each notification serves the pending requests once and in order up to one it turns down; used and available indices agree iff all offered requests were served, as long as fewer than 65536 were not |
| VirtioDevice.VirtioBlkMmio.TurnedDownExample | src/mmio/virtio_blk.rs:112-115 | a request that leaves the used index one behind |
| VirtioDriver.VirtioBlk.constructor | src/drivers/virtio_blk.rs:135-141 | every descriptor free |
| VirtioDriver.VirtioBlk.AllocateDescriptor | src/drivers/virtio_blk.rs:152-163 | takes the lowest free descriptor; fails iff none is free |
| VirtioDriver.VirtioBlk.FreeDescriptor | src/drivers/virtio_blk.rs:165-169 | that descriptor and no other becomes free |
| VirtioDriver.VirtioBlk.Prepare | src/drivers/virtio_blk.rs:199-230 | the three lowest free descriptors, distinct, linked first to second to third: 16 bytes with flags 1, the buffer with flags 1 for a write and 3 for a read, one byte with flags 2; fails iff fewer than three are free |
| VirtioDriver.Direction | src/drivers/virtio_blk.rs:215-230 | of such a chain the device may write the buffer of a read and the status byte, and nothing else |
| VirtioDriver.VirtioBlk.OperationSync | src/drivers/virtio_blk.rs:171-262 | restores the free set; at the notification the head is in slot count mod 64, the index one further, across wrap-around, the header holds the direction and the sector, and the device may write exactly length + 1 bytes for a read and 1 for a write; success iff the status is 0; misaligned requests change nothing |
| VirtioDriver.VirtioBlk.ExhaustedExample | src/drivers/virtio_blk.rs:209-226 | with two free descriptors a request fails and leaves none |
| VirtioDriver.PoolNeverRunsOut | src/drivers/virtio_blk.rs:199-262 | from a full pool there are always three, and they are 0, 1 and 2 |
| VirtioDriver.DeviceServesDriver | src/drivers/virtio_blk.rs:188-230 | the device side of the protocol makes of the driver's chain exactly the transfer asked for, within what the flags allow, and answers 0 iff it succeeds |
| Gicv2.VirtualGic.constructor | src/mmio/gicv2.rs:27 | nothing pending, line down |
| Gicv2.VirtualGic.Inject | src/mmio/gicv2.rs:29-37 | adds the id; HCR_EL2.VI stays up exactly while something is pending |
| Gicv2.VirtualGic.LowestBit | src/mmio/gicv2.rs:45 | the lowest set bit |
| Gicv2.VirtualGic.Acknowledge | src/mmio/gicv2.rs:39-53 | removes and returns the least pending id, or 1023 when there is none |
| Gicv2.VirtualGic.Drain | src/mmio/gicv2.rs:39-53 | successive acknowledges yield every pending id once, in ascending order, and drop the line |
| Pl011.Stored | src/mmio/pl011.rs:72-77 | a byte goes to the end of the queue; a NUL or a full buffer leaves it |
| Pl011.Shifted | src/mmio/pl011.rs:102-107 | the shift takes the first byte, and repeats the last one of a full buffer |
| Pl011.OthersKept | src/mmio/pl011.rs:71-112 | setting and clearing the receive status changes bit 4 and no other |
| Pl011.Receiver.constructor | src/mmio/pl011.rs:46-54 | empty and masked |
| Pl011.Receiver.Store | src/mmio/pl011.rs:72-77 | the queue after a byte |
| Pl011.Receiver.Push | src/mmio/pl011.rs:71-88 | queue, raw status, and an interrupt exactly when unmasked |
| Pl011.Receiver.Shift | src/mmio/pl011.rs:103-106 | the buffer after the shift |
| Pl011.Receiver.ReadData | src/mmio/pl011.rs:101-112 | returns the first byte; the raw status falls exactly when the queue empties |
| Pl011.Receiver.WriteMask | src/mmio/pl011.rs:167-169 | the receive bit of the mask |
| Pl011.Receiver.WriteClear | src/mmio/pl011.rs:170-172 | clears the raw status iff asked to |
| Pl011.Receiver.IsRxPending | src/mmio/pl011.rs:90-94 | the comparison of whole registers comes down to the receive bits |
| Handshake.TimerStepIff | src/mmio/gicv2.rs:133-135 | the one event that breaks: the timer is enabled iff neither pending nor in service, and outstanding at most once |
| Handshake.TimerRunIff | src/exception.rs:293-317 | over whole runs that holds throughout iff the guest never ends the timer while it is pending |
| Handshake.EarnedEnds | src/mmio/gicv2.rs:124-142 | a guest that ends only what it has acknowledged never does that |
| Handshake.TimerAlways | src/mmio/gicv2.rs:124-142 | so with such a guest it holds in every state reached from boot |
| Handshake.AcknowledgedSoon | src/mmio/gicv2.rs:39-53 | any pending id is brought into service by no more reads than ids are pending |
| Handshake.TimerNeverStuck | src/mmio/gicv2.rs:133-135 | from every state reached so with the timer masked, acknowledging and ending alone unmask it |
| Handshake.EarlyEndExample | src/mmio/gicv2.rs:133-135 | a run that enables the timer while its tick is pending |
| Handshake.UartStepIff | src/mmio/gicv2.rs:136-141 | the one event that leaves a visible UART interrupt neither pending nor in service |
| Handshake.UartRunIff | src/mmio/pl011.rs:71-94 | over whole runs the UART interrupt is covered throughout iff that event does not occur |
| Handshake.CarefulGuest | src/mmio/pl011.rs:71-94 | a guest that never unmasks RXIM while RXRIS is set never loses it |
| Handshake.LostInterrupt | src/mmio/pl011.rs:167-169 | a run that loses it |
| Handshake.NextByteCovers | src/mmio/pl011.rs:83-87 | the next byte recovers it |
| Handshake.NoInventedInterrupt | src/mmio/gicv2.rs:29-53 | per id, acknowledgements never exceed injections |
| Handshake.EveryTickDelivered | src/exception.rs:307-309 | while the handshake holds every timer tick is acknowledged exactly once or still pending; none are merged |
| Handshake.BytesKeptIff | src/mmio/pl011.rs:103-106 | one event keeps the byte stream intact iff it does not meet a full buffer |
| Handshake.BytesInOrder | src/mmio/pl011.rs:71-112 | over a run without overruns the guest reads what arrived, in order |
| Handshake.FullStaysFull | src/mmio/pl011.rs:103-106 | a full buffer stays full under any number of reads |
| Handshake.LostByteExample | src/mmio/pl011.rs:72-77 | the fifth byte from boot is lost |
| Handshake.RepeatedByteExample | src/mmio/pl011.rs:103-106 | the fourth byte from boot is read twice |
| Rpi4.Machine.constructor | src/mmio/gicv2.rs:27 | the boot state of the transition system |
| Rpi4.Machine.IrqHandler | src/exception.rs:293-317 | refines the timer event or the burst of bytes, and ignores other ids |
| Rpi4.Machine.InputUart | src/vm.rs:512-540 | refines one byte event per byte received |
| Rpi4.Machine.PushByte | src/mmio/pl011.rs:71-88 | refines the byte event |
| Rpi4.Machine.ReadIar | src/mmio/gicv2.rs:111 | refines the acknowledge event and returns its id |
| Rpi4.Machine.Reinject | src/mmio/gicv2.rs:136-141 | injects again iff the receive interrupt is still visible |
| Rpi4.Machine.WriteEoir | src/mmio/gicv2.rs:124-142 | refines the end event: timer unmasked, UART injected again |
| Rpi4.Machine.ReadDr | src/mmio/pl011.rs:101-112 | refines the data read |
| Rpi4.Machine.WriteImsc | src/mmio/pl011.rs:167-169 | refines the mask write |
| Rpi4.Machine.WriteIcr | src/mmio/pl011.rs:170-172 | refines the clear write |
| ListRegisters.EntryId | src/vgicv3.rs:52-70 | the INTID of a built entry reads back |
| ListRegisters.EntryPends | src/vgicv3.rs:58-61 | a built entry is pending and not active |
| ListRegisters.EntryPriority | src/vgicv3.rs:58-61 | priority and group read back |
| ListRegisters.EntryLink | src/vgicv3.rs:62-69 | the hardware bit is set iff there is a physical id, which reads back; otherwise the maintenance request is set |
| ListRegisters.CreateEntryIs | src/vgicv3.rs:52-70 | every one of the 64 bits of a built entry |
| ListRegisters.AddVirtualInterrupt | src/vgicv3.rs:73-90 | the loop computes the offer function |
| ListRegisters.OfferKeeps | src/vgicv3.rs:80-89 | no live register changes its id; the id ends up pending iff not all registers are live with other ids, else nothing changes |
| ListRegisters.Drain | src/mmio/gicv3.rs:354-356 | empties a queue, in order |
| ListRegisters.InjectInterruptHandler | src/mmio/gicv3.rs:350-360 | the distributor's queue, then the redistributor's |
| ListRegisters.DrainKeeps | src/mmio/gicv3.rs:350-360 | for queues of any length: live registers keep their ids, and every offered id ends up pending unless crowded out |
| ListRegisters.DuplicateIff | src/vgicv3.rs:80-88 | ids stay distinct iff no idle register precedes the live one with the id |
| ListRegisters.DuplicateExample | src/vgicv3.rs:80-88 | one id in two live registers |
| Gicv3.OrWord | src/mmio/gicv3.rs:422-424 | sets exactly the written bits of one register |
| Gicv3.Raised | src/mmio/gicv3.rs:102-112 | sets exactly one bit |
| Gicv3.SameCpuIff | src/mmio/gicv3.rs:166-183 | an interrupt is for this CPU iff the affinity bits of the route are those of MPIDR_EL1 |
| Gicv3.SelectedExactly | src/mmio/gicv3.rs:425-434 | the loop selects exactly the written bits that are already set in the other register |
| Gicv3.SelectedAscending | src/mmio/gicv3.rs:425-434 | once each, inside the registers and in ascending order |
| Gicv3.WriteDelivers | src/mmio/gicv3.rs:422-450 | live registers keep their ids, and every id delivered here ends up pending unless crowded out |
| Gicv3.WakeUpFields | src/mmio/gicv3.rs:190-195 | every field of the value written to ICC_SGI1R_EL1 |
| Gicv3.WakeUpIff | src/mmio/gicv3.rs:190-195 | the value written to ICC_SGI1R_EL1 raises the interrupt that delivers the queue, on the CPU of the route iff affinity level 1 is zero |
| Gicv3.WrongCpuExample | src/mmio/gicv3.rs:190-195 | two routes with one register value, which addresses the second |
| Gicv3.EntryIsFor | src/mmio/gicv3.rs:159-177 | the entry carries the id with its group bit and its priority, and the physical id |
| Gicv3.EntriesAreFor | src/mmio/gicv3.rs:425-434 | so do those of a whole write, in order |
| Gicv3.Distributor.constructor | src/mmio/gicv3.rs:63-76 | nothing enabled or pending |
| Gicv3.Distributor.TriggerInterrupt | src/mmio/gicv3.rs:146-197 | pending bit; the list registers, or the queue for another CPU and its software interrupt, by affinity, exactly when enabled, in the supported group and routed; the entry offered or queued has the id, group, priority and physical id of the interrupt, bit by bit |
| Gicv3.Distributor.TriggerWritten | src/mmio/gicv3.rs:425-434 | the loop triggers the selected ids in order and leaves the pending bits |
| Gicv3.Distributor.WriteSetEnable | src/mmio/gicv3.rs:422-434 | enables, and offers what was pending, here or elsewhere with a software interrupt each, in ascending order; each entry bit by bit as the registers of its id say |
| Gicv3.Distributor.WriteSetPending | src/mmio/gicv3.rs:438-450 | makes pending, and offers what was enabled, here or elsewhere with a software interrupt each, in ascending order; each entry bit by bit as the registers of its id say |
| Spinlock.CpuStepSound | src/mutex.rs:37-57 | every step on a CPU keeps: saved states chain back to the base DAIF, and interrupted code holds no guard |
| Spinlock.GuardsAsAsked | src/mutex.rs:37-82 | `lock` returns only with a guard for its lock: in every reachable state code outside of `lock` and `drop` has guards for exactly the locks it asked for and has not dropped, in order |
| Spinlock.FreeLockTaken | src/mutex.rs:39-54 | undisturbed, a CPU that waits for a free lock has it three steps later, with DAIF saved and interrupts masked |
| Spinlock.TakenLockRetried | src/mutex.rs:43-55 | a failed exchange leads back to waiting, with DAIF restored |
| Spinlock.DropFrees | src/mutex.rs:77-82 | a drop frees the lock of the last guard and puts back the DAIF it remembers |
| Spinlock.NeverStuck | src/mutex.rs:37-82 | the running code always has a step of its own |
| Spinlock.InterruptReturns | src/mutex.rs:37-57 | a handler that does nothing leaves everything as it was |
| Spinlock.HeldStep | src/mutex.rs:43-53 | only a successful exchange adds a guard and only a drop removes one |
| Spinlock.ExclusiveStep | src/mutex.rs:37-82 | every step of any CPU keeps the lock bits equal to the multiset of guards |
| Spinlock.InvariantRun | src/mutex.rs:37-82 | so does every run |
| Spinlock.MutualExclusion | src/mutex.rs:43-53 | in every reachable state at most one guard per lock, and the bit is set iff there is one |
| Spinlock.HolderIsMasked | src/mutex.rs:42-53 | a CPU with any guard has IRQ and FIQ masked and takes no interrupt; all its guards belong to the running code |
| Spinlock.DaifRestored | src/mutex.rs:77-82 | once all guards are dropped and all handlers left, DAIF is the original |
| Spinlock.OutOfOrderIff | src/mutex.rs:77-82 | after any drops in any order a holder is masked unless the last drop took the outermost guard and interrupts were not masked before |
| Spinlock.LastDropDecides | src/mutex.rs:77-82 | dropping all guards in any order restores DAIF iff the outermost goes last or interrupts were masked before |
| Spinlock.OutOfOrderExample | src/mutex.rs:77-82 | two guards dropped in the order they were taken |

## Left out

- Inline assembly, exception vectors, TLB and cache maintenance, physical device drivers, firmware mailbox, logging, ELF
  loading and boot code: hardware effects or thin code. A register is a field where a property needs it.
- Paging.TranslationTable.Map: requires page-aligned addresses, a size above zero, an ipa inside the top table and a
  physical range inside the 50-bit address field, because the code has no check for them and indexes, subtracts or masks
  wrongly without them.
- Stage2.Walk: has no check of the address against 2^(64 - T0SZ). For T0SZ 32 and 28 the 512 descriptors of the top
  table cover more than that; hardware faults there, and the theorems about covered addresses speak of the table
  alone.
- Paging: the page allocator is a pool of free pages, not the heap of `Allocator`; the registers VTCR_EL2 and
  VTTBR_EL2 are the fields `level`, `count` and `root`.
- Vm: kernel and device tree loading of `create_vm`, the VM manager, and what each device does with an access.
- Allocator.LinkedListAllocator.Alloc: requires that rounding up a size or an address stays below 2^64, where the code
  would panic or wrap.
- Device tree: header checks, the resumed search from a current node (it does not step over the names of subnodes and
  skips a token, so it has no pre-order meaning), malformed blocks, and `is_node_operational`.
- DtbScanner.SearchNode: assumes a well-formed encoding with property names in the strings block; error returns on
  malformed blocks are not modelled beyond the end token.
- DtbQueries.ReadReg: requires that the place of the pair does not wrap around (`RegOffsetIff` says what the code
  computes when it does), because the reads behind a wrapped place leave the property. Numbers longer than 64 bits are
  cut to the low 64 bits as the code does.
- FAT32: directory search, file names, the boot sector, and 32-bit overflow of sector numbers. A device request that
  fails is taken to move no bytes.
- Fat32.Volume.Read: the bounce buffer is a value of its own and not a place in memory.
- VirtioDevice: feature and status registers, queue placement, read-only disks, and 64-bit overflow of sector times 512.
  File transfers are a log of accesses with arbitrary success; their contents are the FAT32 model.
- VirtioDevice.VirtioBlkMmio.Operation: assumes chains that end and lie inside the descriptor table, because the code
  follows a cyclic chain for ever and reads past the table.
- VirtioDriver.VirtioBlk.OperationSync: the status that the device writes is a parameter, and the wait for it ends.
- Gicv2: distributor and CPU interface registers other than IAR and EOIR, which only store a value.
- Gicv3: the redistributor, which repeats the distributor's loops on one word; byte access to priorities;
  `maintenance_interrupt_handler`.
- Gicv3.Distributor.TriggerInterrupt: requires a priority and a route for the id if the code gets as far as looking for
  them, and an affinity level 0 below 16 for another CPU, because the code panics otherwise. The fields of the
  entry are stated for physical ids below 2^13; the code shifts a larger one into the priority.
- Spinlock: weak memory ordering, the data behind the lock, and progress under contention. Guards are dropped last in,
  first out in the runs; what other orders do is stated for drops without further locking in between.
