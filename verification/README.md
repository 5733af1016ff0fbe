# Verification of prephv

prephv is a small PowerPC hypervisor. This project models its hardest code and proves what that
code is relied on for. `dafny verify dfyconfig.toml` checks all of it.

- **dlmalloc heap** (`lib/malloc.c`, 64-bit, 16-byte alignment, no footers, locks or mspaces):
  `BitTricks`, `Masks`, `Trie`, `Links`, `TreeLinks`, `TreeSearch`, `Bins`, `Tiling`, `Heap`.
  Chunk heads, feet and link fields are maps from addresses; the class `BinTable` is the index of
  free chunks (small-bin rings, tries linked through the chunks, bin maps) and the class `Allocator`
  the heap over one segment. The invariant says that chunks tile the segment, tags and feet agree,
  no two free chunks touch, and every free chunk but dv and top is in the bin of its size.
  `Malloc`, `FreeMem`, `Memalign` and a program's own writes keep it over every run.
- **Page table and segment entries** (`mmu.c`, `guest.c`): `PageHash`, `PageTable`, `PageGroups`,
  `Translation`, `GuestMmu`. The hashed table refines a partial map from pages to frames, and the hardware path of
  sections 5.7.7.1 and 5.7.7.3 of Power ISA v2.07 Book III-S, written independently, translates
  exactly by that map in every state reached by MSR writes, RFIs and segment faults.
- **Device tree** (`fdt.c`, `fdt_ro.c`): `FdtTree`, `FdtPaths`, `FdtBlob`, `FdtQuery`, `FdtNames`,
  `FdtPathText`. Trees with properties, padding and subnodes in any order are serialised as section
  5.4 of the Devicetree Specification says; the depth-counting scans answer for the tree.
- **Timer queue** (`time.c`): `Timer`.
- **Interval lists** (`lib/ranges.c`, `mem.c`, `rom.c`): `Ranges`, `Claims`.
- **FAT driver** (`fat/`): `FatTable`, `FatChains`, `FatFile`, `LongName`.
- **Number formatting** (`lib/vsprintf.c`): `NumberText`, `NumberFormat`.

Machine words (`MachineWords`) are natural numbers with wrap-around written out; BUG_ON and FATAL stop
the machine and appear as a `halted` result, and a call that never comes back as `ended` being false.
The clock, timer callbacks, disk outcomes and what programs write into their blocks are parameters. Where the code has assertions or corruption checks (RTCHECK) that
the invariant rules out, the model asserts that they pass.

What the proofs brought to light:

- `compute_tree_index` and all unsigned wraps in the large search are sound for every size.
- The rounding loop of `internal_memalign` never ends for an alignment above 2^63, because the
  doubling overflows to zero, and for no other (`Heap.EndlessExactly`).
- `vpn_hash` applies the shifted VSID term to 256M segments as well, where the architecture does not;
  the two agree exactly up to 2^25 entry groups (`PageHash.HashesAgree`).
- `pteg_count` does not round to a power of two. The table refines a partial map for every count that
  is a multiple of 2^11, and for no other (`PageTable.KeysTellApart`). The hardware, told the largest
  power of two at or below it, translates by the map exactly when its mask and the software's agree on the bits that
  page numbers and the VSIDs reach (`PageGroups.SearchableExactly`, `Translation.HardwareExactly`). They
  do with the 4 GB of main.c and with 7 GB; with 3 GB every HV page is lost (`PageGroups.FourGigabytes`,
  `SevenGigabytes`, `ThreeGigabytes`).
- `mmu_map` of a page that is mapped adds a second entry for it, and the table is then none with one
  entry a page (`GuestMmu.Machine.Map`, `PageTable.DoubledRefinesNothing`).
- HV page numbers coincide with those of the AIL vectors in exactly the 0x101 pages from offset
  0x1230000000 (`Translation.SpacesMeet`). The hashes of the two spaces differ there, so the table
  keeps all of the 1 TB apart (`PageTable.KeyInjective`).
- A property whose length field is 2^32 - 12 makes the tag reader stay in place, and no other length
  does (`FdtBlob.PropAdvances`); a block of eight bytes keeps `fdt_next_node` scanning for ever, and a block
  without such a property never does (`FdtQuery.EightBytesNever`, `FdtQuery.ScansEndExactly`).
- `range_remove` halts when a split leaves a single unit, and so `mem_get_pages` halts exactly when the
  first free range with room starts one byte below a page (`Claims.PageSource.GetPages`). It passes over
  a range that the block would fill (`Claims.RoomExactly`).
- `range_add` accepts an interval that overlaps a range without being held by it, and the list is then
  no longer disjoint (`Ranges.RangeList.Add`).
- `rom_claim` of a block that runs past 2^32 takes at most one page, and leaves the rest available
  (`Claims.ClaimArena.TakeClaim`, `Claims.ClaimLost`); of an empty block at 0 it takes all memory
  (`Claims.SpanInPages`).
- `fatfs_add_free_space` can hand out a cluster whose number is an end mark, in a 16-bit table of 256
  sectors for example; the chain then stops before it (`FatChains.ServedExactly`, `LostCluster`).
- `fl_fread` limits a read to the file size with a 32-bit sum; a read that wraps it runs on to the end
  of the chain (`FatFile.ReadExactly`, `FatFile.ScriptExactly`). `fl_fseek` takes its 64-bit offset in 32
  bits (`FatFile.SeekExactly`). A root directory that does not fill its last sector is given one sector
  too few (`FatFile.RootDirectoryExactly`).
- The field width of `number` is a 16-bit counter that padding loops decrement past its least value:
  `%.32767u` writes 32768 blanks first (`NumberFormat.PrintedExactly`, `BlanksFromNowhere`).
- `simple_strtoull` skips neither blanks nor signs, and `simple_strtoll` no sign but a minus, so
  right-justified numbers and those with a plus do not parse back (`NumberFormat.RoundTripExactly`,
  `NumberFormat.SignedRoundTripExactly`).

## Model

| member | source | states |
|---|---|---|
| `BitTricks.MarkBin` | lib/malloc.c:2944-2951 | sets exactly bit i of a bin map |
| `BitTricks.ClearBin` | lib/malloc.c:2944-2952 | clears exactly bit i of a bin map |
| `BitTricks.IsMarked` | lib/malloc.c:2949-2953 | tests bit i of a bin map |
| `BitTricks.BinsAfter` | lib/malloc.c:2958-2959 | left_bits(idx2bit(i)) & map keeps exactly the marked bins above i |
| `BitTricks.LeastIndex` | lib/malloc.c:2956-3004 | least_bit and compute_bit2idx give the lowest marked bin |
| `BitTricks.BitToIdx` | lib/malloc.c:2994-3004 | the shift cascade recovers i from 1 << i |
| `BitTricks.RemainderlessBin` | lib/malloc.c:4608-4612 | the two-bit test finds bin i or i + 1 exactly when one is marked, preferring i |
| `BitTricks.LargerSmallBins` | lib/malloc.c:4626 | the shifted-back map masked by left_bits is the marked bins above i |
| `BitTricks.ComputeTreeIndex` | lib/malloc.c:2907-2924 | the shift-and-subtract index is the bin whose size range holds S; 0 below 256 |
| `BitTricks.TreeBinRange` | lib/malloc.c:2935-2938 | minsize(i) <= S, and S < minsize(i + 1) for i < 31 |
| `BitTricks.TreeBinMonotone` | lib/malloc.c:2907-2938 | larger sizes never have smaller bins |
| `BitTricks.FirstKey` | lib/malloc.c:2930-2933 | the left shift puts the highest bit that varies within the bin on top |
| `BitTricks.NextKey` | lib/malloc.c:3690-3706 | the top bit of the shifted size selects the half of the range the size is in, at every level |
| `Trie.InsertCorrect` | lib/malloc.c:3674-3739 | insertion keeps the trie shape and one node per size, and adds exactly one chunk |
| `Trie.RemoveCorrect` | lib/malloc.c:3742-3811 | removal, by ring or by a deepest leaf, keeps the trie shape and removes exactly one chunk |
| `Trie.InsertIsPut` | lib/malloc.c:3688-3737 | insertion changes one place of the trie only |
| `Trie.RemoveAt` | lib/malloc.c:3742-3811 | removal changes the trie only at the chunk's own node |
| `TreeLinks.FindPlace` | lib/malloc.c:3690-3737 | following the size bits ends at the empty child or same-size node where the chunk belongs |
| `TreeLinks.LinkLarge` | lib/malloc.c:3674-3739 | the assigned links represent the trie after insertion; no other chunk's links change |
| `TreeLinks.FindLeaf` | lib/malloc.c:3753-3764 | the descent by right, else left, child ends at a leaf |
| `TreeLinks.UnlinkFromTree` | lib/malloc.c:3742-3811 | the assigned links represent the trie after removal; no other chunk's links change |
| `TreeSearch.WalkForFit` | lib/malloc.c:4466-4491 | after the path walk every size that fits is matched by the candidate or lies in the deepest untaken right subtree |
| `TreeSearch.Leftmost` | lib/malloc.c:4499-4506 | the leftmost descent finds a smallest size that fits |
| `TreeSearch.Considered` | lib/malloc.c:4472-4477 | the unsigned wraps of rsize = -nb and chunksize - nb never make a chunk that is too small a candidate |
| `Bins.BinTable.constructor` | lib/malloc.c:3937-3944 | empty bins over any memory satisfy the index invariant |
| `Bins.BinTable.InsertSmall` | lib/malloc.c:3596-3612 | the chunk is put at the front of the bin of its size; all bins stay sound |
| `Bins.BinTable.UnlinkSmall` | lib/malloc.c:3615-3638 | the chunk leaves its bin, whose map bit is cleared exactly when it empties |
| `Bins.BinTable.UnlinkFirstSmall` | lib/malloc.c:3641-3656 | the first chunk of a non-empty bin is removed and returned, and the rest of the bin stays in order |
| `Bins.BinTable.InsertLarge` | lib/malloc.c:3674-3739 | the chunk joins its tree bin; all bins stay sound |
| `Bins.BinTable.UnlinkLarge` | lib/malloc.c:3742-3811 | the chunk leaves its tree bin, whose map bit is cleared exactly when it empties |
| `Bins.BinTable.SearchLarge` | lib/malloc.c:4460-4506 | a smallest binned chunk of size >= nb, or none exactly when none fits |
| `Bins.BinTable.SearchSmallest` | lib/malloc.c:4531-4548 | the smallest chunk of all tree bins |
| `Bins.BinTable.HeadsFrame` | lib/malloc.c:3364-3405 | only the sizes of binned chunks matter to the index |
| `Bins.BinTable.Overwrite` | lib/malloc.c:2098-2115 | cells outside binned chunks may hold anything |
| `Tiling.PinuseMeaning` | lib/malloc.c:2161-2182 | a free chunk has pinuse set; a clear pinuse bit leads back through the foot to a free chunk |
| `Tiling.Taken` | lib/malloc.c:3108-3111 | allocating a whole free chunk keeps tiling, tags and feet |
| `Tiling.Split` | lib/malloc.c:4518-4520 | splitting a free chunk keeps tiling, tags and feet |
| `Tiling.SplitTop` | lib/malloc.c:4684-4689 | splitting top keeps tiling, tags and feet |
| `Tiling.SplitInUse` | lib/malloc.c:4961-4962 | splitting an allocated chunk keeps tiling, tags and feet |
| `Tiling.Merge` | lib/malloc.c:2313-2318 | merging a stretch of chunks into one free chunk keeps tiling, tags and feet, with no two free neighbours |
| `Tiling.MergeTop` | lib/malloc.c:4760-4763 | merging the last chunks into top keeps tiling, tags and feet |
| `Tiling.PayloadWritten` | lib/malloc.c:2098-2115 | bytes between a live chunk's head and the next head do not matter to the invariant |
| `Tiling.Covered` | lib/malloc.c:3449-3480 | every address below top is in exactly one chunk |
| `Heap.PaddedRange` | lib/malloc.c:2257-2263 | the padded size is aligned, covers the request and its overhead, and is small exactly for small requests |
| `Heap.PaddedLeast` | lib/malloc.c:2257-2263 | the padded size is the least multiple of 16 that is at least 32 and has room for the bytes and a head word |
| `Heap.DvServes` | lib/malloc.c:4664-4693 | when the bins pass, dv is the chunk the policy asks for if it fits, and otherwise nothing fits |
| `Heap.Allocator.constructor` | lib/malloc.c:3922-3944 | a fresh segment satisfies the heap invariant |
| `Heap.Allocator.TakeWhole` | lib/malloc.c:4613-4616 | a free chunk becomes live with its size; the invariant holds |
| `Heap.Allocator.SplitOff` | lib/malloc.c:4518-4520 | the lower part becomes live, the remainder is a free chunk to be filed |
| `Heap.Allocator.ReplaceDv` | lib/malloc.c:3660-3669 | the old dv, always small, is binned and the remainder becomes dv |
| `Heap.Allocator.MallocFromTree` | lib/malloc.c:4460-4528 | the best binned chunk is allocated unless dv fits at least as well; the wrapped dvsize - nb is harmless |
| `Heap.Allocator.MallocFromBins` | lib/malloc.c:4600-4652 | small requests: an exact bin, else with dv too small the best fit of all bins |
| `Heap.Allocator.MallocSmallFromTree` | lib/malloc.c:4531-4562 | the smallest tree chunk, a best fit, is used, and a remainder of at least a chunk becomes dv |
| `Heap.Allocator.MallocFromDv` | lib/malloc.c:4664-4682 | dv is split or used up |
| `Heap.Allocator.MallocFromTop` | lib/malloc.c:4684-4694 | top is split |
| `Heap.Allocator.Malloc` | lib/malloc.c:4570-4704 | a new live chunk, 16-byte aligned, of at least the least size for the bytes and less than 32 bytes more, chosen by the documented policy among chunks of that size; fails without change only if no free chunk has the bytes and 8 more; all other live chunks keep place and size |
| `Heap.Allocator.ConsolidateForward` | lib/malloc.c:4758-4803 | the freed stretch is merged with what follows and filed in top, dv or its bin |
| `Heap.Allocator.Dispose` | lib/malloc.c:4389-4455 | giving a live chunk back removes exactly it from the live chunks, merges it with free neighbours, dv and top as documented, and keeps the whole invariant |
| `Heap.Allocator.FreeMem` | lib/malloc.c:4708-4820 | dlfree of a live block removes exactly that block; of null, nothing |
| `Heap.EndlessExactly` | lib/malloc.c:4920-4923 | the rounding loop, on 64-bit words, never ends exactly for alignments above 2^63 |
| `Heap.RoundAlignment` | lib/malloc.c:4918-4924 | the least power of two that is at least the alignment and 32; it comes back exactly for alignments up to 2^63 |
| `Heap.AlignedSpot` | lib/malloc.c:4947-4952 | an aligned spot leaving a leader of 32 to alignment + 16 bytes |
| `Heap.Allocator.TrimLeader` | lib/malloc.c:4938-4966 | the leader is given back and the block starts aligned and big enough |
| `Heap.Allocator.TrimEnd` | lib/malloc.c:4968-4978 | the trailer is given back, leaving at most 32 bytes to spare |
| `Heap.Allocator.Memalign` | lib/malloc.c:4916-4988 | one new live block, aligned to the rounded alignment, of at least the least size for the bytes and at most 32 more; the invariant holds; all others keep place and size; comes back exactly for alignments up to 2^63, and fails only if nothing has that size, the alignment and 32 more |
| `Heap.Allocator.WriteBlock` | lib/malloc.c:2098-2115 | a program may write anything into its block |
| `Heap.Allocator.BlocksApart` | lib/malloc.c:3449-3480 | live chunks do not overlap |
| `Heap.Allocator.ChunkChecked` | lib/malloc.c:3251-3318 | what the debug checkers assert of each chunk follows from the invariant |
| `Heap.Allocator.Traverse` | lib/malloc.c:3449-3480 | following next_chunk from the base meets every chunk in order, each passing the checks, and accounts for every byte |
| `Heap.RunProgram` | lib/malloc.c:4570-4988 | over every run of allocations, frees, aligned allocations and writes: live blocks are disjoint, as large as requested and aligned as each was asked for; a run stops only at an alignment above 2^63 |
| `Heap.OnItsPower` | lib/malloc.c:4916-4988 | a live block asked for at a power of two lies on a multiple of it |
| `PageHash.HashesAgree` | mmu.c:366-396 | vpn_hash selects the architected group for all pages if and only if the segment is 1T or there are at most 2^25 groups |
| `PageHash.GroupResidue` | mmu.c:366-396 | the group is the exclusive or of VSID and page number, reduced by the group count |
| `PageHash.GroupsAgree` | mmu.c:350-363 | for every RAM size, software mask and SDR1 give the same group for every hash if and only if pteg_count is a power of two |
| `PageHash.PtegsInNumbers` | mmu.c:350-363 | a group for every 8 KB of RAM, at least 2^11 and at most 2^39 |
| `PageGroups.SearchableExactly` | mmu.c:366-396 | the hardware looks for all pages of a space in the groups software uses if and only if the two masks agree on the 16 bits of page numbers and on what the space's VSIDs give the hash; for every count that is a multiple of 2^11 |
| `PageGroups.PowersSearchable` | mmu.c:817-846 | a power of two is enough, up to 2^25 for 256M segments |
| `PageGroups.FourGigabytes` | mmu.c:350-363 | with 4 GB every page of the four spaces is looked for in its group |
| `PageGroups.ThreeGigabytes` | mmu.c:350-363 | with 3 GB every HV page and every page of the guest's real mode is looked for in another group than its own, and no other page |
| `PageGroups.SevenGigabytes` | mmu.c:350-363 | with 7 GB the count is no power of two, and every page is looked for in its group |
| `PageGroups.AvpnFieldMask` | include/ppc-defs.h:321-323 | comparing abbreviated page numbers masks the V word with 0x3fffffffffffff80 |
| `PageTable.KeyInjective` | mmu.c:366-469 | group and abbreviated page number determine the page, although 11 bits are dropped, for every group count that is a multiple of 2^11 and all of the four spaces |
| `PageTable.KeysTellApart` | mmu.c:366-469 | no two pages share group and abbreviated page number if and only if the group count is a multiple of 2^11 |
| `PageTable.MatchIsOwn` | mmu.c:584-599 | an entry in force that compares equal in a page's group is that page's entry |
| `PageTable.MapBasePage` | mmu.c:694-757 | one base page is inserted, all others unchanged; fails only on a full group; a page that was mapped gets a second entry |
| `PageTable.DoubledRefinesNothing` | mmu.c:650-765 | two entries for one key are no table with one entry a page |
| `PageTable.UnmapBasePage` | mmu.c:570-612 | one base page is deleted, all others unchanged; fails exactly on an absent page |
| `PageTable.MapVpn` | mmu.c:650-765 | all base pages of an actual page (4096 for 4K in 16M) are mapped, or the group of the next one is full; afterwards the table has one entry a page if none was mapped before, and a doubled one else |
| `PageTable.UnmapVpn` | mmu.c:541-620 | all base pages are unmapped exactly when all were mapped |
| `Translation.VpnOfEa` | mmu.c:120-158 | on supported addresses the page number is the space's first page plus the offset, also where the segment register overlaps the address |
| `Translation.VpnAgrees` | mmu.c:67-158 | the segment entry for an address has the size, base page size and VSID that the software reckons with |
| `Translation.SpacesInNumbers` | mmu.c:120-158 | the address spaces and every page number in them, in numbers |
| `Translation.EntriesInNumbers` | mmu.c:236-263 | the segment entries of HV, AIL, GRM and guest segments, in numbers |
| `Translation.SpacesMeet` | mmu.c:50-158 | over the whole 1 TB an HV address has the page number of an AIL address if and only if it lies in the 0x101 pages from offset 0x1230000000, and its 16M page if and only if it is the one there |
| `Translation.EncodedFields` | mmu.c:436-469 | the hardware reads back valid, primary, segment size, base and actual page size from the encoded words, and finds the bit of PTE_R_M in V |
| `Translation.RFields` | mmu.c:398-434 | the hardware reads back the real page, the large-page encoding, what supervisor and user may do, and of the storage control bits only M; no other bit is set |
| `Translation.HardwareAgrees` | mmu.c:67-158 | segment entry, hash, group search and match translate an address exactly as the mappings say, or fault, for every count with which the hardware looks in the pages' groups |
| `Translation.HardwareExactly` | mmu.c:67-158 | every table's mappings of a space are what the hardware translates by if and only if it looks for the space's pages in their groups |
| `GuestMmu.OneMatch` | mmu.c:288-347 | no address ever matches two segment entries |
| `GuestMmu.MatchIsExpected` | mmu.c:236-347 | the entry an address matches is the one ea_2_seg_size and ea_2_base_size assume |
| `GuestMmu.MissIsGuest` | guest.c:126-142 | only a guest segment with the guest MMU on can be missing |
| `GuestMmu.Machine.constructor` | mmu.c:817-846 | mmu_init and slb_init satisfy the invariant, with the two entries of HV and AIL alone in an SLB of 32, and pteg_count groups of which SDR1 announces the largest power of two |
| `GuestMmu.Machine.GuestUpdate` | mmu.c:327-347 | the switch swaps the GRM entry and the guest's 256M entries, leaving never both |
| `GuestMmu.Machine.UpdateMsr` | guest.c:34-43 | every MSR write with IR equal to DR keeps the invariant; any other halts |
| `GuestMmu.Machine.SegmentFault` | mmu.c:288-324 | a real segment fault on a guest address is always served, and the right entry installed |
| `GuestMmu.Machine.Map` | mmu.c:768-794 | after a successful map every address of the page translates to ra plus its offset, with the rights asked for, all other addresses, in both modes, as before; the table still has one entry a page if no address was mapped before, and a doubled one else |
| `GuestMmu.ChecksInNumbers` | mmu.c:623-794 | the checks of map and unmap: page and real address aligned, 60 bits of real address, no small page in a space of large ones |
| `GuestMmu.Machine.Unmap` | mmu.c:623-647 | after unmap the page's addresses fault, all others as before; halts exactly when some address was not mapped |
| `GuestMmu.Machine.MapRange` | mmu.c:797-814 | after success the whole range translates to consecutive real addresses with the rights asked for, all else as before; the table has one entry a page if no address was mapped before, and a doubled one else |
| `GuestMmu.Machine.Access` | guest.c:126-142 | an access, with a segment fault served on the way, sees the real address and the rights that the mappings say |
| `GuestMmu.Machine.GuestInit` | guest.c:46-117 | after start-up guest RAM can be read and written by supervisor and user, in both MMU modes at the same real addresses; less than 32 MB or a part of 16 MB halts |
| `GuestMmu.Machine.RunGuest` | guest.c:120-311 | over every run of MSR writes, RFIs and accesses the guest sees a plain page table under its current MSR |
| `GuestMmu.MsrBits` | include/guest.h:55-62 | the guest's MMU is on by bit 0x20 of its MSR, which is accepted when bit 0x10 is the same |
| `GuestMmu.ReturnTakesSrr1` | guest.c:120-311 | a return from interrupt takes the MSR that was put into SRR1 |
| `GuestMmu.SwitchedByMsr` | guest.c:120-311 | an access after a move to the MSR is translated with the MMU on for 0x30 and off for 0; 0x20 and 0x10 halt |
| `FdtTree.StreamListed` | fdt.c:142-190 | the token stream of a tree lists its nodes in preorder with exact depths |
| `FdtTree.NextEntry` | fdt.c:150-190 | a scan from a node leads to the next node in preorder while it is deeper than the scan's origin |
| `FdtBlob.SerialiseHolds` | fdt.c:95-140 | a serialised stream can be read back token by token |
| `FdtBlob.PropAdvances` | fdt.c:114-136 | a property's end is past its start exactly when its length is not 2^32 - 12 |
| `FdtBlob.NextTag` | fdt.c:77-141 | at a token: its tag and the next token's offset; on any block what TagAt says, and an offset that advances except at a property of length 2^32 - 12 |
| `FdtBlob.TagOfToken` | fdt.c:77-141 | at a token of any block the tag read is the token's and the next offset the one behind it |
| `FdtBlob.TagAdvances` | fdt.c:77-141 | on any block the reader gives one of two errors with the end tag, or an aligned offset past the start, or stays in place exactly at a property of length 2^32 - 12 |
| `FdtBlob.TagErrors` | fdt.c:77-141 | exactly when a block is truncated at an offset, and exactly when it is badly structured there |
| `FdtBlob.EightBytes` | fdt.c:114-136 | a block of eight bytes on which the reader stays in place |
| `FdtQuery.NextNode` | fdt.c:143-190 | on any block the scan comes back exactly when the byte scan ends, with its node, exit or error |
| `FdtQuery.ScanOfTokens` | fdt.c:151-190 | on a serialised stream the byte scan finds what the token scan finds |
| `FdtQuery.ScansEndExactly` | fdt.c:151-190 | all scans of a block end if and only if it has no aligned property of length 2^32 - 12 |
| `FdtQuery.EightBytesNever` | fdt.c:143-190 | fdt_next_node never comes back on a block of eight bytes |
| `FdtQuery.SmallTreeSerialised` | fdt.c:77-141 | the 52 bytes of a tree with a property, padding and a subnode |
| `FdtQuery.SmallTags` | fdt.c:77-141 | every tag read from those bytes, and the two errors |
| `FdtQuery.SmallScans` | fdt.c:143-190 | every scan of those bytes: to a node, out of one, past the end, and from no node |
| `FdtQuery.NodeOrder` | fdt.c:151-190 | preorder and offsets go together |
| `FdtQuery.Subnode` | fdt_ro.c:108-124 | the first child's offset, or not found |
| `FdtQuery.Sibling` | fdt_ro.c:145-161 | the next sibling's offset, or not found |
| `FdtQuery.SupernodeAtDepth` | fdt_ro.c:415-447 | the ancestor at a depth and the node's own depth, or not found |
| `FdtQuery.NodeDepth` | fdt_ro.c:449-458 | the length of the node's path |
| `FdtQuery.ParentOffset` | fdt_ro.c:460-468 | the parent's offset; not found for the root |
| `FdtNames.NodenameEqMeans` | fdt_ro.c:58-76 | comparing bytes in the block is comparing names, with or without unit address |
| `FdtNames.NamesByExample` | fdt_ro.c:30-50 | what matches the name cpu@1 |
| `FdtNames.SubnodeNamed` | fdt_ro.c:126-143 | the first child in order whose name matches, or not found |
| `FdtPathText.GetPath` | fdt_ro.c:363-413 | the node's path text, NUL-terminated, exactly when it fits; no-space otherwise |
| `FdtPathText.PathsByExample` | fdt_ro.c:363-413 | the texts of three paths |
| `FdtPathText.PathOffset` | fdt_ro.c:195-237 | an absolute path resolves name by name to the first matching child |
| `FdtPathText.PathRoundTrip` | fdt_ro.c:195-413 | the path text of a node resolves to that node |
| `FdtPathText.ThereAndBack` | fdt_ro.c:195-413 | writing a node's path and resolving it returns the node's offset |
| `Timer.TimerQueue.EnqueueInt` | time.c:34-60 | the request goes behind all that are not later; the queue stays sorted without duplicates |
| `Timer.TimerQueue.Handle` | time.c:63-112 | due requests fire in deadline order, each at a reading that had reached it; re-armed ones are queued and none skipped; all left are later than the last reading; DEC is the distance to the first, capped |
| `Timer.TimerQueue.Dequeue` | time.c:147-164 | removes exactly the request |
| `Ranges.RangeList.Add` | lib/ranges.c:67-90 | union with the interval; the list stays sorted and disjoint if and only if the interval was clear; halts exactly on an interval of at most one unit or one held by a range |
| `Ranges.RangeList.Remove` | lib/ranges.c:93-137 | set difference, list sorted and disjoint; halts exactly when a split would leave one unit below |
| `Ranges.RangeList.Count` | lib/ranges.c:27-37 | the length of the list |
| `Claims.PageSource.GetPages` | mem.c:146-175 | the page-aligned start of the first range with room; initial memory stays partitioned into free memory and disjoint blocks; null exactly when no range has room; halts exactly on a bad length or when that first range starts a byte below a page |
| `Claims.RoomExactly` | mem.c:161-170 | a range has room if and only if an aligned block fits and leaves a byte behind it; the block taken is the first such |
| `Claims.PagePassedOver` | mem.c:161-170 | a range of exactly one page is passed over for a page |
| `Claims.AlignUpAligned` | include/defs.h:40-44 | aligning up to a power of two gives a multiple of it |
| `Claims.AlignUpMasked` | include/defs.h:40-44 | aligning up with any mask clears the mask's bits |
| `Claims.ClaimArena.TakeClaim` | rom.c:123-153 | available memory stays whole pages; the claim is clear of it if and only if it ends by 2^32 or nothing past its first page was available; arena claims follow one another within bounds; halts exactly when the arena is exhausted or the pages, in 32 bits, are empty |
| `Claims.SpanPastTheEnd` | rom.c:149-151 | a block that runs past 2^32 goes through if and only if it ends, wrapped, in the page it starts in, past its start; then that page is taken |
| `Claims.SpanInPages` | rom.c:149-151 | the pages taken for a block up to 2^32; for an empty block at 0, all of them |
| `Claims.ClaimLost` | rom.c:149-151 | of 0xFFFFFF00 bytes claimed at 0x1800 only 0x1000 to 0x1FFF are taken |
| `FatTable.FatBuffers.constructor` | fat/fat_table.c:60-80 | empty buffers, each with the address of no sector, show the disk |
| `FatTable.FatBuffers.Writeback` | fat/fat_table.c:83-112 | the table seen through the buffers does not change, whether or not the disk takes the write |
| `FatTable.FatBuffers.ReadSector` | fat/fat_table.c:116-174 | the buffer with the sector as the file system sees it; a miss recycles the last buffer and moves it to the front; list a permutation, no sector twice, table unchanged even when the disk fails |
| `FatTable.FatBuffers.SetEntry` | fat/fat_table.c:52-55 | changes exactly one entry of the table |
| `FatTable.FatBuffers.Purge` | fat/fat_table.c:179-195 | on success the disk is the table |
| `FatChains.Fat.FindNext` | fat/fat_table.c:205-256 | the next cluster of the logical table, which is unchanged, or the end for 16-bit entries from 0xFFF8 on and 32-bit ones whose low 28 bits are from 0x0FFFFFF8 on |
| `FatChains.LinksInNumbers` | fat/fat_table.c:225-255 | which entries lead to a cluster, which to the end, and which are free, in numbers |
| `FatChains.EntriesFillSector` | fat/fat_table.c:215-243 | a sector of 512 bytes holds 128 entries of four bytes or 256 of two |
| `FatChains.Fat.SetCluster` | fat/fat_table.c:349-381 | exactly one entry of the logical table changes |
| `FatChains.Fat.FindBlank` | fat/fat_table.c:288-338 | the first free cluster from the start, or none exactly when there is none |
| `FatChains.Fat.FreeChain` | fat/fat_table.c:389-407 | terminates on every table; on a chain frees exactly its members, and the count of used entries drops by their number |
| `FatChains.Fat.AddFreeSpace` | fat/fat_write.c:45-76 | the lowest free clusters from the root on, as many as asked for or as there are, in ascending order, are linked behind the tail and end the chain; all else unchanged; the count of used entries rises by their number |
| `FatChains.OtherChains` | fat/fat_write.c:45-76 | every other chain is untouched by an extension |
| `FatChains.ChainExtended` | fat/fat_write.c:45-76 | the extended chain is the old chain followed by the added clusters, up to the first with the number of an end mark |
| `FatChains.ExtendedExactly` | fat/fat_write.c:45-76 | the chain reaches all added clusters if and only if none has the number of an end mark |
| `FatChains.ServedExactly` | fat/fat_write.c:45-76 | known before the call: all clusters asked for are taken and reached if and only if so many free ones from the root on have numbers below the end marks |
| `FatChains.LostCluster` | fat/fat_write.c:45-76 | in a full 16-bit table with entry 0xFFF8 free, that cluster is taken and not reached |
| `FatChains.Fat.CountFree` | fat/fat_table.c:445-478 | the number of zero entries |
| `FatFile.File.NextInChain` | fat/fat_cache.c:57-91 | the cluster cache and the table give the same successor |
| `FatFile.File.LookupCluster` | fat/fat_filelib.c:551-602 | the lookup shortcuts agree with walking the chain from the start, up to its end |
| `FatFile.ClustersTile` | fat/fat_access.c:195-201 | from cluster 2 on, clusters tile the data area |
| `FatFile.RootDirectoryExactly` | fat/fat_access.c:195-201 | the sectors left for the root directory of a 16-bit volume hold all of it if and only if its entries fill them |
| `FatFile.File.ReadSectors` | fat/fat_filelib.c:542-616 | the file's own sectors, as many as remain in the cluster, and none past the end of the chain |
| `FatFile.File.Fread` | fat/fat_filelib.c:1005-1103 | for every int count: the bytes of the data area that the chain names, from the position to the limit that the 32-bit sum sets, or to the end of the chain; the position advances by that much |
| `FatFile.ReadExactly` | fat/fat_filelib.c:1033-1035 | a read inside the file gives content[pos .. min(pos + n, length)) if and only if pos + n < 2^32 or the chain has no byte past the length; one of a negative count gives nothing if and only if the sum stays within the length or the rest of the file is 2^31 bytes or more |
| `FatFile.ReadWraps` | fat/fat_filelib.c:1033-1035 | what a read gives otherwise: all it asked for or the chain has, or for a negative count the rest of the file |
| `FatFile.ReadTooFar` | fat/fat_filelib.c:1033-1035 | near 4 GB a read of 512 bytes gives 512 where 256 are left |
| `FatFile.File.RunScript` | fat/fat_filelib.c:1005-1172 | over every interleaving of reads and seeks the file behaves as its stored bytes, a length and a 32-bit position |
| `FatFile.ScriptExactly` | fat/fat_filelib.c:1005-1172 | a script of reads and seeks sees plain contents with a position kept within the file if and only if each of its reads and seeks is right where it happens |
| `FatFile.ScriptsExactly` | fat/fat_filelib.c:1005-1172 | all scripts with reads of up to c bytes, and seeks right from everywhere, see plain contents if and only if length + c <= 2^32 or the chain has no byte past the length |
| `FatFile.SeekExactly` | fat/fat_filelib.c:1107-1172 | a seek by any offset leads to the target kept within the file if and only if the offset, or its sum with the position, is right in 32 bits or wraps to where the file's end or start clamps it |
| `FatFile.SeekWraps` | fat/fat_filelib.c:1107-1172 | where a seek leads otherwise: to the target of an offset that is the same in 32 bits |
| `LongName.FilenameToLfn` | fat/fat_misc.c:209-245 | the entry holds its thirteen characters, terminator and padding |
| `LongName.SlotsInNumbers` | fat/fat_misc.c:211 | the thirteen places of an entry's characters |
| `LongName.EntriesLeast` | fat/fat_misc.c:190-204 | as few entries as hold the name |
| `LongName.LfnCache.CacheEntry` | fat/fat_misc.c:59-92 | the entry's characters go to their place, padding as blanks; bad indices are ignored |
| `LongName.LfnCache.Get` | fat/fat_misc.c:97-109 | the collected text up to its first terminator |
| `LongName.RoundTrip` | fat/fat_write.c:346-353 | every name of 1 to 260 bytes without 0x00 and 0xFF survives splitting and collecting |
| `NumberText.Tenth` | lib/vsprintf.c:139-212 | the multiply-and-shift forms divide by ten over the ranges used |
| `NumberText.PutDecTrunc` | lib/vsprintf.c:138-175 | the decimal digits of a number below 100000, no leading zero |
| `NumberText.PutDecFull` | lib/vsprintf.c:176-216 | exactly five decimal digits |
| `NumberText.PutDec` | lib/vsprintf.c:217-229 | the decimal digits of any number, no leading zero |
| `NumberText.ValueOfDigits` | lib/vsprintf.c:138-229 | digits are below the base, have the number as their value, and no zero on top |
| `NumberFormat.Number` | lib/vsprintf.c:271-390 | sign, prefix, padding and digits in their places, with the padding that the 16-bit counters give; nothing written at or past end; the length that would have been needed |
| `NumberFormat.PrintedExactly` | lib/vsprintf.c:271-390 | the text written is the text asked for if and only if the room left does not run out of 16 bits by the padding loops' decrements |
| `NumberFormat.PrintedLooks` | lib/vsprintf.c:271-390 | then the text is blanks, sign, prefix, zeros, digits, blanks: the digits show the absolute value in the base and case asked for, and the field is as wide as asked or as needed |
| `NumberFormat.BlanksFromNowhere` | lib/vsprintf.c:340-349 | a precision of 32767 without a width writes 32768 blanks first |
| `NumberFormat.SmallerBuffer` | lib/vsprintf.c:271-390 | a smaller buffer gets a prefix of what a larger one gets |
| `NumberFormat.Strtoull` | lib/vsprintf.c:33-76 | the value in 64 bits of the longest run of digits after an optional 0x, and where it ends, in a base given or guessed |
| `NumberFormat.DigitCharacters` | lib/vsprintf.c:63-67 | which characters are digits, and with which values |
| `NumberFormat.StartExactly` | lib/vsprintf.c:60-61 | in base 16 a leading 0x or 0X is skipped, and nothing else ever |
| `NumberFormat.RoundTrip` | lib/vsprintf.c:53-390 | parsing undoes formatting, for every 64-bit value and base 8, 10 and 16, when no sign and no blank come before the digits |
| `NumberFormat.RoundTripExactly` | lib/vsprintf.c:53-390 | the text of any conversion parses back if and only if the number is zero or neither a sign nor a blank comes before the digits |
| `NumberFormat.SignPrinted` | lib/vsprintf.c:289-301 | the text starts with a minus exactly for negative numbers, and with plus or blank as asked for the others |
| `NumberFormat.Strtoll` | lib/vsprintf.c:95-115 | a minus negates the value read, in 64 bits |
| `NumberFormat.SignedRoundTripExactly` | lib/vsprintf.c:95-390 | simple_strtoll gives a signed number back if and only if it is zero, or no blank and no sign but a minus come before the digits |
| `NumberFormat.GuessedRight` | lib/vsprintf.c:33-44 | the guessed base is the right one for prefixed texts and decimal ones without a leading zero |
| `NumberFormat.BlankWhenRoom` | lib/vsprintf.c:340-349 | blanks come first exactly when the text is right-justified with room to spare |

## Left out

- sys_alloc, sys_trim, release_unused_segments, mmapped chunks, realloc, calloc, ialloc and mspaces: the heap is one initialised segment, and `Malloc` returns 0 where the code would ask for more memory.
- FOOTERS, locks and the corruption and usage error actions: not built; the checks that guard them are proved to pass for live blocks.
- Chunk fields share bytes with payloads in the code; in the model each address has its own head, foot and link record, and `WriteBlock` lets a program change every record inside its block.
- TLB invalidation and memory barriers: the translation follows the tables directly. What an access may do is read from the entry and reported with the real address.
- GuestMmu.Machine.Map: the five protections of include/ppc-defs.h; the code or-s whatever it is given into the entry.
- exc.c, SPR, BAT and SPRG emulation and firmware calls in guest.c: per-branch dispatch.
- GuestMmu.Machine.constructor: RAM sizes for which pteg_count is a multiple of 2^11, that is below 16 MB or whole multiples of 16 MB; for others page keys collide, as `PageTable.KeysTellApart` says.
- GuestMmu.Machine.Access: the group count is one with which the hardware looks in the pages' groups; `Translation.HardwareExactly` says that the result fails for some table otherwise.
- GuestMmu.Machine.RunGuest: as for Access, for the guest's two modes.
- Secondary page table groups: the code never uses them, and the hardware search is modelled on the primary group, where every entry has the secondary bit clear.
- FdtBlob.NextTag: blocks of version 17 and below 2 GB only; older versions have no structure size to check against.
- Aliases, phandles, property lookup and compatible searches in fdt_ro.c: easy members over the same scan.
- Timer.TimerQueue.Handle: callbacks re-arm only their own request, to deadlines past a horizon that the clock does not reach during the call; without that the loop need not end.
- list_head pointers in time.c and lib/ranges.c: the lists are sequences, and the saved next pointer is the element it points to.
- Re-entrancy of range_alloc through the heap, and start-up (early) memory in mem.c.
- Claims.ClaimArena.TakeClaim: RAM below 4 GB; blocks placed by the guest may overlap, as the code allows, and only arena claims are kept apart.
- FdtPathText.GetPath: node names without a slash, which section 2.2.1 of the Devicetree Specification does not allow in names.
- FatTable.FatBuffers.SetEntry: a FAT sector is its row of 16- or 32-bit entries; the little-endian bytes of an entry are not modelled. The FSINFO hint sector is not buffered in the model.
- FatChains.Fat.FreeChain: the disk works during chain operations, failing disks being modelled for buffering only, and links lead into the table; past it the code reads sectors that are no part of the table.
- FatFile.File.LookupCluster: places up to the first past the end of the chain, which are all that fl_fread asks for; further on the code would read past the table.
- FatFile.File.ReadSectors: as for LookupCluster.
- FatFile.File.RunScript: as for Fread.
- FatFile.File.Fread: files opened for reading only, and a chain that holds at least the length; fl_fwrite, directories, time stamps and formatting are left out.
- Buffers of more than one FAT sector: buffers could then overlap; the configured size is one.
- vsscanf, pointers and strings in lib/vsprintf.c: plumbing.
- console.c, log.c, assembly and start-up code.
