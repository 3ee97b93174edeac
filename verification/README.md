# A verified model of the oemu core

oemu is an AArch64 emulator written in C11. This project models the parts of it that carry state machines
with stated invariants, over RAM-only physical memory and already-decoded instructions, and proves what they
promise. `dafny verify dfyconfig.toml` checks everything.

- **Guest memory** (`Words`, `FlatMemory`, `GuestMemory`, `Permissions`). The region table over host blocks
  refines one flat byte map; loads and stores are stated on that map.
- **Translation** (`Translation`, `WalkMeaning`, `TranslationCache`, `Pinning`, `BusSpec`, `RefusalMeaning`,
  `MmuBus`). The table walk, the 4096-entry cache in front of it, and the bus layer that splits misaligned
  accesses. The main theorems are over whole runs: the cache only ever repeats a walk of some memory since
  its last flush, and of the current memory when the path is unchanged; a misaligned store is atomic even
  when it overwrites the tables that translate it, because the check loop has pinned its pages.
- **Transfers under translation** (`PairAccess`, `TranslatedTransfer`, `SystemInstructions`, `AtomicPairs`).
  Validate-then-commit for every memory form on top of that layer, the syndrome a refusal delivers, the SYS
  space -- invalidation, address translation and DC ZVA -- and what an exclusive pair is worth across
  context switches and mappings.
- **Device tree** (`TreeFormat`, `TreeMeaning`, `TreeReader`, `TreeRoundTrip`, `TreeBuilder`). The in-place
  writer, the cursor-and-stack reader, and their round trip on every finite tree.
- **Interrupt controller** (`GicProtocol`, `GicMeaning`, `GicDevice`). The priority scan, the drain order,
  and safety over all runs of register accesses.
- **Exceptions and the virtual CPU** (`ExceptionState`, `SystemRegisters`, `RegisterMeaning`,
  `ExceptionCore`, `VcpuRun`, `TrapMeaning`, `VcpuCore`). Entry and return with banked stack pointers,
  transparency of exceptions nested to any depth, the register table, and the invariants and accounting of
  every guest run. A PSTATE word is a record of its fields; `SystemRegisters.PackUnpack` shows that this
  loses nothing.
- **Executor** (`Alu`, `ExclusiveMonitor`, `RegisterFile`, `Executor`, `GuestPairs`, `InstructionMeaning`,
  `TransferMeaning`). Exact carry arithmetic and high multiplies, precise memory instructions, and atomic
  exclusive pairs.
- **Loader and serial port** (`ElfLoader`, `ElfMeaning`, `UartStream`, `UartMeaning`, `UartDevice`).

Where a part is a format or a set of encodings -- descriptors, syndromes, registers, instructions, blobs --
a module named for its meaning states it once more from the outside, in bit positions, offsets and exact
integers, and ties the working definitions to that.

Allocation results, interrupt pins, fetched words, the firmware conduit and the stop flag are parameters.
Where the code updates a struct in place the model has a class, whose methods are proved equal to a function
of the old state; the theorems are about those functions.

## Where the code and its own words differ

The model follows the code. Each line names the lemma or method that pins the difference down.

- "TLB is only ever faster, never different" (README.md:59) holds for a guest that invalidates after
  changing a descriptor; without that the answers differ (`StaleWithoutInvalidation`). They are the same
  exactly when the slot still looks like today's walk (`AnswersAreCurrentExactly`, `RunIsCurrentExactly`),
  as after every TLBI (`InvalidationMakesCurrent`).
- "A validated access cannot fail" (src/exec/exec.c:324-328) is false exactly for a misaligned address under
  the alignment policy, which `mmu_validate` does not apply (`StoreRun`, `LoadRun`, `Execute`,
  `ValidatedYetAborts`); DC ZVA alone always keeps it (`ZeroLine`).
- The split check records no fault address when the physical bus refuses (`SplitCheck`; the `far` field of
  `BusSpec.FaultRecord` is then empty).
- `finish` writes END before its allocation can fail, so a refused finish is not without trace, and the blob
  is bounded by the capacity plus 56 (`Builder.Finish`).
- include/oemu/exc.h:100-108 says entry sets IL; the code clears it (`EntryShape`). An EL3 ERET accepts EL2
  (`MonitorReturnsToEl2`), and that is the only return to an illegal state (`ReturnIsLegalExactly`).
- src/mmu/mmu.c:35-43 takes TBI0 from bit 24, TBI1 from bit 63 and PS from bit 27 of TCR_EL1 "per the ARM
  ARM", which has them at bits 37, 38 and 32 (`RegimeOf`).
- User mode has its thread register at op2 7 (src/exec/exec.c:304), where the architecture and the system
  table have op2 2 (`UserRegisters`, `TableIs`).
- PAR_EL1 is meant to publish an address translation (src/exec/exec.c:1281-1302), but its row's empty mask
  makes it read zero (`ParReadsZero`). TPIDRRO_EL0 has a writable row although src/exec/exec.c:661-667 says
  it has none (`ReadOnlyThreadIdIsWritable`).
- MSR (immediate) refused at EL0 reports a delivered exception and delivers none (`RefusedImmediateSticks`);
  no other instruction does so (`SticksExactly`).
- The single-vector store and DC ZVA never tell the exclusive monitor (`UnannouncedStoreIsLost`,
  `ClearedLineIsLost`), and the overlap test does not see past 2^64 (`WrappingStoreIsLost`). A pair is
  atomic exactly when no store between its halves meets the reserved range unseen
  (`PairIsAtomicExactlyIfClear`); an announced store that does not wrap never does (`NotedIsClear`).
- CLREX is a barrier without effect (src/decode/decode.c:560-568), exception entry and return leave the
  monitor standing, and it compares virtual addresses, so a second thread or a second mapping can defeat it
  (`RearmedPairLosesUpdate`, `AliasedStoreIsLost`). What a pair is then worth is exact
  (`PairIsSoundExactly`).
- The loader's header says that on failure nothing has been mapped and that only NO_MEMORY arrives mid-map
  (include/oemu/elf.h:52 and 64-68); a region that already meets a later segment is found mid-map too
  (`LoadIntoClash`). The promise holds exactly when the image is refused before mapping or its first segment
  clashes (`UntouchedExactly`).
- The interrupt controller's `running_pri` field should be 256 when nothing is active
  (include/oemu/gicv2.h:66); it is 0 at reset and stale after bank writes (`ActivatedBehindTheCache`): in
  every run it holds the floor at the last acknowledgement or EOIR (`CacheIsLastRefresh`). No decision reads
  it (`Scan`).
- Turning the UART FIFO off with bytes queued reorders the console (`OvertakenOrder`, `FifoOffReorders`).
  The order holds throughout a run exactly when no byte is written past a queue that holds a different one
  (`StreamInOrderExactly`).
- The device tree reader checks a name's offset in 32 bits and follows it without wrapping, and compares a
  name that lacks its NUL on past the blob (`CutNameGoesAstray`). `StaysInsideExactly` says for which blobs
  it stays inside; blobs the writer emits are among them (`FindIsSearch`).

## Model

| member | source | states |
|---|---|---|
| Words.LittleEndianRoundTrip | src/memory/memory.c:67-79 | Splitting a value into bytes and joining them gives the value's low bytes, for every value and width |
| Words.BytesRoundTrip | src/memory/memory.c:67-79 | Joining bytes and splitting the value gives the same bytes back |
| FlatMemory.LoadStored | src/memory/memory.c:189-220 | A load of exactly the range just stored returns the stored low bytes |
| FlatMemory.LoadOverStore | src/aspace/aspace.c:279-333 | For every overlap of a load with an earlier store, the load sees the stored bytes where the ranges meet and the old bytes elsewhere |
| FlatMemory.LoadApart | src/aspace/aspace.c:279-333 | A store leaves every load of a range it does not meet as it was, faults included |
| FlatMemory.StoreChanges | src/aspace/aspace.c:310-333 | A store changes exactly its own bytes and neither the layout nor the set of mapped addresses |
| FlatMemory.SignExtendMeaning | src/aspace/aspace.c:56-65 | Sign extension keeps the two's complement value while widening the word |
| FlatMemory.HolderUnique | src/aspace/aspace.c:67-82 | At most one region of a legal table can serve a non-empty access |
| GuestMemory.RangesOverlapMeaning | src/aspace/aspace.c:84-93 | The subtraction-only overlap test is exactly intersection of the two integer ranges, up to and including 2^64 |
| GuestMemory.CheckMapArgs | src/memory/memory.c:19-30 | Accepts exactly non-empty, permissioned ranges that end at or below 2^64 |
| GuestMemory.MapRegionWellFormed | src/memory/memory.c:116-162 | A map accepted by the checks keeps the regions disjoint and non-wrapping and the byte map exactly their union |
| GuestMemory.Disassemble | src/memory/memory.c:67-73 | The byte-joining loop computes the little-endian value |
| GuestMemory.AddressSpace.Find | src/memory/memory.c:40-65 | The wrap-free lookup finds a region that contains the range and grants the access whenever one exists |
| GuestMemory.AddressSpace.CheckRoom | src/aspace/aspace.c:123-133 | The loop's verdict is the specified one: the argument check's own refusal, else RANGE exactly for a full table or a meeting region, else OK |
| GuestMemory.AddressSpace.MapImage | src/memory/memory.c:116-171 | Maps a zeroed block with a copied prefix, or refuses with the status of the first failing check in the code's order and nothing changed |
| GuestMemory.AddressSpace.Validate | src/memory/memory.c:181-187 | OK exactly when one region covers the whole range with the permissions; a zero size is an argument error |
| GuestMemory.AddressSpace.Read | src/memory/memory.c:189-207 | The host-block read equals the load from the flat byte map, sign-extended on request, faults included |
| GuestMemory.AddressSpace.Write | src/memory/memory.c:209-220 | The host-block write equals the store to the flat byte map and keeps every other block |
| Permissions.StoreNeedsWrite | src/memory/memory.c:40-65 | A store of any number of bytes is served if and only if one region contains all of them and is writable |
| Permissions.LoadNeedsRead | src/memory/memory.c:40-65 | A load, if and only if one region contains its bytes and is readable |
| Permissions.ValidateByRights | src/memory/memory.c:181-187 | A request is validated exactly when one region contains the range and has each of the three rights asked for |
| Permissions.LackIsRefused | src/aspace/aspace.c:67-82 | An access asking for a right that the region it lies in lacks is refused, as no other region can serve it |
| Permissions.AccessNeeds | src/exec/exec.c:713-939 | A memory instruction completes exactly when each piece it moves lies in a region that is writable, for a store, or readable, for a load; otherwise FAULT and nothing changed |
| Permissions.ReadOnlyStands | src/exec/exec.c:713-939 | Over every run of memory instructions no byte of a region without write permission changes |
| Permissions.ReadOnlyChain | src/memory/memory.c:209-220 | Nor over any chain of memories in which each operation writes writable bytes alone, as all of the following do |
| Permissions.WriteSpares | src/memory/memory.c:209-220 | A bus write is OK exactly into a writable region and changes writable bytes alone |
| Permissions.DispatchSpares | src/exec/exec.c:1500-1920 | A user-mode instruction, of any kind, changes writable bytes alone |
| Permissions.TranslatedWriteSpares | src/mmu/mmu.c:747-787 | A store under translation, split or not, lands on writable bytes alone, and a refused one on none |
| Permissions.ExecuteSpares | src/exec/exec.c:713-939 | So does every memory instruction under translation |
| Permissions.SystemInstructionSpares | src/exec/exec.c:1302-1336 | And every SYS instruction, DC ZVA included |
| Permissions.MapVerdict | src/memory/memory.c:116-162 | Whether a region can be mapped, and else why not: empty or without rights, past the end of the address space, no slot or an address in common with another region, more contents than room, no memory -- the first of these |
| Permissions.MapShows | src/memory/memory.c:116-162 | A mapped region is added last and begins with its contents and goes on with zeros; every other address is as it was |
| Translation.GeometrySamePage | src/mmu/mmu.c:255-300 | Region checks, start level and table base are the same for two addresses of one page |
| Translation.DescendSamePage | src/mmu/mmu.c:300-383 | The table descent of two addresses of one page reads the same descriptors and differs only by the page offset |
| Translation.ResolveSamePage | src/mmu/mmu.c:240-383 | The walk's leaf for another address of the page is the same leaf with the offset moved |
| WalkMeaning.DecodeLeaf | src/mmu/mmu.c:150-167 | Encoding a leaf field by field at the architecture's bit positions and decoding the word gives the fields back |
| WalkMeaning.DecodeTable | src/mmu/mmu.c:150-173 | The same for a table descriptor and its constraint bits 59 to 62 |
| WalkMeaning.LeafRecovered | src/mmu/mmu.c:150-167 | Every word that is a leaf at its level is the encoding of some leaf |
| WalkMeaning.TableRecovered | src/mmu/mmu.c:150-173 | Every table word is the encoding of some table descriptor |
| WalkMeaning.SyndromeIs | src/mmu/mmu.c:92-118 | The syndrome word: the abort class of the access, WnR for a write, and the literal status code of each fault class and level |
| WalkMeaning.WalkComes | src/mmu/mmu.c:240-383 | In every memory whose chain of encoded tables leads an address to a leaf, a block, a hole or a bad word, with the start level and the indices computed from the registers, each access is served at leaf address plus offset exactly when the merged rights allow it, and otherwise refused with the literal syndrome of what stopped it |
| WalkMeaning.WalkBlocked | src/mmu/mmu.c:240-300 | What is refused before any descriptor is read -- an unsupported size, an address in neither half, a disabled half, a table base out of range -- and with which syndrome |
| WalkMeaning.WalkIdentity | src/mmu/mmu.c:240-254 | With translation off every access is served at its own address |
| WalkMeaning.EveryWalkIsCovered | src/mmu/mmu.c:240-383 | Every address in every memory under every setting of the registers falls under one of these three |
| TranslationCache.HitMeansWalk | src/mmu/mmu.c:466-490 | An entry that a past walk justifies answers, granted or denied, exactly as that walk does for every access kind and level |
| TranslationCache.SharedSlot | src/mmu/mmu.c:430-432 | Two addresses share a slot exactly when their pages are a multiple of 4096 pages apart |
| TranslationCache.CountsOnce | src/mmu/mmu.c:452-533 | Each translation the cache may answer counts once, as a hit or a miss, and each emptying of it counts, whether asked for or for a changed register |
| TranslationCache.StoredAsid | src/mmu/mmu.c:498-508 | A filled slot is marked with the top sixteen bits of the table register of its half |
| TranslationCache.FillJustified | src/mmu/mmu.c:498-508 | The entry filled after a successful walk is justified by the memory walked |
| TranslationCache.TranslateJustified | src/mmu/mmu.c:515-563 | One translation keeps every live entry justified and its answer is a walk of some memory since the last flush |
| TranslationCache.StepSound | src/mmu/mmu.c:395-563 | Every event -- translation, register change, invalidation, physical write -- keeps the cache justified by its history |
| TranslationCache.RunSound | src/mmu/mmu.c:395-563 | Over every run from reset the cache stays justified by the memories seen since the last flush |
| TranslationCache.AnswersComeFromHistory | src/mmu/mmu.c:515-632 | In every reachable state every answer -- status, address, syndrome, fault address -- equals the bypassed walk on some memory since the last flush |
| TranslationCache.AnswersAreCurrent | src/mmu/mmu.c:515-632 | If no descriptor on the address's path changed since that flush, the answer equals the bypassed walk on the current memory |
| TranslationCache.SameAnswersExactly | src/mmu/mmu.c:466-490 | A cached leaf and a walk answer every access below EL3 alike if and only if they look the same: page, AP and PXN, XN where EL0 may read, and the level if any access is refused |
| TranslationCache.AnswersAreCurrentExactly | src/mmu/mmu.c:515-632 | In every state of cache, registers and memory, every answer for an address is today's walk if and only if no slot is live for it or the slot looks like today's walk |
| TranslationCache.RunIsCurrentExactly | src/mmu/mmu.c:515-632 | After every run, a live slot comes from the walk of a memory since the last flush, and all answers are today's if and only if that walk and today's look the same |
| TranslationCache.StaleWithoutInvalidation | src/mmu/mmu.c:466-490 | A concrete guest that clears a descriptor without invalidating keeps being served: cached and walked answers differ |
| Pinning.ServedIsPinned | src/mmu/mmu.c:515-563 | An address just served is answered from the cache, or needs none, whatever is then written to memory |
| Pinning.PinnedAnswer | src/mmu/mmu.c:466-490 | A pinned address answers the same on every memory and changes no cache slot |
| Pinning.PinnedSurvives | src/mmu/mmu.c:675-689 | Translating an address of the same page or of a different slot unpins nothing |
| Pinning.AnswerStable | src/mmu/mmu.c:675-689 | Translating a neighbouring byte changes no other byte's answer |
| Pinning.NearbyCompatible | src/mmu/mmu.c:430-432 | Bytes of one short access are in one page or in different cache sets, wrap-around included |
| BusSpec.PinnedDistinct | src/mmu/mmu.c:766-778 | The physical addresses of a split access's bytes are pairwise distinct |
| BusSpec.SplitLocates | src/mmu/mmu.c:675-689 | The split check passes exactly when every byte translates and the bus grants it |
| BusSpec.ProbePlaces | src/mmu/mmu.c:791-818 | A probe that succeeds leaves every byte of its range translated, granted and pinned |
| BusSpec.ProbeStable | src/mmu/mmu.c:791-818 | A probe changes no answer and unpins nothing compatible with its range |
| BusSpec.ProbeAligned | src/mmu/mmu.c:791-818 | A probe of an aligned transfer is granted as one range by one region |
| RefusalMeaning.AlignedRefusal | src/mmu/mmu.c:691-745 | An aligned access is refused with the walk's own record, or with status 0x2C at its address where no region serves the whole of it, and otherwise goes through |
| RefusalMeaning.MisalignedRefusal | src/mmu/mmu.c:675-724 | A misaligned one is refused with status 0x21 where SCTLR.SA0 at EL0 or SCTLR.A above is set; otherwise exactly if some byte cannot be had, and for the first such byte, with the walk's record or with 0x2C and no address |
| RefusalMeaning.MisalignmentMeans | src/mmu/mmu.c:145-148 | The record the alignment policy leaves, and the two SCTLR bits that decide it |
| MmuBus.Mmu.constructor | src/mmu/mmu.c:587-595 | Starts with 4096 free slots, no epoch and zero counters |
| MmuBus.Mmu.FlushAll | src/mmu/mmu.c:452-456 | Empties every slot and counts the flush |
| MmuBus.Mmu.WalkTables | src/mmu/mmu.c:240-383 | The walk loop computes the recursive walk, and names the leaf worth caching exactly for table-driven successes |
| MmuBus.Mmu.CheckEpoch | src/mmu/mmu.c:515-533 | A change of any of the five registers flushes; the registers are remembered |
| MmuBus.Mmu.Probe | src/mmu/mmu.c:466-490 | A matching slot answers and counts a hit; anything else counts a miss |
| MmuBus.Mmu.Fill | src/mmu/mmu.c:498-508 | Replaces exactly the slot of the page |
| MmuBus.Mmu.TranslateAt | src/mmu/mmu.c:515-563 | The translation over the arrays equals the specified one: cache state, counters and answer |
| MmuBus.Mmu.Refuse | src/mmu/mmu.c:565-571 | Records the syndrome and the virtual address of a refusal |
| MmuBus.Mmu.SplitCheck | src/mmu/mmu.c:675-689 | Either the first refusal, without a fault address when the bus refuses, or every byte placed and pinned |
| MmuBus.Mmu.CommitBytes | src/mmu/mmu.c:766-778 | The commit loop cannot fail half way and lands every byte where the check placed it, even over its own page tables |
| MmuBus.Mmu.WriteSplit | src/mmu/mmu.c:762-778 | The misaligned store lands every byte where it translated, or refuses with no byte changed |
| MmuBus.Mmu.Write | src/mmu/mmu.c:747-787 | A store either lands each byte where it translated before the store, or returns FAULT with the specified record and no byte changed |
| MmuBus.Mmu.GatherBytes | src/mmu/mmu.c:711-724 | The gather loop cannot fail and joins the bytes at the places the check found |
| MmuBus.Mmu.ReadSplit | src/mmu/mmu.c:709-724 | The misaligned load joins the bytes found where they translated, or refuses |
| MmuBus.Mmu.Read | src/mmu/mmu.c:691-745 | A load returns the bytes found where the access translated, sign-extended on request, or the specified fault |
| MmuBus.Mmu.Validate | src/mmu/mmu.c:791-818 | The page-by-page probe: its verdict, its record and its effect on the cache; no alignment policy is applied |
| MmuBus.Mmu.TakeFault | src/mmu/mmu.c:573-583 | Hands over the pending fault record and forgets it |
| PairAccess.ProbeRunPlaces | src/exec/exec.c:719-729 | Probing all pieces of a run leaves every byte of it placed and pinned |
| PairAccess.ReadyPiece | src/exec/exec.c:329-331 | After validation a piece can be refused only by the alignment policy |
| PairAccess.ValidateRun | src/exec/exec.c:719-729 | The validation phase stops at the first refusal and changes no memory |
| PairAccess.CommitRun | src/exec/exec.c:731-742 | The commit phase of a validated run lands every piece or aborts on the first, exactly on a policy-refused misalignment, with that refusal recorded |
| PairAccess.StoreRun | src/exec/exec.c:713-742 | A store of any number of pieces under translation commits everything or nothing and leaves the record of what refused it; the host abort happens exactly when the address is misaligned and the policy requires alignment |
| PairAccess.LoadRun | src/exec/exec.c:713-754 | The same for loads: every piece is read where it translated before the run, or the refusal is on record |
| PairAccess.ValidatedYetAborts | src/mmu/mmu.c:791-818 | A concrete misaligned pair that validates and whose first access the alignment policy then refuses |
| PairAccess.LineIsReady | src/exec/exec.c:1311-1329 | One probe of an aligned cache line leaves its eight double words placed, pinned and granted |
| PairAccess.ZeroLine | src/exec/exec.c:1302-1336 | After a completed DC ZVA every byte of the 64-byte block around the address is 0 where it translated and every other byte is as it was; a refused one changes nothing and has the syndrome of the misalignment or of the refused probe; unlike every other form it can never abort the host |
| TranslatedTransfer.Execute | src/exec/exec.c:713-939 | Every memory form -- scalar, pair, vector, exclusive -- under translation moves registers, memory, reservation and writeback together or not at all; exactly when it faults or aborts the host, and the record it leaves. An STXR reports 0 exactly where the reservation stood, its bytes then being where they translated, and 1 where it did not, memory then being as it was, and moves no other register |
| TranslatedTransfer.RunNames | src/mmu/mmu.c:791-818 | The record of a refused run is the syndrome of its access and names one of its own bytes, tag stripped or not |
| TranslatedTransfer.ExecuteOrDeliver | src/exec/exec.c:1455-1483 | A refused memory instruction takes the exception of its level with the refused walk's syndrome and address in ESR and FAR, and nothing else has moved; a completed one takes none |
| SystemInstructions.Perform | src/exec/exec.c:1117-1336 | Which action each SYS encoding selects, and what it does: the whole cache flushed, the translation published, the 64-byte block around the address cleared where it translated, or the syndrome delivered with a byte of that block as its address; the exclusive monitor is never told |
| SystemInstructions.ClassMeans | src/exec/exec.c:1117-1164 | Which operation each encoding is, by its op1, CRn, CRm and op2: the TLBI space, the stage-1 AT forms, DC ZVA, cache maintenance, or none |
| SystemInstructions.AtWritesMeans | src/exec/exec.c:1281-1302 | The AT forms that probe for a write are those with op2 1 and 3 |
| SystemInstructions.ParOf | src/exec/exec.c:1281-1302 | What an AT publishes: bit 0 set, alone, for a refusal, and otherwise the address with bit 0 clear |
| SystemInstructions.InvalidationMakesCurrent | src/exec/exec.c:1273-1281 | After a TLBI every access to every address is answered by today's tables |
| AtomicPairs.ExecuteIsStep | src/exec/exec.c:713-939 | What an executed memory instruction leaves of memory and monitor is one step of the multi-party model, at the places it translated to |
| AtomicPairs.StandsExactly | src/exec/exec.c:713-939 | Bytes at given physical places come through any stretch of any run, for all values stored, if and only if no effective write on the way lands on one of them |
| AtomicPairs.PairIsSoundExactly | src/exec/exec.c:905-939 | The success of an exclusive pair, other threads' pairs and other mappings included, vouches for the loaded bytes if and only if no effective write between its halves landed on one |
| GuestPairs.ZeroIsSoundExactly | src/exec/exec.c:905-939 | Said of what the guest reads: an STXR that reads back 0 is the successful half of a pair and vouches for the loaded bytes exactly as above; one that reads back 1 has left memory as it was; nothing else is read back |
| AtomicPairs.UndisturbedPairIsSound | src/exec/exec.c:600-611 | With no exclusive load in between, announced stores, and no byte under two addresses, a pair that succeeds is sound |
| AtomicPairs.RearmedPairLosesUpdate | src/decode/decode.c:560-568 | A concrete context switch: another thread's pair succeeds, its next load re-arms the reservation, and the first thread's store goes through over the update |
| AtomicPairs.AliasedStoreIsLost | src/exec/exec.c:600-611 | A concrete announced store through a second mapping of the loaded page that the pair does not notice |
| TreeFormat.AppendStruct | src/fdt/fdt.c:142-233 | Items emitted later are laid out after earlier ones, with name offsets that count the earlier names |
| TreeFormat.HeaderFields | src/fdt/fdt.c:376-393 | Every header word of a finished blob says what the blob holds: magic, total size, both offsets, both block sizes, versions |
| TreeMeaning.NodeLayout | src/fdt/fdt.c:142-188 | A node is the big-endian token 1, its NUL-terminated name filled to four bytes, its contents, and the token 2 |
| TreeMeaning.PropLayout | src/fdt/fdt.c:193-233 | A property is the token 3, its value's length, its name's place in the strings, and the value filled to four bytes |
| TreeMeaning.BlobLayout | src/fdt/fdt.c:368-417 | The blob of every tree byte by byte: the magic D0 0D FE ED, the ten header words in order, an empty reservation map, the structure block ended by the token 9, and the strings |
| TreeMeaning.SizeVerdict | src/fdt/fdt.c:431-448 | What the size query says of any bytes, by their first eight |
| TreeMeaning.PathSpelled | src/fdt/fdt.c:527-541 | A path is its names, each after a slash, the root a slash alone |
| TreeMeaning.DepthBound | src/fdt/fdt.c:508-541 | The reader follows a node below fewer than 32 open ones and gives up at one below 32 |
| TreeMeaning.TooDeep | src/fdt/fdt.c:508-541 | A tree nested any deeper than 32 levels is refused, whatever is looked up in it |
| TreeMeaning.NestReadable | src/fdt/fdt.c:508-541 | A tree nested up to 32 levels deep is among those of the round trip |
| TreeReader.TextStored | src/fdt/fdt.c:40-46 | The bounded length of a stored NUL-free name is the name's length |
| TreeReader.PropToken | src/fdt/fdt.c:214-233 | A property token reads back as PROP, then the value's length, then the name's offset, then the value; the name is found at its offset |
| TreeReader.OpenToken | src/fdt/fdt.c:142-170 | A node token reads back as BEGIN_NODE and the NUL-terminated name |
| TreeReader.ScanForest | src/fdt/fdt.c:470-567 | Walking a laid-out forest with any open frames finds what its items say, or passes it with the frames unchanged |
| TreeRoundTrip.ComponentsOfPath | src/fdt/fdt.c:527-541 | Splitting a path spelled from slash-free names gives the names back |
| TreeRoundTrip.SearchPath | src/fdt/fdt.c:527-541 | Below a matched node the document-order search is a lookup of the remaining components |
| TreeRoundTrip.FindIsSearch | src/fdt/fdt.c:450-569 | Reading any finished blob, duplicates and strays included, comes to the first match in document order |
| TreeRoundTrip.FindsExactly | src/fdt/fdt.c:450-569 | With distinct siblings, every (path, property) of the emitted tree is found with exactly its bytes and every other is NOT_FOUND |
| TreeRoundTrip.FindsByNames | src/fdt/fdt.c:450-569 | The same for a path spelled from node names: the round trip of writer and reader |
| TreeBuilder.ClosedLayout | src/fdt/fdt.c:172-188 | Ending a node appends one token and makes the open node the last item of its parent |
| TreeBuilder.PropLayout | src/fdt/fdt.c:193-233 | A property appends its token, with the offset of its freshly interned name |
| TreeBuilder.Builder.Init | src/fdt/fdt.c:103-127 | Opens the root in a scratch of twice the capacity, or refuses and changes nothing |
| TreeBuilder.Builder.Emit | src/fdt/fdt.c:81-85 | Appends exactly the bytes to the structure area and keeps the strings |
| TreeBuilder.Builder.BeginNode | src/fdt/fdt.c:142-170 | Opens a node or refuses with the builder exactly as it was |
| TreeBuilder.Builder.EndNode | src/fdt/fdt.c:172-188 | Closes the innermost node or refuses with the builder exactly as it was |
| TreeBuilder.Builder.Property | src/fdt/fdt.c:193-242 | Adds one property or refuses without leaving a stray name; which refusal is decided in the code's order |
| TreeBuilder.Builder.Intern | src/fdt/fdt.c:95-101 | Appends the name and its terminator; the offset returned is the old length |
| TreeBuilder.Builder.Finish | src/fdt/fdt.c:368-417 | The blob is the serialised tree, at most 56 bytes over the capacity; a failed allocation leaves exactly one stray END behind |
| TreeBuilder.MeasureText | src/fdt/fdt.c:40-46 | The bounded string-length loop |
| TreeBuilder.MeasureComponent | src/fdt/fdt.c:532-535 | The component-length loop stops at the slash or the end |
| TreeBuilder.EnterNode | src/fdt/fdt.c:508-541 | How a newly opened node extends the path match of its parent |
| TreeBuilder.FindProperty | src/fdt/fdt.c:450-569 | The cursor loop over an array of 32 frames computes the specified walk on every byte string, and says when a name comparison would leave it |
| TreeReader.StaysInsideExactly | src/fdt/fdt.c:543-565 | Reading a path of a blob stays inside it for every property name if and only if every name the walk compares starts and ends inside, its offset followed without the 32-bit wrap of the check |
| TreeReader.CutNameGoesAstray | src/fdt/fdt.c:543-565 | A concrete blob whose last name lacks its NUL, and a lookup that compares past the end |
| TreeBuilder.TotalSizeIsLength | src/fdt/fdt.c:431-448 | The header of a finished blob reports its exact length |
| GicProtocol.FloorUpTo | src/dev/gicv2.c:77-85 | The running priority is the least priority value of an active line, 256 when none is active |
| GicProtocol.Pick | src/dev/gicv2.c:87-113 | The scan returns the eligible line that beats every other, or 1023 exactly when none is eligible |
| GicProtocol.OneRound | src/dev/gicv2.c:115-127 | Acknowledge and complete of one line, nothing else active, take exactly that line off the queue |
| GicProtocol.DrainComplete | src/dev/gicv2.c:87-127 | The service loop acknowledges exactly the enabled, pending, targeted lines below the mask |
| GicProtocol.DrainOrder | src/dev/gicv2.c:87-127 | It does so in strictly falling (priority, id) precedence, so each line once |
| GicProtocol.NotTwiceInService | src/dev/gicv2.c:115-127 | In every run, between two acknowledgements of one id its completion or an ICACTIVER bit occurred |
| GicProtocol.AcknowledgeBeatsAll | src/dev/gicv2.c:87-113 | An acknowledged line strictly beats every active one |
| GicProtocol.GentleKeepsDistinct | src/dev/gicv2.c:280-341 | One event without ISACTIVER and without changing the priority of an active line keeps active priorities distinct |
| GicProtocol.OrderKeptExactly | src/dev/gicv2.c:280-341 | One event keeps active priorities distinct if and only if the lines it activates have priorities apart from each other's and the active ones', and the priorities it writes to active lines stay distinct |
| GicProtocol.ServiceStaysOrdered | src/dev/gicv2.c:280-396 | Over every such run active priorities stay pairwise distinct |
| GicProtocol.ServiceOrderedExactly | src/dev/gicv2.c:280-396 | Active priorities are pairwise distinct throughout a run if and only if every event of it meets that condition |
| GicProtocol.ActivatorBreaksOrder | src/dev/gicv2.c:302-303 | A concrete ISACTIVER write after which two active lines share a priority |
| GicProtocol.IrqLevelMeans | src/dev/gicv2.c:398-408 | The output is raised exactly when both enables are set and some line is eligible, so the next acknowledge is not spurious |
| GicMeaning.AcknowledgeMeans | src/dev/gicv2.c:87-127 | IAR returns 1023 and changes nothing exactly when no line is enabled, pending, idle, sent to this core, above the mask and above every line in service; otherwise the first such line by priority, then number, which is then in service and no longer pending |
| GicMeaning.DrainMeans | src/dev/gicv2.c:343-396 | The service loop serves exactly the lines that may interrupt when it starts, best first, each once |
| GicMeaning.OutputMeans | src/dev/gicv2.c:398-408 | The line to the core is up exactly when both enables are set and some line may interrupt |
| GicMeaning.BankWrites | src/dev/gicv2.c:280-305 | The six set and clear banks by offset: bit b of word k is line 32k + b, and lines not named stay |
| GicMeaning.PriorityWrites | src/dev/gicv2.c:306-313 | Byte b of the priority word at 0x400 + 4k is line 4k + b, and no other line or register changes |
| GicMeaning.TargetWrites | src/dev/gicv2.c:314-320 | One target word for each shared line, of which the low byte counts; private lines are fixed |
| GicMeaning.ControlWrites | src/dev/gicv2.c:370-396 | The two control words, the mask and EOIR by offset, and that no other offset moves the delivery state |
| GicMeaning.ResetMeans | src/dev/gicv2.c:129-158 | Out of reset every line is off, idle, at priority 0x80 and sent to this core, the mask is shut and both enables are off |
| GicMeaning.SilentOutOfReset | src/dev/gicv2.c:129-158 | Over every run without a register write nothing is served and nothing raised, whatever the devices drive |
| GicMeaning.FirstInterrupt | src/dev/gicv2.c:129-158 | A driver's set-up from reset: with the mask above the reset priority an enabled and raised line is the next one served, for every line, and otherwise none is |
| GicProtocol.LastRefreshIsLast | src/dev/gicv2.c:115-127 | The event named as the last refresh of a run acknowledges a line or writes EOIR, and none after it does |
| GicProtocol.CacheIsLastRefresh | src/dev/gicv2.c:115-127 | In every run the running-priority field holds the floor at the last acknowledgement or EOIR, and 0 before any |
| GicProtocol.CacheIsCurrent | src/dev/gicv2.c:370-396 | It is the floor the scan recomputes as long as only its own two events, and events that leave the active lines and their priorities alone, follow a refresh |
| GicDevice.Device.constructor | src/dev/gicv2.c:129-158 | Reset state: everything disabled at priority 0x80, every line targeting the core |
| GicDevice.Device.RunningPriority | src/dev/gicv2.c:77-85 | The loop computes the running priority from the arrays |
| GicDevice.Device.Scan | src/dev/gicv2.c:87-113 | The one-pass scan computes the specified pick |
| GicDevice.Device.ReadIar | src/dev/gicv2.c:115-127 | Acknowledge activates and un-pends exactly the picked line and refreshes the running-priority field exactly when it picked one |
| GicDevice.Device.CpuWrite | src/dev/gicv2.c:370-396 | CPU-interface writes: control, mask and completion, everything else ignored; completion alone refreshes the running-priority field |
| GicDevice.Device.DistWrite | src/dev/gicv2.c:280-341 | Distributor writes change exactly the register the offset reaches |
| GicDevice.Device.WritePriorities | src/dev/gicv2.c:306-313 | A priority word sets one byte for each of its four lines |
| GicDevice.Device.SetPending | src/dev/gicv2.c:415-421 | Drives one line's latch, ignoring ids out of range |
| GicDevice.Device.Level | src/dev/gicv2.c:398-408 | The sampled output equals the specified level |
| GicDevice.Device.ServiceAll | src/dev/gicv2.c:343-396 | The guest's read-IAR, write-EOIR loop terminates with the specified drain and nothing eligible left |
| GicDevice.Poke | src/dev/gicv2.c:175-184 | Forces exactly the lines the mask names |
| GicDevice.ActivatedBehindTheCache | src/dev/gicv2.c:302-303 | A concrete ISACTIVER write after which the cached running priority is not the floor the scan uses |
| ExceptionState.Route | src/exc/exc.c:65-69 | Delivery targets EL1 or EL3 and never goes down from an implemented level |
| ExceptionState.Esr | src/exc/exc.c:18-22 | Class, IL and ISS are recovered from the syndrome word |
| ExceptionState.SwitchKeepsStacks | src/sysreg/sysreg.c:54-73 | A bank switch keeps the value of every stack pointer and moves only the selection |
| ExceptionState.EntryKeepsStacks | src/exc/exc.c:83-136 | Exception entry keeps every stack pointer and selects the target's |
| ExceptionState.ReturnKeepsStacks | src/exc/exc.c:138-178 | ERET, refusals included, keeps every stack pointer |
| ExceptionState.EntryShape | src/exc/exc.c:83-136 | What entry records in the target's banks, and that it touches no other bank |
| ExceptionState.EntryVector | src/exc/exc.c:71-136 | The entry PC is the target's VBAR plus 0, 0x200 or 0x400 for the same level on SP0, on its own stack, or a lower level, plus 0, 0x80, 0x100 or 0x180 for Sync, IRQ, FIQ and SError, modulo 2^64; ESR is the given syndrome for Sync and SError and as it was for IRQ and FIQ; FAR changes exactly when an address is given; the entered PSTATE is masked, on the level's own stack |
| ExceptionState.ReturnMeans | src/exc/exc.c:138-178 | Where an accepted ERET lands, field by field of the saved PSTATE, and which returns are refused |
| ExceptionState.ReturnRestores | src/exc/exc.c:138-178 | A return through an intact save area restores PC, PSTATE, NZCV and SP exactly |
| ExceptionState.RoundTripExactlyIfLegal | src/exc/exc.c:83-178 | Entry followed by return is the identity on the context if and only if the interrupted PSTATE was legal |
| ExceptionState.RefusedStays | src/exc/exc.c:152-168 | A refused ERET delivers to the level that tried it |
| ExceptionState.MonitorReturnsToEl2 | src/exc/exc.c:58-63 | A concrete EL3 ERET that lands in EL2 |
| ExceptionState.ReturnIsLegalExactly | src/exc/exc.c:138-178 | From a legal state, ERET lands in a legal state if and only if it is not an EL3 return through an acceptable saved PSTATE that names EL2, and then it is at EL2 at the saved PC |
| ExceptionState.Follow | src/exc/exc.c:83-178 | Running any well-bracketed course ends at the level it started from in a legal state |
| ExceptionState.EpilogueReturns | src/exc/exc.c:138-178 | Restoring the link registers and the shared stack makes the outer ERET restore the context |
| ExceptionState.NestedIsTransparent | src/exc/exc.c:83-178 | Exceptions nested to any depth are transparent to the interrupted code, and ELR is the interrupted PC |
| ExceptionState.SystemCallResumesAfter | src/exc/exc.c:197-202 | A system call returns to the instruction after it with everything else as it was |
| SystemRegisters.PackUnpack | src/exc/exc.c:118-125 | The field view of a PSTATE word loses nothing of it |
| SystemRegisters.WriteMovesOneBank | src/sysreg/sysreg.c:32-125 | SP_EL0 and SP_EL1 writes each change exactly one bank; every other table write changes none |
| SystemRegisters.ReadIsBank | src/sysreg/sysreg.c:98-125 | A stack-pointer read answers with the bank it names, live or stored |
| RegisterMeaning.PstateBits | src/exc/exc.c:118-125 | Each field of a PSTATE word is at its architectural bit |
| RegisterMeaning.MaskedWord | src/sysreg/sysreg.c:831-866 | The boot and entry PSTATE words: 0x3C0 plus the level and the stack selection |
| RegisterMeaning.TableIs | src/sysreg/sysreg.c:200-813 | Every register there is, by op1, CRn, CRm and op2: from which level it is had, whether it can be written and what stands behind it; and that no other encoding has one |
| RegisterMeaning.ResetValues | src/sysreg/sysreg.c:831-866 | What every storage row holds out of reset: the identification registers and SCTLR their literal values, all others zero |
| RegisterMeaning.LevelRead | src/sysreg/sysreg.c:23-26 | CurrentEL shows the level at bits 3 and 2 |
| RegisterMeaning.CountReads | src/sysreg/sysreg.c:140-145 | The counters show the count from EL0 up, the virtual one less the offset, modulo 2^64 |
| RegisterMeaning.OrderedCountReads | src/sysreg/sysreg.c:140-145 | So do their self-synchronised forms from EL1 up |
| RegisterMeaning.MsrThenMrs | src/sysreg/sysreg.c:868-924 | An accepted MSR followed by MRS reads back what the row keeps of the value: all of it, its writable bits, or the register's own view of it |
| RegisterMeaning.MsrMovesOnlyItsOwn | src/sysreg/sysreg.c:885-924 | An MSR moves no other register than its own, but for the timer pairs that share one |
| SystemRegisters.ParReadsZero | src/sysreg/sysreg.c:872-883 | PAR_EL1 always reads zero, whatever an address translation stored there |
| SystemRegisters.ReadOnlyThreadIdIsWritable | src/sysreg/sysreg.c:885-924 | TPIDRRO_EL0 can be written and read back at every level |
| SystemRegisters.GuestWrite | src/sysreg/sysreg.c:896-924 | Below EL2 no accepted write leaves the guest modes or reaches an EL3 bank or identification register |
| ExceptionCore.Core.constructor | src/sysreg/sysreg.c:831-866 | Boot PSTATE is the literal masked mode of the level, the boot stack seeds exactly the bank it selects, every other bank is zero and every row has its reset value |
| ExceptionCore.Core.SwitchSp | src/sysreg/sysreg.c:54-73 | The deposit-and-withdraw code equals the bank switch by selection |
| ExceptionCore.Core.Take | src/exc/exc.c:83-136 | The in-place entry sequence equals the specified entry |
| ExceptionCore.Core.Undefine | src/exc/exc.c:182-186 | Undefined carries the encoding to the routed level |
| ExceptionCore.Core.Eret | src/exc/exc.c:138-178 | The in-place return, with its three refusals, equals the specified return |
| ExceptionCore.Core.Svc | src/exc/exc.c:197-202 | SVC enters with the PC already past it |
| ExceptionCore.Core.WriteSysreg | src/sysreg/sysreg.c:885-924 | The table write's verdict and effect; a refusal changes nothing |
| VcpuRun.GuestDispatch | src/exec/exec.c:1348-1496 | Every system-mode instruction keeps a guest state, EL3 and the identification registers |
| VcpuRun.StepStaysGuest | src/vcpu/vcpu.c:123-220 | Every step from EL0t, EL1t or EL1h stays there with IL and the flag bits clear |
| VcpuRun.StepAccounts | src/vcpu/vcpu.c:123-220 | A completed step costs one quantum unit and one count, a parked one only the count, a spent quantum neither; when each happens |
| VcpuRun.RunAccounts | src/vcpu/vcpu.c:222-241 | A run of n completed steps spends n units and n counts, plus one count if it ends parked, and stays in guest states |
| VcpuRun.DeliveryMasks | src/vcpu/vcpu.c:81-94 | A delivered interrupt leaves both interrupt masks set |
| TrapMeaning.InterruptVector | src/vcpu/vcpu.c:81-94 | A step with a pending unmasked FIQ lands at its own vector of the routed level, with a pending unmasked IRQ and no such FIQ at the IRQ vector, with ESR and FAR as they were, and otherwise delivers none |
| TrapMeaning.TrapSyndromes | src/exec/exec.c:1348-1496 | Which vector, which literal class and syndrome, and which fault address SVC, HVC, SMC, BRK, HLT, an undefined encoding and a refused MRS or MSR deliver |
| TrapMeaning.SysTraps | src/exec/exec.c:1264-1336 | The same for what a SYS instruction delivers |
| TrapMeaning.RetireTraps | src/exec/exec.c:1472-1496 | The same for an aborted or unimplemented instruction of the shared switch |
| TrapMeaning.FetchTraps | src/vcpu/vcpu.c:163-190 | The same for an instruction that cannot be fetched or decoded |
| TrapMeaning.MaskImmediateMeans | src/exec/exec.c:1228-1260 | DAIFSet and DAIFClr set and clear the masks named by the four immediate bits, D A I F, and nothing else |
| TrapMeaning.SelectImmediateMeans | src/exec/exec.c:1228-1260 | SPSel selects the stack by bit 0 of the immediate; the selectors 1 to 4 do nothing; the rest are undefined |
| TrapMeaning.WaitMeans | src/vcpu/vcpu.c:102-114 | WFI parks exactly without a pending interrupt, WFE exactly without that and without an event, which it consumes |
| TrapMeaning.DeliveryIs | src/vcpu/vcpu.c:28-38 | A step delivers exactly with quantum left and a raised pin whose own mask is clear |
| TrapMeaning.RunEnds | src/vcpu/vcpu.c:222-241 | How a run ends: TIMEOUT after all its steps, OK where the stop flag is first met, and else with the first step that did not complete, BLOCKED or the quantum spent |
| VcpuRun.StaysMasked | src/vcpu/vcpu.c:28-38 | Only ERET, MSR DAIF and DAIFClr can unmask; until then nothing is delivered |
| VcpuRun.NoDeliveryUntilUnmask | src/vcpu/vcpu.c:81-94 | In every run, between two interrupt deliveries there is a step of an ERET, MSR DAIF or DAIFClr that found both masks set and left one clear |
| VcpuRun.RefusedImmediateSticks | src/exec/exec.c:1228-1260 | MSR (immediate) refused at EL0 delivers nothing and leaves the PC in place |
| VcpuRun.SticksExactly | src/exec/exec.c:1348-1496 | Of all system-mode instructions at EL0 exactly these refused forms leave both the level and the PC as they were |
| VcpuRun.StepSticksExactly | src/vcpu/vcpu.c:123-220 | A guest at EL0 that retires a system-mode instruction makes no progress if and only if the instruction is one of these forms |
| VcpuRun.ReachedKeepsMonitor | src/vcpu/vcpu.c:222-241 | However long a guest runs, its EL3 state and identification registers are those it started with |
| VcpuRun.IdentificationIsFixed | src/sysreg/sysreg.c:896-924 | Whatever a guest booted from reset runs, each identification register it may read answers the table's reset value |
| VcpuCore.VirtualCpu.constructor | src/vcpu/vcpu.c:52-64 | A full quantum, the boot PSTATE, PC, stack and register rows; at EL0 or EL1 that is a guest state |
| VcpuCore.VirtualCpu.Create | src/vcpu/vcpu.c:40-64 | Refuses EL2 and an empty quantum with INVALID_ARG and nothing built, and otherwise boots |
| VcpuCore.VirtualCpu.TakePending | src/vcpu/vcpu.c:81-94 | Delivers FIQ before IRQ, only when unmasked, to the routed level |
| VcpuCore.VirtualCpu.MsrImmediate | src/exec/exec.c:1228-1260 | SPSel, DAIFSet and DAIFClr in place, with the undelivered refusal at EL0 |
| VcpuCore.VirtualCpu.Dispatch | src/exec/exec.c:1348-1496 | The in-place dispatcher equals the specified instruction effect |
| VcpuCore.VirtualCpu.DoSys | src/exec/exec.c:1264-1336 | What the core does with the action `SystemInstructions.Perform` decided: maintenance advances, a trap is Undefined, a probe publishes its verdict, a line fault is delivered |
| VcpuCore.VirtualCpu.Retire | src/exec/exec.c:1472-1496 | Applies what the shared switch came to: the registers it left, an abort with the syndrome and address handed in, or Undefined with the encoding |
| VcpuCore.VirtualCpu.Proceed | src/vcpu/vcpu.c:163-214 | Fetch abort, Undefined, park or dispatch, in the code's order |
| VcpuCore.VirtualCpu.WaitOrRun | src/vcpu/vcpu.c:102-114 | When a wait parks, and what the event register becomes |
| VcpuCore.VirtualCpu.StepOnce | src/vcpu/vcpu.c:123-220 | The in-place step equals the specified step: state, quantum, event and status |
| VcpuCore.VirtualCpu.Run | src/vcpu/vcpu.c:222-241 | The loop equals the specified run, so RunAccounts holds of it |
| VcpuCore.VirtualCpu.Rearm | src/vcpu/vcpu.c:243-246 | Refills the quantum and nothing else |
| ExclusiveMonitor.StoresStayInside | src/exec/exec.c:713-742 | A run of stores changes no byte its pieces do not meet, wrapping runs included |
| ExclusiveMonitor.NotedIsClear | src/exec/exec.c:600-611 | A store that is announced, does not wrap past 2^64 and leaves the reservation standing keeps clear of the reserved range |
| ExclusiveMonitor.StoresSpareExactly | src/exec/exec.c:713-742 | A granted run leaves a mapped range alone for all values stored if and only if no piece of it meets the range |
| ExclusiveMonitor.ReservationStep | src/exec/exec.c:600-611 | A reservation that survives an access is the one before it, never revived without a new exclusive load, and a clear access leaves its bytes unchanged |
| ExclusiveMonitor.PairReserves | src/exec/exec.c:905-939 | Under a pair that succeeds, the loaded range stays reserved at every step between its halves and is the stored one |
| ExclusiveMonitor.ExclusivePairIsAtomic | src/exec/exec.c:905-939 | A successful exclusive store answers the same range as its load, and if every access between them is clear the range still holds exactly the bytes that load read |
| GuestPairs.ZeroMeansUnchanged | src/exec/exec.c:905-939 | Over any run of user-mode instructions: if LDXR read a value, the STXR that answers it reads back 0, no other LDXR came between and every store between was one the monitor hears of and did not wrap, then both name one range and memory still held the value the LDXR put in its register when the STXR replaced it |
| GuestPairs.QuietPairSucceeds | src/exec/exec.c:905-939 | With no store and no other LDXR between them an LDXR and STXR of one range never fail: the STXR reads back 0 |
| GuestPairs.StoreTells | src/exec/exec.c:911-939 | An STXR reads back 0 or 1: 0 exactly where the reservation stood on its range, 1 having written nothing |
| GuestPairs.LoadLeaves | src/exec/exec.c:911-925 | A completed LDXR leaves the reservation on its range and the number it read in its register |
| GuestPairs.WhoIsHeard | src/exec/exec.c:600-611 | Which stores end a reservation: every form whose range meets it, but for the sixteen-byte STR, which never does |
| GuestPairs.DispatchIsStep | src/exec/exec.c:1500-1920 | A dispatched instruction is a step of such a run |
| ExclusiveMonitor.PairIsAtomicExactlyIfClear | src/exec/exec.c:600-939 | A successful pair finds the loaded bytes again for all values the run's stores may carry if and only if every access between its halves is clear of the reserved range |
| ExclusiveMonitor.FailedExclusiveWritesNothing | src/exec/exec.c:905-939 | An exclusive store that does not take effect writes no memory |
| ExclusiveMonitor.UnannouncedStoreIsLost | src/exec/exec.c:846-852 | A concrete single-vector store between the halves of a pair that the pair does not notice |
| ExclusiveMonitor.ClearedLineIsLost | src/exec/exec.c:1329-1334 | A concrete DC ZVA between the halves of a pair that the pair does not notice |
| ExclusiveMonitor.WrappingStoreIsLost | src/exec/exec.c:600-611 | A concrete announced pair store at 2^64 - 8 whose second word lands in the range reserved at 0 while the reservation stands |
| RegisterFile.FlagsRoundTrip | src/exec/exec.c:613-672 | The flags survive a read and a write of the NZCV register |
| RegisterFile.FetchedIsStored | src/exec/exec.c:764-821 | Each piece a run stored is what a run of the same shape fetches |
| RegisterFile.StorePairLoadPair | src/exec/exec.c:713-754 | STP then LDP of the same pair gives each register back in its own place, at either width |
| RegisterFile.StoreVectorsLoadVectors | src/exec/exec.c:764-821 | The same for vector pairs at every size: sixteen bytes whole, narrower forms the low part with the rest cleared |
| RegisterFile.PushThenPop | src/exec/exec.c:685-821 | A pre-indexed push and the post-indexed pop that answers it give the whole register file back, base register included, whatever registers are named |
| Executor.Hart.Validated | src/exec/exec.c:719-729 | All pieces granted, or FAULT |
| Executor.Hart.StorePieces | src/exec/exec.c:731-738 | Validated stores cannot fail and leave exactly the run of stores behind |
| Executor.Hart.LoadPieces | src/exec/exec.c:743-744 | Validated loads cannot fail and return every piece, sign-extended on request |
| Executor.Hart.NoteStore | src/exec/exec.c:600-611 | The subtraction-only overlap test clears the reservation as specified |
| Executor.Hart.DoSingleMem | src/exec/exec.c:867-903 | Faults with nothing changed, or does exactly its access, register effect and writeback |
| Executor.Hart.DoPair | src/exec/exec.c:713-754 | The same for both transfers of a pair |
| Executor.Hart.DoPairVector | src/exec/exec.c:764-821 | The same for every piece of a vector pair |
| Executor.Hart.DoSingleVector | src/exec/exec.c:830-865 | The same for the sixteen-byte register, which never touches the monitor |
| Executor.Hart.DoExclusive | src/exec/exec.c:905-939 | LDXR loads and reserves; STXR stores exactly if the reservation stood, spends it, and reports 0 exactly then and 1 otherwise in its status register and no other |
| Executor.Hart.DoPlain | src/exec/exec.c:1500-1920 | Every instruction that leaves memory alone has its exact effect, or changes nothing and answers FAULT for a trapped one and UNSUPPORTED for a refused one |
| Executor.Hart.Dispatch | src/exec/exec.c:1500-1920 | Precise execution: any status but OK leaves registers, monitor and every memory byte as they were; memory forms, add, subtract, high multiply and branches have their exact effect; an STXR reports 0 with its bytes in memory exactly where the reservation stood, and 1 with memory as it was where not |
| Executor.CompareThenBranch | src/exec/exec.c:1521-1543 | A flag-setting compare, in its register, immediate or extended form, and the conditional branch after it branch exactly as the condition says of the operands, for all sixteen conditions |
| InstructionMeaning.AddSubMeans | src/exec/exec.c:1521-1536 | ADD, ADDS, SUB and SUBS in registers and exact integers: the sum or difference modulo 2^32 or 2^64 in its register, 31 being the stack pointer or nothing, the four flags with V exactly when the signed result does not fit, and nothing else moved |
| InstructionMeaning.AddCarryMeans | src/exec/exec.c:1538-1562 | ADC, ADCS, SBC and SBCS likewise: the carry flag is added, and a subtraction borrows when it is clear |
| InstructionMeaning.MulHighMeans | src/exec/exec.c:441-468 | UMULH and SMULH put the high word of the exact unsigned or signed product in their register |
| InstructionMeaning.BranchMeans | src/exec/exec.c:1794-1818 | A branch with link leaves the address after itself in X30, a plain one no register changed |
| InstructionMeaning.OthersMean | src/exec/exec.c:1500-1920 | A host system call answers in X0, a copy to a vector fills its low half, a data-processing form puts its result cut to its width; which forms complete and which are refused |
| InstructionMeaning.FormsAre | src/exec/exec.c:1830-1868 | Which instructions move memory, which of them store, and the sizes each form has |
| InstructionMeaning.UserRegisters | src/exec/exec.c:613-672 | MSR then MRS of the three writable user registers gives the value back, of NZCV its four flag bits; two more read 0; nothing else is there |
| InstructionMeaning.FlagPlaces | src/regs/regs.c:229-239 | N, Z, C and V are bits 31 to 28 of the NZCV word, and no other bit is set |
| InstructionMeaning.ExtendedMeans | src/exec/exec.c:396-426 | A register offset is the extended register, as a signed or unsigned number, times its scale modulo 2^64 |
| InstructionMeaning.LoadMeans | src/exec/exec.c:867-903 | LDR, LDRS and LDAR: the register holds the number in memory at the guest's own base, offset and index arithmetic, sign-extended if asked and cut to its width; the base moves as the index mode says, after the load |
| InstructionMeaning.StoreMeans | src/exec/exec.c:867-903 | STR and STLR: the low bytes of the register are at that address, least significant first, no other byte has changed, and of the registers only the base has moved |
| InstructionMeaning.StorePairMeans | src/exec/exec.c:713-762 | STP: the first register at the address, the second right after it |
| InstructionMeaning.LoadPairMeans | src/exec/exec.c:713-762 | LDP and LDPSW: the same for loads, the second register loaded last and the base moved after both |
| InstructionMeaning.StoreVectorMeans | src/exec/exec.c:764-865 | The sixteen-byte vector stores: low half first, of a pair the first register first |
| InstructionMeaning.LoadVectorMeans | src/exec/exec.c:830-865 | The sixteen-byte LDR: the low half from the address, the high half from eight bytes on, no other register moved |
| InstructionMeaning.TouchesExactly | src/exec/exec.c:713-903 | Every such instruction completes exactly when each of its pieces may be read, or written; nothing past them is asked for |
| TransferMeaning.LoadedMeans | src/exec/exec.c:867-903 | Under translation: a completed LDR, LDRS or LDAR leaves in its register the number found where the access translated, sign-extended if asked and cut to its width, moves the base as its index mode says, and leaves memory as it was |
| TransferMeaning.LoadedPairMeans | src/exec/exec.c:713-762 | The same for LDP and LDPSW, the second register from the second half of the places |
| TransferMeaning.StoredMeans | src/exec/exec.c:867-903 | A completed STR or STLR leaves the low bytes of its register where the access translated, every other byte as it was, and of the registers moves the base alone |
| TransferMeaning.StoredPairMeans | src/exec/exec.c:713-762 | The same for STP, the bytes of the first register before those of the second |
| TransferMeaning.PlacesAre | src/mmu/mmu.c:675-787 | Those places are what the consecutive addresses from the guest's own address on translated to before the access, for its kind and level |
| ElfLoader.ValidateSegment | src/elf/elf.c:71-103 | An accepted segment is permissioned, non-wrapping, and its file slice lies in the image |
| ElfLoader.PlanIsExact | src/elf/elf.c:241-253 | A good plan holds the segment of every loadable header and nothing else |
| ElfLoader.MapAllShows | src/elf/elf.c:267-286 | Mapped disjoint segments each show their file slice followed by zeros |
| ElfLoader.MapAllElsewhere | src/elf/elf.c:267-286 | Every address outside the segments is as it was |
| ElfLoader.MapAllRegions | src/elf/elf.c:267-286 | The region table gains exactly one region per segment, with its permissions |
| ElfLoader.LoadIsExact | src/elf/elf.c:157-298 | After a load every loadable header has its region and shows its bytes |
| ElfLoader.CountLoads | src/elf/elf.c:215-223 | The first pass counts the loadable headers |
| ElfLoader.BuildPlan | src/elf/elf.c:241-253 | The second pass collects the segments up to the first bad one |
| ElfLoader.AnyOverlap | src/elf/elf.c:255-265 | The double loop finds an overlap exactly when the segments are not pairwise apart |
| ElfLoader.MapSegments | src/elf/elf.c:267-293 | Exactly how mapping ends: NO_MEMORY when the allocations run out before the first segment that meets an old region, RANGE at that segment, else OK with the exact hull; exactly the segments before that point are mapped |
| ElfLoader.Load | src/elf/elf.c:157-298 | The exact status and the exact memory left behind, on every image, memory and allocation outcome |
| ElfLoader.UntouchedExactly | include/oemu/elf.h:45-68 | A result other than OK and NO_MEMORY leaves the memory untouched if and only if the image was refused before mapping or its first segment already meets a region |
| ElfLoader.ClearIsAllOrNothing | include/oemu/elf.h:64-68 | Into a memory clear of the image the header's promise holds, and OK maps everything |
| ElfMeaning.LoadProgram | src/elf/elf.c:157-298 | The loader on every program a linker may write -- file and program headers at the offsets of the ELF-64 format, every loaded segment sound, no two colliding -- into a memory clear of it: loaded, with the header's entry point, each segment present with exactly its rights, its slice of the file and zeros after it, and nothing else changed |
| ElfMeaning.HeaderVerdict | src/elf/elf.c:163-213 | What is refused for its file header alone, and with which verdict |
| ElfMeaning.ForeignVerdict | src/elf/elf.c:163-173 | What is no ELF file at all is INVALID_ARG |
| ElfMeaning.SegmentVerdict | src/elf/elf.c:71-131 | Which program headers are loaded, and the verdict on each by its own fields: accepted with the rights of its flag bits, INVALID_ARG, or OVERFLOW |
| ElfMeaning.ProgramVerdict | src/elf/elf.c:215-243 | Nothing to load is INVALID_ARG, too little room in the table RANGE, no memory for the plan NO_MEMORY, in this order |
| ElfMeaning.BadVerdict | src/elf/elf.c:245-258 | Then the first loaded header that is not sound decides, with its own verdict |
| ElfMeaning.CollidingVerdict | src/elf/elf.c:260-270 | Then two loaded segments with an address in common are RANGE |
| ElfLoader.LoadIntoClash | src/elf/elf.c:267-286 | A concrete two-segment image loaded into a concrete memory: RANGE, with the first segment left mapped |
| Alu.AdderIsExact | src/regs/regs.c:86-131 | value + 2^w*C equals x + y + carry, V is set exactly when the signed sum does not fit, and N and Z describe the value |
| Alu.SubtractIsExact | src/regs/regs.c:86-131 | Subtraction by complement: the wrapped difference, with C, Z and N==V deciding the orders |
| Alu.ConditionsCompare | src/regs/regs.c:34-84 | After a flag-setting subtraction each of the sixteen conditions decides what it is named for: the ten comparisons, the sign of the difference, its signed overflow, and always |
| Alu.ChainIsExact | src/exec/exec.c:1521-1562 | An ADDS/ADCS chain over any number of limbs computes the exact sum and its carry out |
| Alu.NoStepWraps | src/exec/exec.c:441-456 | No 64-bit intermediate of the high multiply overflows |
| Alu.UmulhIsExact | src/exec/exec.c:441-456 | The unsigned high multiply is floor(a*b / 2^64) |
| Alu.SmulhIsExact | src/exec/exec.c:458-468 | The signed high multiply is the high word of the signed product for every sign combination |
| UartStream.Conservation | src/dev/pl011.c:70-81 | In every run the bytes written to DR equal those emitted, dropped and still queued |
| UartStream.StreamInOrder | src/dev/pl011.c:70-104 | Over a run whose steps overtake nothing but copies of their own byte, sink output followed by the queue is the written stream less exactly the overflow drops |
| UartStream.StreamInOrderExactly | src/dev/pl011.c:179-220 | The console is in written order throughout a run, under any account of the drops, if and only if no step of it writes a byte past a queue that holds a different one |
| UartStream.StepInOrderExactly | src/dev/pl011.c:179-220 | One step from an ordered state leaves an ordered one if and only if it overtakes nothing but copies of its byte; otherwise no account of the drops restores the order |
| UartStream.OvertakenOrder | src/dev/pl011.c:187-207 | A byte written with the FIFO off while others wait comes out before all of them |
| UartStream.FifoOffReorders | src/dev/pl011.c:187-207 | A concrete run whose sink hears two bytes in the wrong order |
| UartStream.ReceiveInOrder | src/dev/pl011.c:90-104 | Accepted bytes are read back in order, each once |
| UartMeaning.WriteMeans | src/dev/pl011.c:187-214 | A written byte goes out at once with control bit 4 clear, else waits behind at most 65536 others, of which the oldest is the one lost |
| UartMeaning.LoopbackMeans | src/dev/pl011.c:215-233 | With control bits 7 and 9 set it is also received if bit 0 is set and fewer than sixteen bytes wait, and else counted as lost |
| UartMeaning.HostMeans | src/dev/pl011.c:281-297 | A byte from the host is refused with STATE while bit 0 or 9 is clear, with FULL while sixteen wait, and else queued last |
| UartMeaning.EarlyConsole | src/dev/pl011.c:187-233 | Whatever is written from reset on is heard at once and in order, and nothing is received or lost, although the loop-back bit is set |
| UartMeaning.QueuedConsole | src/dev/pl011.c:264-279 | Up to 65536 bytes written with the FIFO on and then pumped are heard in order and none is lost |
| UartDevice.RingPush | src/dev/pl011.c:70-81 | Writing at the tail index appends to the queue the ring stands for |
| UartDevice.RingPop | src/dev/pl011.c:264-275 | Moving the head index removes the oldest byte |
| UartDevice.Serial.Push | src/dev/pl011.c:70-81 | Queues a byte, over the oldest one and counted when the ring is full |
| UartDevice.Serial.Inject | src/dev/pl011.c:281-297 | Refuses when the receiver is off or full, else appends |
| UartDevice.Serial.WriteDr | src/dev/pl011.c:187-220 | A DR write transmits or queues, and loops back as the control word says |
| UartDevice.Serial.ReadDr | src/dev/pl011.c:90-104 | A DR read takes the oldest byte, or zero |
| UartDevice.Serial.PumpAll | src/dev/pl011.c:264-279 | Hands every queued byte to the sink, oldest first |
| UartDevice.Serial.WriteCr | src/dev/pl011.c:235-237 | A control write replaces the control word and moves no byte |

## Left out

- Instruction fetch, including the different statuses the two memory modules give a misaligned fetch.
- Memory-mapped devices, aliases of host memory and their dispatch on the bus: the bus is RAM with unaliased blocks.
- The decoder: a decoded instruction is a record with a well-formedness predicate.
- Executor.Hart.Dispatch: data-processing forms other than add, subtract, their carry forms and the high multiplies enter as one register write with an open result, because they touch no memory and cannot fail; a host system call is only its answer in X0.
- VcpuCore.VirtualCpu.Retire: takes what the shared switch came to as a parameter; for memory forms `TranslatedTransfer.ExecuteOrDeliver` proves the record that is delivered, and since every refusal leaves one the recomputed address is never used under translation.
- VcpuRun.Step: the shared instruction switch, cache maintenance and address translation enter through their effect on PC, SP, NZCV and PAR_EL1; general registers and memory are the executor model's.
- ExceptionState.Follow: a handler's own work is any change of state at its level; that its save area and the shared stack survive is the hypothesis the epilogue states.
- TreeRoundTrip.FindsExactly: needs distinct sibling names and no stray END; `FindIsSearch` states the general case in document order. Blobs are below 2^32 bytes and nesting within the reader's 32 frames, as `Readable` says; deeper trees are refused (`TooDeep`).
- TreeBuilder.Builder.Property: the typed property emitters differ only in how they spell the value, and the cell and string-list forms emit the same bytes piece by piece; sizes are unbounded integers, not wrapping `size_t`.
- GicProtocol.Step: 32-bit accesses within the 64 KiB windows; register reads other than the acknowledge register, group, configuration and identification registers gate nothing and are not modelled.
- ElfLoader.Load: images are shorter than 2^64 bytes; the temporary segment table is a sequence.
- UartStream.Step: interrupt status, flag and divisor registers are not modelled.
- The tracer, the allocator seam, PSCI, the flat image loader, the machine assembly and the command line: diagnostics or thin plumbing.
