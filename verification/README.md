# pyOCD target access, proved

This project models how pyOCD reaches a target: the memory cache, the MEM-AP and debug port drivers below it, the
core register transfers and their cache, and five smaller cores with loops of their own (COM port framing, sector
erase, ROM table scanning, address splitting, layered options). Each layer keeps state that must agree with something
simpler, and each is proved to be that simpler thing: a byte-block access through cache, MEM-AP and debug port is an
access to a flat byte memory, a register-list access through cache and transfer loops one to a flat register file. The
register transfers stand directly on DCRSR and DCRDR; that these are themselves reached through the MEM-AP is not
modelled.

Code that works step by step is modelled by classes and loops whose contracts tie them to specification functions or
to the steps of a state machine; what those functions and runs keep is proved by lemmas.

## How the parts fit

- `Bytes` is the flat little-endian memory, `BitFields` parts of words. `AdiHardware` is the hardware on the far side
  of a probe: SELECT, banked DP registers, and one MEM-AP whose CSW, TAR and DRW drive that memory, with a TAR that
  wraps. Any access may fail; what failed is recorded, so that every error raised above is told to be that of one
  failed access, or a refusal before any.
- `DebugPorts` is the debug port driver with its SELECT cache, its lock and its deferred reads; `MemAps` the MEM-AP
  driver with its CSW cache, single and block transfers, and the byte blocks cut from them; `CswFields` the memory
  attribute fields of CSW.
- `MemoryMaps` has the regions. `CacheRuns` is the memory cache as a state machine over runs; `MemoryCaches` is the
  cache itself, an interval set over a `MemAp`, each of whose calls is one step of that machine.
- `Cores` is the run state and run token both caches look at. `CoreRegisters` is the register numbering,
  `RegisterTransfers` what lists of reads and writes mean, `BankedTransfers` the same where CFBP banks share storage,
  `CortexMCores` the transfer loops over DCRSR and DCRDR, `RegisterRuns` and `RegisterCaches` the register cache as a
  machine and as code.
- `FlashErasers`, `Sdc600`, `RomTables` and `OptionsManagers` stand alone.

The debug port follows the Arm Debug Interface (IHI 0031 and IHI 0074, chapters B2 and C2), the register selectors
section C1.6.3 of the ARMv7-M Architecture Reference Manual (DDI 0403).

## What is assumed

- A core is RUNNING or HALTED; target memory and registers change on their own only while it runs. A step is atomic.
  All writes to cached memory and registers of a halted core go through the caches.
- A failed SELECT, CSW or AP access leaves the register it was meant for as it was; a block write that fails has stored
  the words before the one that failed. The MEM-AP is called while its CSW cache is true (`CswKnown`), which every
  successful call keeps, a failed one may lose as described below, and a reset restores; the runs of the memory cache
  say so (`cswKnown` in `CacheRuns`). The TAR wraps at some block size that the driver's page size divides; the page size
  may be any multiple of 4 that does.
- Selectors that share storage are stack pointers with each other, or CFBP banks with each other (`Wired`), and the
  stack pointer selected by CONTROL is fixed.
- Register accesses fail only as `CoreRegisterAccessError`: the core is not halted, or a transfer is not ready.
- Flash regions of other cores (the `pname` filter) are not in the list an erase sees.

## Where the code differs from what it says, or from what one would expect

Each of these is a lemma, with the exact condition where there is one.

- Writing a CFBP field does not drop the combined `cfbp` words from the register cache, although the class comment says
  all five are invalidated (register.py:28-33, 186-193): `RegisterRuns.StaleCfbp`, `RegisterRuns.CfbpEntryRightExactlyWhen`.
  With the words evicted too, everything but floats is covered (`repaired` in `RegisterRuns`).
- The register cache does not relate s- and d-registers: `RegisterRuns.FloatEntryRightExactlyWhen`, for any list of
  writes.
- A batched register write moves fields of combined words behind all other writes:
  `RegisterTransfers.BatchIsInOrderExactlyWhen`; and between CFBP banks in the same storage one field is lost:
  `BankedTransfers.SharedBanksDiffer`, `BankedTransfers.BankedBatchIsInOrderExactlyWhen`.
- A CSW write that ends in a transfer error, at the three places outside a `try` (ap.py:1097, 1220, 1247), leaves the
  CSW cache wrong, and the next word read may return what is not in memory: `MemAps.CswWriteSafeExactlyWhen`,
  `MemAps.StaleCswReadsWrongWord`. It cannot happen where CSW is set for the transfer size already, as the methods of
  `MemAps.MemAp` ensure.
- When the probe manages DPBANKSEL and says it supports banked registers, the bank is dropped, because the address
  passed on is masked to its low four bits (dap.py:757-762, 797, 839): `DebugPorts.DpAccessHits`.
- A SELECT write that raises leaves the lock taken (dap.py:766-768, 858-868): `selectFailures` in `DebugPorts`.
- Writing the SELECT register directly does not tell the SELECT cache: `DebugPorts.DebugPort.WriteDp`.
- A target write that fails part way leaves stale bytes cached: `CacheRuns.FailedWriteSafeExactlyWhen`.
- `intersects_range` reports empty regions as intersecting: `MemoryMaps.IntersectsIsSharingExactlyWhenNonempty`.
- A positive ROM table offset is not reduced modulo the address space: `RomTables.AddressIsModularExactlyWhen`; and the
  entry limit of 64-bit tables counts words, so 128 entries are read (`RomTables.MaxEntries`).
- Inside an SDC-600 packet, flags that are neither framing nor error flags pass as data: `Sdc600.FlagInPacket`.
- `update` on an options manager without layers is an index error: `OptionsManagers.OptionsManager.Update`.

## Model

| member | source | states |
|---|---|---|
| CacheRuns.EveryReadIsExact | pyocd/cache/memory.py:242-259 | over every run of reads, writes, invalidates, resumes, resets, steps, halts and target activity in which every write succeeded, was refused before the target, or found all cached bytes of its range as it would make them, and no access is made while a failed CSW write has left the MEM-AP's CSW cache wrong (`cswKnown`), each successful read returns exactly the target's current bytes |
| CacheRuns.EveryReadIsCurrent | pyocd/cache/memory.py:242-301 | the same over runs with failing target writes, for every byte but those cached ones that a failed write would have changed |
| CacheRuns.NextKeeps | pyocd/cache/memory.py:52-61 | what every step keeps: a running core's token is newer than the cache's, and halted with equal tokens every cached byte not in doubt equals memory and lies in a cacheable region |
| CacheRuns.RunKeeps | pyocd/cache/memory.py:52-61 | that invariant holds in every state of every run |
| CacheRuns.ReadIsCurrent | pyocd/cache/memory.py:144-185 | one read in any state satisfying the invariant returns memory's bytes |
| CacheRuns.CheckRegionsMeans | pyocd/cache/memory.py:209-225 | an access treated as cacheable has one cacheable region to itself, an uncached one touches no cacheable address |
| CacheRuns.CheckRegionsExactly | pyocd/cache/memory.py:209-225 | an access inside one region has that region's cacheability, one outside all regions is uncached, and every other is refused |
| CacheRuns.ReadRaisesOnlyWhen | pyocd/cache/memory.py:242-259 | a cached read raises when it is neither inside one region nor outside all, and then without touching the target; otherwise exactly when one access to the target failed, with its error |
| CacheRuns.FailedWriteSafeExactlyWhen | pyocd/cache/memory.py:281-301 | whatever first part of it arrives, a failing write leaves the cache right exactly when it is refused before the target or every cached byte of its range already has the value it writes |
| CacheRuns.FailedWriteLeavesStaleByte | pyocd/cache/memory.py:281-301 | a concrete run in which a read after a failed write returns a stale byte |
| CacheRuns.MetricsCountReads | pyocd/cache/memory.py:103-118 | over every run, hits plus misses is the number of bytes of cached reads since the metrics were last reset |
| MemoryCaches.MemoryCache.CheckCache | pyocd/cache/memory.py:52-61 | a running core or an old run token empties the cache, and nothing else does |
| MemoryCaches.MemoryCache.GetRanges | pyocd/cache/memory.py:63-88 | the cached intervals over a request, and nonempty disjoint gaps holding exactly the requested addresses that are not cached, for any order the interval set is visited in |
| MemoryCaches.SplitRequest | pyocd/cache/memory.py:69-88 | cutting a request by the overlapping intervals leaves gaps that are exactly the rest of it |
| MemoryCaches.CutByInterval | pyocd/cache/memory.py:72-86 | cutting all gaps by one interval removes exactly the interval's addresses |
| MemoryCaches.PiecesAreTheRest | pyocd/cache/memory.py:72-86 | the pieces of one gap are nonempty, apart, and the gap without the interval |
| MemoryCaches.MemoryCache.ReadUncached | pyocd/cache/memory.py:90-101 | every gap is fetched into a new interval; a fetch that fails leaves only fetched bytes added |
| MemoryCaches.MemoryCache.UpdateMetrics | pyocd/cache/memory.py:103-118 | hits grow by the requested bytes that were cached, misses by the others, the read count by one |
| MemoryCaches.MemoryCache.Read | pyocd/cache/memory.py:128-142 | the intervals over a request form a gapless chain in address order, all showing the filled cache |
| MemoryCaches.CoveringIsChain | pyocd/cache/memory.py:133-142 | sorting disjoint intervals that cover a request gives a chain without holes |
| MemoryCaches.MemoryCache.MergeData | pyocd/cache/memory.py:144-185 | the merged bytes are as many as asked for, byte i the one at address addr + i |
| MemoryCaches.MemoryCache.UpdateContiguous | pyocd/cache/memory.py:187-207 | replacing the overlapping intervals by one leaves the old contents overridden by the written bytes, and the cache well formed |
| MemoryCaches.MemoryCache.UpdateCache | pyocd/cache/memory.py:283-299 | all three ways of writing into the cache do the same to its contents |
| MemoryCaches.MemoryCache.EditInPlace | pyocd/cache/memory.py:289-294 | writing inside one interval replaces those bytes of its data in place and no others |
| MemoryCaches.MemoryCache.ReadMemoryBlock8 | pyocd/cache/memory.py:242-259 | the cached read, with its region check, uncached path and failures, is one read step of the runs; it raises only for a refused range or one failed access below, and never when all bytes are cached |
| MemoryCaches.MemoryCache.WriteMemoryBlock8 | pyocd/cache/memory.py:270-301 | the cached write is one write step of the runs; it raises only for a refused range or one failed access below |
| MemoryCaches.AddedInterval | pyocd/cache/memory.py:90-101 | adding an interval where nothing is cached keeps intervals nonempty, disjoint, as long as their data and inside one cacheable region |
| MemoryCaches.RemovedIntervals | pyocd/cache/memory.py:202-207 | removing intervals keeps that too, and forgets exactly their addresses |
| Cores.Core.Resume | pyocd/coresight/cortex_m.py:1192-1205 | resuming a halted core makes it run with a new token, as in the runs of both caches |
| Cores.Core.Reset | pyocd/coresight/cortex_m.py:1040-1062 | a reset makes the core run with a new token |
| Cores.Core.Step | pyocd/coresight/cortex_m.py:690-706 | a step of a halted core gives a new token |
| MemAps.MemAp.ReadMemoryBlock8 | pyocd/core/memory_interface.py:158-197 | a byte-block read at any address and size, through 8-, 16- and 32-bit accesses, returns the flat memory slice; locks balance, and every access is naturally aligned because the hardware defines no other; the CSW cache stays true, even on failure, unless words are read after CSW was set for another size; an error is that of the one access that failed, or a refused 8- or 16-bit size |
| MemAps.MemAp.WriteMemoryBlock8 | pyocd/core/memory_interface.py:199-235 | a byte-block write at any address and size makes memory the flat update; one that fails has stored some first bytes of the data and nothing else; whole words written while CSW is set for words keep the CSW cache true however they end; an error is that of the one access that failed, or a refused 8- or 16-bit size |
| MemAps.MemAp.ReadMemoryBlock32 | pyocd/coresight/ap.py:1279-1295 | the word pages of a read concatenate to the flat slice, for every auto-increment page the TAR really wraps at; where CSW is set for words already, no failure makes the CSW cache wrong |
| MemAps.MemAp.WriteMemoryBlock32 | pyocd/coresight/ap.py:1263-1277 | the word pages of a write make memory the flat update, in order, and the loop ends; one that fails has stored some first words; where CSW is set for words already, no failure makes the CSW cache wrong |
| MemAps.MemAp.ReadBlock32Page | pyocd/coresight/ap.py:1235-1261 | one page is read through a wrapping TAR as the flat slice |
| MemAps.MemAp.WriteBlock32Page | pyocd/coresight/ap.py:1208-1233 | one page is written through a wrapping TAR as the flat update; one that fails has stored some first words of it |
| MemAps.PageStep | pyocd/coresight/ap.py:1269-1276 | a step of the page loop is not empty, stays in one page, and leaves the address at a page boundary or the block finished |
| MemAps.PageInsideWrap | pyocd/coresight/ap.py:1269-1276 | a transfer that stays in a page of any size dividing the hardware's wrap range never wraps |
| MemAps.MemAp.DoReadMemory | pyocd/coresight/ap.py:1143-1206 | one 8-, 16- or 32-bit read returns the little-endian number at its address; a size the AP does not have is refused without an access, and any other error is that of the one access that failed |
| MemAps.MemAp.DoWriteMemory | pyocd/coresight/ap.py:1082-1125 | one 8-, 16- or 32-bit write stores its little-endian bytes and nothing else; a size the AP does not have is refused without an access, and any other error is that of the one access that failed |
| MemAps.SingleReadIsFlat | pyocd/coresight/ap.py:1178-1189 | shifting and masking DRW by the address lanes gives the bytes the access addressed |
| MemAps.SingleWriteIsFlat | pyocd/coresight/ap.py:1099-1108 | data shifted into its byte lanes is stored at its address, the other lanes untouched |
| MemAps.MemAp.WriteReg | pyocd/coresight/ap.py:1038-1058 | a CSW write the cache knows to be unnecessary is left out, and otherwise the register and the cache end up as the outcome says |
| MemAps.MemAp.PutAddress | pyocd/coresight/ap.py:1218-1221 | CSW and TAR are ready for a page of words, or the failure left memory alone |
| MemAps.CswWriteSafeExactlyWhen | pyocd/coresight/ap.py:1050-1058 | however it ends, a CSW write leaves the CSW cache true exactly when it writes the value CSW holds already |
| MemAps.StaleCswReadsWrongWord | pyocd/coresight/ap.py:1235-1249 | after a CSW write from bytes to words that faulted, the next word read leaves CSW out and may be given a word that is not in memory |
| MemAps.MemAp.ReadReg | pyocd/coresight/ap.py:1031-1036 | a cached CSW is returned without an access, and is what the hardware holds while the cache is true; other registers are read |
| MemAps.HeadEndsAligned | pyocd/core/memory_interface.py:165-177 | after the leading byte and halfword, what is left of a block is aligned for the words or halfwords it still has |
| MemAps.RegAddressReaches | pyocd/coresight/ap.py:1032-1053 | CSW, TAR and DRW accesses reach those registers through SELECT's bank, for ADIv5 and ADIv6 addresses |
| DebugPorts.DebugPort.WriteDpSelect | pyocd/coresight/dap.py:712-727 | the SELECT field holds the wanted value afterwards, written or already there; no access is made when it is there already, and one otherwise; a failure leaves the rest of the state alone |
| DebugPorts.SelectedIsAsked | pyocd/coresight/dap.py:847-868 | a SELECT replaced under the AP mask selects the asked AP and bank |
| DebugPorts.ApAccessHits | pyocd/coresight/dap.py:847-868 | with SELECT at the asked AP and bank, or managed by the probe, the access reaches the asked register |
| DebugPorts.DpAccessHits | pyocd/coresight/dap.py:729-770 | a DP access reaches the banked register it names exactly when its bank is not lost to a probe that manages DPBANKSEL |
| DebugPorts.IgnoringIsNotHonouring | pyocd/coresight/dap.py:744-752 | the driver's list of registers without banks is the complement of the hardware's |
| DebugPorts.DebugPort.SetDpBankSel | pyocd/coresight/dap.py:729-770 | the bank is selected and the lock taken exactly when the bank is honoured and the driver manages it; a banked register of a probe without them is refused |
| DebugPorts.DebugPort.WriteDp | pyocd/coresight/dap.py:828-845 | a misaligned address is refused with nothing changed; otherwise the asked DP register is written unless its bank is lost; writing SELECT itself makes the SELECT cache wrong exactly when it held another value |
| DebugPorts.DebugPort.BeginReadDp | pyocd/coresight/dap.py:788-826 | a misaligned address is refused with nothing changed; otherwise a deferred DP read delivers the asked register, and enters the outstanding reads with the lock it took |
| DebugPorts.DebugPort.SelectAp | pyocd/coresight/dap.py:847-868 | afterwards the asked address is the one SELECT selects, the SELECT cache still true, and the lock held exactly when the driver selects APs |
| DebugPorts.DebugPort.HandleError | pyocd/coresight/dap.py:1009-1047 | recovery clears the sticky flags after a fault, aborts after a timeout, resets the line after a protocol error, and forgets SELECT after the first and the last |
| DebugPorts.DebugPort.WriteAp | pyocd/coresight/dap.py:870-885 | the asked AP register is written with the lock held since the selection, and the lock is released on every path but a failed SELECT write; an error is that of the one access that failed, and is recovered from |
| DebugPorts.DebugPort.BeginReadAp | pyocd/coresight/dap.py:902-938 | a deferred AP read delivers a value the asked register may have, read with the lock held, and enters the outstanding reads with the lock exactly when the driver selects APs |
| DebugPorts.DebugPort.WriteApMultiple | pyocd/coresight/dap.py:940-955 | words written through DRW one after another, as the hardware takes them |
| DebugPorts.DebugPort.BeginReadApMultiple | pyocd/coresight/dap.py:972-1007 | words read through DRW one after another; the read enters the outstanding reads with the lock it took |
| DebugPorts.ReadCallback.Invoke | pyocd/coresight/dap.py:809-820 | the callback delivers its result, handles a target error, and gives back exactly the lock its read took: one callback step of the lock |
| DebugPorts.LockDepthOverRuns | pyocd/coresight/dap.py:765-768 | over every run of immediate and deferred accesses and callbacks, lock depth is its start plus the outstanding reads that hold the lock plus the locks leaked by SELECT writes that raised; every access of `DebugPort` and every callback ensures one step of such a run |
| DebugPorts.LockReturnsToStart | pyocd/coresight/dap.py:809-820 | when every deferred read begun in a run has had its callback invoked, on success or error, and no SELECT write raised, lock depth is back at its start |
| DebugPorts.OutstandingWasBegun | pyocd/coresight/dap.py:902-938 | a read that is outstanding was begun in the run and not invoked since |
| DebugPorts.DebugPort.ReadDp | pyocd/coresight/dap.py:788-826 | an immediate DP read gives the asked register unless its bank is lost, and leaves the lock as it was |
| AdiHardware.WriteDrwAllIsFlat | pyocd/coresight/ap.py:1208-1233 | words written to DRW inside one wrap range are a flat memory update |
| AdiHardware.ReadDrwIsFlat | pyocd/coresight/ap.py:1235-1261 | words read from DRW inside one wrap range are a flat memory slice |
| AdiHardware.OffsetIsRemainder | pyocd/coresight/ap.py:1269-1272 | the recursive offset inside a block is the remainder |
| AdiHardware.DividesIsNoRemainder | pyocd/coresight/ap.py:1269-1276 | the page size divides the wrap range when the range is a multiple of it |
| AdiHardware.CswByFields | pyocd/coresight/ap.py:114-134 | the transfer size and the single increment by the bits of CSW |
| Bytes.U32leListToByteList | pyocd/utility/conversion.py:74-82 | words unpacked little-endian, four bytes each, in order |
| Bytes.ByteListToU32leList | pyocd/utility/conversion.py:56-72 | bytes packed little-endian: unpacking gives them back, followed by the padding |
| Bytes.UnpackedInjective | pyocd/utility/conversion.py:56-82 | no two word lists have the same bytes |
| MemoryMaps.SplitByAddress | pyocd/core/memory_map.py:133-154 | for any addresses, unordered, repeated or outside, consecutive nonempty ranges tile the object, cut exactly at the contained addresses other than its start |
| MemoryMaps.MemoryMap.AddRegion | pyocd/core/memory_map.py:735-760 | the region, under a fresh name where its own is taken, enters the list, which stays in bounds and sorted by start; one that does not fit is refused |
| MemoryMaps.AddedCopyFits | pyocd/core/memory_map.py:735-760 | the added copy is the region itself but for a taken name, and has a name no other region has |
| MemoryMaps.IntersectsIsSharingExactlyWhenNonempty | pyocd/core/memory_map.py:121-131 | the intersection test means a shared address exactly for nonempty regions |
| MemoryMaps.IntersectsIffTouched | pyocd/core/memory_map.py:121-131 | which ranges the test reports for any region, empty ones included |
| MemoryMaps.InOneCacheableJoins | pyocd/cache/memory.py:187-207 | touching ranges of one cacheable region lie in that region together |
| CoreRegisters.PartOfInserted | pyocd/coresight/cortex_m.py:1341-1345 | a register read from a word into which it was inserted is the value cut to its field |
| CoreRegisters.PartIsItsBits | pyocd/coresight/cortex_m.py:1341-1345 | a register's value depends on exactly the bits of its mask |
| CoreRegisters.InsertedAgree | pyocd/coresight/cortex_m.py:1456-1480 | the same field put into two words leaves them different exactly where they differed outside it |
| CoreRegisters.InsertedKeeps | pyocd/coresight/cortex_m.py:1456-1480 | a field write changes no bit outside the field |
| CoreRegisters.PsrViews | pyocd/coresight/cortex_m_core_registers.py:86-96 | the six xPSR views are the unions of APSR, EPSR and IPSR their names say, and those three are disjoint |
| CoreRegisters.ApsrBits | pyocd/coresight/cortex_m_core_registers.py:29-31 | apsr reads as bits 31 to 27 and 19 to 16 of xPSR, in place |
| CoreRegisters.EpsrBits | pyocd/coresight/cortex_m_core_registers.py:29-31 | epsr reads as bits 26 to 24 and 15 to 10 of xPSR, in place |
| CoreRegisters.JoinedViews | pyocd/coresight/cortex_m_core_registers.py:86-96 | iapsr, eapsr and iepsr read as the views their names join |
| CoreRegisters.CfbpBytes | pyocd/coresight/cortex_m.py:1341-1343 | a CFBP word is primask, basepri, faultmask and control, joined from the low byte up |
| CoreRegisters.RegisterTable | pyocd/coresight/cortex_m_core_registers.py:103-267 | which register numbers there are, and the DCRSR selector each is reached by |
| CoreRegisters.FieldsOfOneWord | pyocd/coresight/cortex_m_core_registers.py:75-78 | different CFBP bytes do not overlap |
| CoreRegisters.JoinedSplit | pyocd/coresight/cortex_m.py:1448-1453 | a double is its two halves |
| RegisterTransfers.BatchIsInOrderExactlyWhen | pyocd/coresight/cortex_m.py:1443-1502 | a batched write leaves what the list written in order leaves, exactly when for every combined word the last such word, outside the fields written after it, is what the earlier fields make of the present word |
| RegisterTransfers.UnmixedBatchIsInOrder | pyocd/coresight/cortex_m.py:1439-1502 | a list that mixes no combined word with its own fields is written as if in order |
| RegisterTransfers.MixedBatchDiffers | pyocd/coresight/cortex_m.py:1482-1487 | CONTROL then CFBP in one batch ends differently from the same writes in order |
| RegisterTransfers.HarmlessExactlyWhen | pyocd/coresight/cortex_m.py:1454-1487 | for one combined word: fields written last equal everything in order exactly under that condition |
| RegisterTransfers.FieldsOverAgree | pyocd/coresight/cortex_m.py:1454-1480 | two words put through the same field writes agree exactly where they agreed outside the fields |
| RegisterTransfers.CollectedIs | pyocd/coresight/cortex_m.py:1454-1480 | each combined word is gathered once, and is the present word with the list's fields written over it in order |
| RegisterTransfers.BatchKeeps | pyocd/coresight/cortex_m.py:1439-1502 | a batched write leaves every register alone that no entry overlaps, whichever selectors share storage |
| RegisterTransfers.WriteThenRead | pyocd/coresight/cortex_m.py:1341-1370 | each written value reads back, cut to its register, unless a later entry overlaps it |
| RegisterTransfers.BatchThenRead | pyocd/coresight/cortex_m.py:1425-1502 | after a batched write whose mixing is harmless, each value reads back cut to its register, unless a later entry overlaps it |
| BankedTransfers.SharedBanksDiffer | pyocd/coresight/cortex_m.py:1454-1487 | where two CFBP banks share storage, fields of both in one batch lose the first |
| BankedTransfers.BankedBatchIsInOrderExactlyWhen | pyocd/coresight/cortex_m.py:1439-1502 | with CFBP banks in any storage, a batched write leaves what the list in order leaves, exactly when every entry that is not a field of the bank written last only writes, as far as it is seen at the end, what that bank's fields before it make of the present word |
| BankedTransfers.BatchAtBank | pyocd/coresight/cortex_m.py:1454-1502 | a batched write leaves in a combined word the fields of the last gathered bank over the present word, or without any field what the list in order leaves |
| BankedTransfers.LastGatheredIsLast | pyocd/coresight/cortex_m.py:1456-1468 | the bank written last is the one whose first field entry comes last in the list |
| BankedTransfers.OthersHarmlessExactlyWhen | pyocd/coresight/cortex_m.py:1454-1487 | one bank's fields alone equal everything in order exactly under that condition on the list |
| CortexMCores.CortexM.ReadRegisters | pyocd/coresight/cortex_m.py:1276-1370 | a list with doubles, duplicates, fields and views reads as its registers read one by one, position by position; a core that is not halted is an error, and otherwise exactly the registers whose transfers were not ready are reported |
| CortexMCores.CortexM.ReadPlain | pyocd/coresight/cortex_m.py:1311-1352 | the started transfers collected and cut to their registers |
| CortexMCores.CortexM.Merge | pyocd/coresight/cortex_m.py:1354-1368 | doubles joined from their halves, other results put back at their positions |
| CortexMCores.CortexM.WriteRegisters | pyocd/coresight/cortex_m.py:1425-1512 | a completed write leaves the batched file; a failed one has touched no register outside the list, and reports exactly the words whose transfers were not ready; a running core is refused |
| CortexMCores.CortexM.Gather | pyocd/coresight/cortex_m.py:1439-1487 | the loop gathers exactly the collected writes, reading a combined word when its first field comes |
| CortexMCores.CortexM.SendWords | pyocd/coresight/cortex_m.py:1489-1512 | the words are written in order, and any transfer that is not ready is reported |
| CortexMCores.CortexM.ReadCoreRegisters | pyocd/coresight/cortex_m.py:1256-1274 | unsupported registers are refused first |
| CortexMCores.CortexM.WriteCoreRegisters | pyocd/coresight/cortex_m.py:1403-1423 | unsupported registers are refused first |
| RegisterRuns.EveryRegisterReadIsCurrent | pyocd/cache/register.py:95-161 | over every run, a register-cache read gives for every register but s- and d-floats and combined CFBP words what the core holds; with eviction of the combined words, those too |
| RegisterRuns.NextKeeps | pyocd/cache/register.py:76-211 | what every step keeps: tokens ordered, and a halted core with equal tokens agrees with every covered entry |
| RegisterRuns.RunKeeps | pyocd/cache/register.py:76-211 | that holds in every state of every run |
| RegisterRuns.WriteKeepsCoherent | pyocd/cache/register.py:165-204 | storing the written values and dropping overlapping ones leaves every covered entry right after the batched write |
| RegisterRuns.ReadKeepsCoherent | pyocd/cache/register.py:95-161 | filling the cache from a read leaves every covered entry right, and the results are the entries |
| RegisterRuns.FillsExactly | pyocd/cache/register.py:104-161 | a read fetches exactly the missing registers and the parts of the combined words that come with them; every other entry stays as it is |
| RegisterRuns.DropsExactly | pyocd/cache/register.py:176-204 | a write drops exactly the stack pointers when one is written, the parts of xPSR, all of CFBP for a combined word, and the same field of every bank for a field; all else stays |
| RegisterRuns.OverlapEvicts | pyocd/cache/register.py:182-204 | whatever a written register can change is dropped, through shared bytes, views and aliased stack pointers |
| RegisterRuns.CfbpEntryRightExactlyWhen | pyocd/cache/register.py:186-193 | a cached combined CFBP word survives a write of CFBP fields, and is right exactly when no field in its storage is written, or the bank written last gets every byte back with its present value; for CFBP banks in any storage |
| RegisterRuns.SameWordExactlyWhen | pyocd/cache/register.py:186-193 | field writes leave a CFBP word as it is exactly under that condition |
| RegisterRuns.StaleCfbp | pyocd/cache/register.py:186-193 | cache CFBP, write CONTROL: the cached CFBP is wrong |
| RegisterRuns.SingleEntryRightExactlyWhen | pyocd/cache/register.py:176-180 | a cached single survives any list that does not name it, right exactly when the doubles of the list leave its word as it is |
| RegisterRuns.DoubleEntryRightExactlyWhen | pyocd/cache/register.py:176-180 | a cached double survives any list that does not name it, right exactly when the list leaves both its words as they are |
| RegisterRuns.FloatEntryRightExactlyWhen | pyocd/cache/register.py:165-204 | after a write of any list of registers, every s- or d-register cached or listed has an entry, its last value in the list or the one cached before, and it is right exactly when that is what the singles and doubles of the list in order leave in the register |
| RegisterRuns.FloatAfterBatch | pyocd/coresight/cortex_m.py:1448-1502 | a batched write leaves in a float register the last value the list gives each of its words, through singles and through either half of doubles |
| RegisterCaches.RegisterCache.CheckCache | pyocd/cache/register.py:76-88 | a running core or an old run token empties the cache |
| RegisterCaches.RegisterCache.Read | pyocd/cache/register.py:95-161 | one cached read, with its refusals and failures, is one read step of the runs, and the counters grow by its hits and misses |
| RegisterCaches.RegisterCache.ReadHalted | pyocd/cache/register.py:104-161 | what is read, what enters the cache, the results in the order asked for, and the hit and miss counts |
| RegisterCaches.ListToRead | pyocd/cache/register.py:104-121 | the missing registers in any order, and each combined word that one of them needs |
| RegisterCaches.RegisterCache.Write | pyocd/cache/register.py:165-211 | one cached write is one write step of the runs; a failed one empties the cache |
| RegisterCaches.RegisterCache.StoreAndEvict | pyocd/cache/register.py:176-204 | the loops store and drop exactly the entries the runs say |
| FlashErasers.ErasedExactly | pyocd/flash/eraser.py:115-153 | where sectors fit their regions, one range erases, in increasing order, exactly the sectors holding an address of the range before the first address outside flash |
| FlashErasers.SpecsEraseExactly | pyocd/flash/eraser.py:108-180 | a list of specs, addresses, ranges or lengths, erases spec by spec, in increasing order, exactly the sectors holding an address the spec names before its first one outside flash |
| FlashErasers.ErasesInOwnFlash | pyocd/flash/eraser.py:119-151 | every sector is erased by the flash of the region it starts in |
| FlashErasers.ErasesAreBracketed | pyocd/flash/eraser.py:108-156 | over all ranges, every erase is between the init and the cleanup of its own flash, and inits and cleanups alternate and balance |
| FlashErasers.AlignedFit | pyocd/flash/flash.py:479-491 | regions apart from each other whose boundaries, and those of their subregions, are at multiples of the sector sizes beside them fit their sectors |
| FlashErasers.SectorInRegion | pyocd/flash/flash.py:465-491 | in such a region the sector of an address lies in the region and has one size throughout, in a subregion or beside it |
| FlashErasers.FirstSector | pyocd/flash/eraser.py:138-154 | the sectors of a range are its first sector and those of the range after it |
| FlashErasers.FlashEraser.SectorErase | pyocd/flash/eraser.py:108-156 | the loops end and send exactly the planned inits, erases and cleanups; they fail exactly when a call of the flash fails, having sent a prefix of them |
| FlashErasers.FlashEraser.EraseOne | pyocd/flash/eraser.py:116-153 | the same for the inner loop over one range |
| Sdc600.StuffedRoundTrip | pyocd/coresight/sdc600.py:280-320 | destuffing inverts stuffing, for every byte list |
| Sdc600.StuffedExactlyCanonical | pyocd/coresight/sdc600.py:280-297 | the stuffed lists are exactly those of plain non-flag bytes and escaped flags |
| Sdc600.CanonicalHasNoFlags | pyocd/coresight/sdc600.py:280-297 | stuffed bytes hold no flag but ESC |
| Sdc600.CanonicalRoundTrip | pyocd/coresight/sdc600.py:299-320 | stuffing inverts destuffing on those lists |
| Sdc600.PacketRoundTrip | pyocd/coresight/sdc600.py:323-394 | receiving a sent packet gives its data and leaves the stream at the next one |
| Sdc600.AllPacketsArrive | pyocd/coresight/sdc600.py:347-394 | any number of packets arrive in order, with NULL bytes anywhere in the stream |
| Sdc600.FlagInPacket | pyocd/coresight/sdc600.py:234-345 | an unescaped flag inside a packet raises exactly when it is an error flag or an escape with nothing to escape; END cuts the packet short, NULL is dropped, ESC changes the byte after it, and every other flag passes as data |
| Sdc600.FlagTable | pyocd/coresight/sdc600.py:234-259 | which byte values raise, with what error, which change the link phase, and which is answered |
| Sdc600.FrameBytes | pyocd/coresight/sdc600.py:280-297 | the framing and escape bytes by value |
| Sdc600.Stuff | pyocd/coresight/sdc600.py:280-297 | the loop computes the stuffed list |
| Sdc600.Destuff | pyocd/coresight/sdc600.py:299-320 | the loop computes the destuffed list, and a trailing escape is an index error |
| Sdc600.ComPort.Read1 | pyocd/coresight/sdc600.py:194-217 | the next byte that is not NULL |
| Sdc600.ComPort.CheckFlags | pyocd/coresight/sdc600.py:234-259 | which flags raise, the link phase after them, and the reply to LPH2RL |
| Sdc600.ComPort.ReadPacketDataToEnd | pyocd/coresight/sdc600.py:323-345 | the body up to END destuffed, or the first error flag's error, and what is left of the stream |
| Sdc600.ComPort.ReceivePacket | pyocd/coresight/sdc600.py:347-370 | START, body and END from the stream without its NULL bytes, with every error outcome |
| Sdc600.ComPort.SendPacket | pyocd/coresight/sdc600.py:372-394 | START, the stuffed data and END are sent |
| RomTables.ScanIsThePresentEntries | pyocd/coresight/rom_table.py:368-392 | the entry-by-entry scan looks at every present entry before the end of the table, once, in order, with its number and address |
| RomTables.RomTable.ReadClass1Table | pyocd/coresight/rom_table.py:368-392 | reading nine words at a time, at most 960, looks at exactly what the scan does; a failed block read has looked at a prefix of it |
| RomTables.RomTable.ReadClass9Table | pyocd/coresight/rom_table.py:547-588 | the same in nine words or four pairs, at most 512 32-bit or 128 64-bit entries |
| RomTables.RomTable.HandleTableEntry | pyocd/coresight/rom_table.py:409-426 | an entry that is present and in 32-bit format gives its component's address |
| RomTables.AddressIsModularExactlyWhen | pyocd/coresight/rom_table.py:610-619 | component addresses are base plus offset modulo the address space exactly for negative offsets and for positive ones that stay inside |
| RomTables.AddressOverTheTop | pyocd/coresight/rom_table.py:418-426 | a positive offset can leave the 32-bit space |
| RomTables.FinalEntries | pyocd/coresight/rom_table.py:570-585 | what ends a table of either class, and what is passed over |
| RomTables.JoinedHalves | pyocd/coresight/rom_table.py:566-568 | a 64-bit entry has its first word at the bottom |
| RomTables.TableExtent | pyocd/coresight/rom_table.py:366-372 | how much of a table is read at most: the bytes before the registers of a Class 0x1 table, 0x800 bytes of Class 0x9, 0x400 of its 64-bit format |
| RomTables.ForEach | pyocd/coresight/rom_table.py:313-340 | every component of a table and its child tables that passes the filter, in order |
| OptionsManagers.NotificationsTellAll | pyocd/core/options_manager.py:66-156 | over every run of layer changes, replaying all notifications onto the defaults gives every option's value, and each is of a real change from the value replayed so far |
| OptionsManagers.OpReplay | pyocd/core/options_manager.py:66-80 | one change: its notifications take a subscriber from the old values to the new |
| OptionsManagers.UntouchedStays | pyocd/core/options_manager.py:66-80 | options a change does not name keep their value |
| OptionsManagers.BackOnlyFillsGaps | pyocd/core/options_manager.py:90-96 | a layer at the back changes, and notifies, no option that is set |
| OptionsManagers.GetIsFirst | pyocd/core/options_manager.py:133-138 | an option's value is that of the first layer that has it |
| OptionsManagers.GetUnset | pyocd/core/options_manager.py:125-138 | an option no layer sets has its default, or none |
| OptionsManagers.GetAppended | pyocd/core/options_manager.py:133-138 | the last layer counts only for options no other sets |
| OptionsManagers.RegularNameStays | pyocd/core/options_manager.py:98-112 | exactly the names already in final form, lower case and without double underscores, are not changed |
| OptionsManagers.SetOptionHasValue | pyocd/core/options_manager.py:98-112 | an option set added to the front, or an update, gives each of its options the value set last for it, under the name with double underscores as dots and in lower case |
| OptionsManagers.SomeSettingIsLast | pyocd/core/options_manager.py:98-112 | every setting with a value has a last one of its name, itself or a later one |
| OptionsManagers.BackOptionHasValue | pyocd/core/options_manager.py:90-112 | one added to the back does so for options no layer sets |
| OptionsManagers.ConvertedOnly | pyocd/core/options_manager.py:98-112 | and for no other name, so not for settings without a value |
| OptionsManagers.NameHasParts | pyocd/core/options_manager.py:106-111 | every name is such parts joined by double underscores |
| OptionsManagers.LowerLetters | pyocd/core/options_manager.py:106-111 | lower case moves A to Z by 32 and keeps every other character |
| OptionsManagers.UpdatedValues | pyocd/core/options_manager.py:144-156 | the values an update notifies are the options' values afterwards |
| OptionsManagers.OptionsManager.AddFront | pyocd/core/options_manager.py:82-88 | layers and notifications after adding a layer of highest priority |
| OptionsManagers.OptionsManager.AddBack | pyocd/core/options_manager.py:90-96 | layers and notifications after adding a layer of lowest priority |
| OptionsManagers.OptionsManager.Update | pyocd/core/options_manager.py:144-156 | layers and notifications after an update; without any layer it is an index error |
| CswFields.HprotRoundTrip | pyocd/coresight/ap.py:1420-1445 | HPROT decodes to the existing bits of what was encoded, the rest of CSW stays, for all kinds of MEM-AP |
| CswFields.HnonsecRoundTrip | pyocd/coresight/ap.py:1447-1462 | the same for HNONSEC |
| CswFields.PlacesInCsw | pyocd/coresight/ap.py:1396-1462 | which bits of CSW the attributes are at, for each kind of MEM-AP |
| CswFields.SettableAttributes | pyocd/coresight/ap.py:939-957 | which attribute bits each kind lets through |
| CswFields.FieldsApart | pyocd/coresight/ap.py:1420-1462 | neither field disturbs the other |
| CswFields.FieldsKeepTransfers | pyocd/coresight/ap.py:1420-1462 | neither touches the size and increment fields transfers rely on |
| CswFields.MemAttributes.SetHprot | pyocd/coresight/ap.py:918-941 | the attribute, cut to its mask, is what CSW says |
| CswFields.MemAttributes.SetHnonsec | pyocd/coresight/ap.py:948-957 | the attribute, cut to its mask, is what CSW says |
| CswFields.MemAttributes.Exit | pyocd/coresight/ap.py:966-994 | leaving a context restores the CSW value it was entered with |

## Left out

- 64- to 256-bit memory transfers, SELECT1 and addresses above 32 bits: the memory is the 32-bit space.
- Deferred (`now=False`) memory reads above the MEM-AP: only the debug port's deferred reads are modelled, and between
  the start and the callback of one read no other access happens inside the drivers.
- Accelerated memory interfaces, the breakpoint filter over cached reads, and the word-sized wrappers of the memory
  cache: the wrappers only repack the bytes of the block calls.
- Error recovery beyond clearing the caches: JTAG and SWD resets, power-up, sticky flags, retries and wall-clock
  timeouts. A stream or transfer that has nothing more to give times out.
- Fault addresses and lengths attached to errors: an error is its kind.
- Read-only and self-changing CSW bits: what is written to CSW is what it holds.
- SLEEPING, LOCKUP and RESET core states, and the `hook_cb` of a step.
- Float conversion of register values, register names, and the component and option tables.
- Sleeping cores that wake without a token change, and memory written by another debugger.
- Power domains, child table creation and identification registers of ROM tables; tables are trees, so scanning ends.
- Text forms of erase addresses (`int(..., base=0)`), mass and chip erase, flash algorithms.
- Link opening and closing, reboot requests and FIFO widths of the SDC-600; the transmit FIFO always has room.
- Option subscriptions: what is notified is recorded in order, to whom is not. Names are lowered in A to Z only.
- Reading the implemented HPROT bits back from the hardware, and `set_cacheable`.
- `uniquify_name` is a parameter of `AddRegion` that gives a fresh name; the region validator always accepts.
- FPB and DWT allocation, vector catch, AP discovery, `find` over chunks, and the command line: easy beside the rest, or
  input and output.
- RegisterRuns.EveryRegisterReadIsCurrent: says nothing of s- and d-registers, nor of combined CFBP words for the code as
  written, because the code does not keep them right; the exact conditions are the lemmas named above.
- RegisterTransfers.BatchIsInOrderExactlyWhen: takes the four combined words to share no storage; with shared banks the
  condition is that of `BankedTransfers.BankedBatchIsInOrderExactlyWhen`.
- CacheRuns.EveryReadIsExact: says nothing of accesses made while a failed CSW write has left the CSW cache wrong,
  because what they return is not memory (`MemAps.StaleCswReadsWrongWord`).
- Routing DCRSR and DCRDR accesses through the MEM-AP: the register transfers act on them directly.
- FlashErasers.ErasedExactly: asks that sectors lie inside their regions, as `FlashErasers.AlignedFit` shows for aligned
  regions; otherwise the erased sector of an address may start before its region.
