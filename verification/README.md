# Model of the amlnf raw-NAND stack

A Dafny model of the C part of Amlogic's raw-NAND driver: what lies below the translation layer, and the block
devices above it. `dafny verify dfyconfig.toml` checks the whole project.

## What is modelled

**The record store in the reserved blocks** (`phy/chipenv.c`). `Flash` and `Paging` give blocks of tagged pages
and the cutting of a buffer into pages. `StoreSpec` says on values what the allocator, a cold scan and one save do.
`StoreChip` is the same store as an object whose flash, reservation table and index are changed step by step, with
program, erase and read outcomes left open; its methods are proved against `StoreSpec`. A ghost log keeps every erase,
program and read with its outcome: `StoreActs` and `StoreEffects` say in terms of it what a search, a retried save or
a scan does when some of them fail. `StoreInvariant`,
`StoreReserved`, `StoreSaves` and `StoreRecovery` prove what every save and every power cut keeps; `StoreRoom` shows
that a healthy chip never runs out of blocks in reach of the scan; `StoreRuns` turns this into a refinement: any run
of saves, power cuts and restarts acts on a table with one value per record, and a saved value stays until it is
saved over. `StoreBookkeeping` counts slots, finds where the size of a record matters and shows that all replicas are
readable. `StoreFaults` says exactly when a scan still finds a record on a flash with bad blocks, torn blocks and
unreadable pages. `StoreClient` uses the object.

**The chip operations** (`phy/chip_operation.c`, `phy/new_nand.c`, `dev/phydev.c`). `ReadRetry` is the read machine
with its jumps between two loops, for any ECC behaviour; `ChipOps` the striped page read and write on an array of
chips; `DeviceIo` transfers of several pages; `Addressing` dies, planes, record blocks and SLC page maps;
`RetrySchedule` the choice of retry settings; `SuperBlock` the bad-block table seen through superblocks.

**Layout and arithmetic**: `Layout` (`dev/phydev.c`), `EccFit` (`phy/hw_controller.c`), `Partition`
(`block/aml_nftl_block.c`, `block/aml_nftl_init.c`).

**Two concurrent protocols**, as interleaved atomic steps: `RequestQueue` (`ntd/aml_ntd_blkdevs.c`) and `ChipLock`
(`dev/amlnf_ctrl.c`).

`Arith` and `Sequences` hold the few general facts the proofs lean on.

## How the hardware appears

A page is erased, or programmed with data, a four-letter tag and a time stamp. An erased page reads as all ones
without an error. Program, erase, status and ECC outcomes are arbitrary; a program or an erase that fails leaves
anything in its page or block. Programming a striped page that was not erased is not said to leave anything in
particular. The buffers of striped operations are
counted in units of one `page_size`. The translation layer is an array of sectors whose operations may fail.

## What turned out not to hold, and when it does

- The allocator skips blocks that are factory bad; the recovery scan skips every bad block and looks at 48 block
  numbers, not at 48 usable blocks. Scan and index agree iff the record's block is one the scan looks into
  (`StoreSaves.ScanAgreesWithIndex`). With a first reserved block that went bad in use the first save is lost
  (`StoreFaults.FirstSaveOutOfReach`).
- The scan looks at the first page of a copy only. A reader gets the old bytes or the new ones at every power cut iff
  the record has at most one page of bytes, or is FULL_BLK and its block lies below the lowest free one; otherwise
  some cut leaves the first page of the new copy and zeros (`StoreRuns.AtomicIff`).
- A failed program in a FULL_PAGE append makes the code test, and thereby erase, the block in use, and then program
  the same pages again. The copy ends up behind erased pages and the record is lost, although the save reports success
  (`StoreFaults.RepeatedAppendLoses`; `StoreFaults.StrandedIsLost` says exactly when).
- A save that failed on the way to its block may leave a torn block with the record's tag. A FULL_BLK scan settles on
  the lowest block in reach that opens with the record, so the save is found again iff no torn block lies below
  (`StoreFaults.BlkSaveFoundIff`, `StoreFaults.FailedBlkSaveFoundIff`).
- The stamp has sixteen bits and is compared without regard to wrapping. A FULL_PAGE record that is moved when its
  stamp wraps is found at its old place if the power goes before the old block is erased (`StoreFaults.MovedFoundIff`).
- The search of the scan reads at most eleven pages of a block: nine slots, the middle one, and then the slot behind
  the last whole copy, which has no room for a copy and therefore never helps (`StoreActs.WholeBefore`).
- No save checks the size of its record. A FULL_BLK record that does not fit a block is reported saved and leaves
  an erased block; a save is recovered iff it fits and its block is in reach (`StoreBookkeeping.SavedExactlyIfFits`).
- If the old block of a record neither erases nor passes its test, and only then, the save is refused after the index
  has already moved, and the old slot stays taken (`StoreChip.Chip.MoveSave`, result `READ_ONLY`).
- A blank plane 0 does not set `plane0_retry_flag` and a blank plane 1 does not clear it. A two-plane read stays
  in step iff no chip but the last has a written plane 0 with an erased plane 1, and no chip an erased plane 0 with
  a plane 1 whose first read is retried (`ReadRetry.InStepIffAligned`). A write or erase that
  succeeds leaves both planes of a page alike.
- The die adjustment by bitwise or is injective iff the number of dies is a power of two
  (`Addressing.AdjustInjectiveIff`).
- `block_markbad` tests the table entry before the shift to doubled blocks, so with two planes it can return
  without marking (`SuperBlock.TwoPlaneMarkCanMiss`).
- The start of the size scan is kept in 32 bits: a device that starts at 4 GiB or beyond gets too large a size
  (`Layout.SizeIsScanIff`). A single device with partitions behind the boot device is not
  laid out, unless the length of the reserved region wraps to nothing (`Layout.SingleDeviceFails`).
- In SLC mode `nand_read` and `nand_write` compute the page from the start address in every turn, so a transfer of
  several pages goes to one page, and reads back right only if all its buffers are equal
  (`Addressing.TransferPagesDiffer`, `DeviceIo.SlcTransferNeedsEqual`).
- The windows of the partitions are in order iff the start of the last one is reached without wrapping 64 bits
  (`Partition.InOrderIff`). The all-ones size therefore works in the last place only: in first place it leaves later
  partitions without a window, in between it breaks the order (`Partition.AllOnesBeforeLast`).
- On the 1ynm type the filler behind page index 0 would hit a page of the list; the code writes it only from index
  1 on (`Addressing.FillerIsFree`).

## Assumptions of the store theorems

`WellFormed` asks for a region that ends below block 255, since the reservation table is one of bytes, and for
four-letter record names that differ from each other and from what an erased page reads as. `CanRun` asks for the
invariant, that the 16-bit stamp does not wrap during the save, that the record fits, and that the caller's buffer is
as long as what the save reads: a record whose size is a multiple of the page size is copied with one page more.

`Healthy`, used for runs, says that every record fits and that the lowest blocks the allocator may hand out, one more
than there are records, are all in reach of the scan: none of them went bad in use and they lie in the 48 block
numbers. Factory-bad blocks may lie between them, and blocks above may be bad in any way. Single saves, power cuts and
restarts (`RecoveryAfterSave`, `NonInterference`, `PowerCut`, `BootKeeps`, `SaveView`) only ask that the blocks
concerned are in reach.

## Model

| member | source | states |
|---|---|---|
| `Flash.FillReplicates` | phy/chipenv.c:690-861 | every slot of a block that has room for a whole copy holds that copy after the fill loop |
| `Paging.ArgPagesIs` | phy/chipenv.c:630-630 | the page count reached by taking one page size at a time is `size / pagesize + 1` |
| `Paging.SavedPages` | phy/chipenv.c:630-639 | the byte-driven save loop writes exactly `arg_pages` pages, also for sizes that are a multiple of the page |
| `Paging.ReadsBack` | phy/chipenv.c:535-580 | reading a copy back returns the saved bytes, whatever the destination buffer held before |
| `StoreReserved.SoundCount` | phy/chipenv.c:157-179 | between the start and the end of the region lie exactly as many blocks that are not factory bad as are needed |
| `StoreSpec.FirstIndex` | phy/chipenv.c:382-391 | the first slot of the reservation table holding a value, and none before it |
| `StoreSpec.FreeFrom` | phy/chipenv.c:376-434 | the block found is a candidate and no lower block is; nothing is found only when no candidate exists |
| `StoreInvariant.LocateFindsLive` | phy/chipenv.c:1187-1262 | the walk over the region ends at the live block, whatever stale blocks a power cut left |
| `StoreInvariant.LocateFindsNothing` | phy/chipenv.c:1187-1262 | with no block of the record in the window the walk changes nothing |
| `StoreReserved.SlotAvailable` | phy/chipenv.c:1061-1070 | as long as some usable block is not listed there is a free slot to list it in (48 slots, 48 blocks, pigeonhole) |
| `StoreReserved.ReserveEffect` | phy/chipenv.c:1064-1070 | taking a block adds exactly it to the table, keeps the entries distinct and usable, and uses one more slot |
| `StoreReserved.ReleaseEffect` | phy/chipenv.c:1125-1130 | giving a block back removes exactly it and frees one slot |
| `StoreRoom.FreeBlockInWindow` | phy/chipenv.c:341-441 | in a settled store the allocator always has a block, and one that the scan looks into, also between factory-bad blocks |
| `StoreRoom.SaveSettled` | phy/chipenv.c:587-1148 | on a healthy chip every save that may run succeeds and leaves the store settled |
| `StoreSaves.LocateOnlyFindable` | phy/chipenv.c:1187-1262 | the walk only ever settles on a block that is good and inside the 48-block window |
| `StoreSaves.ScanFindsLive` | phy/chipenv.c:1151-1404 | a cold scan yields block, page and stamp of the live copy |
| `StoreSaves.ScanFindsNothing` | phy/chipenv.c:1151-1404 | a cold scan for an absent record leaves a cold entry, and nothing is recovered |
| `StoreSaves.ScanAgreesWithIndex` | phy/chipenv.c:1187-1404 | scan and index agree on block and page iff the record's block is one the scan looks into |
| `StoreSaves.LastCopyExtends` | phy/chipenv.c:1326-1395 | appending a copy behind the last one makes it the last one the scan finds |
| `StoreSaves.AppendIsLive` | phy/chipenv.c:870-1037 | a FULL_PAGE append, or its first pages, leaves a block whose newest copy is the appended one |
| `StoreSaves.PutErasedIsLive` | phy/chipenv.c:870-1037 | the first pages of a copy in a fresh block are already the newest copy of that block |
| `StoreSaves.FillErasedIsLive` | phy/chipenv.c:690-861 | a filled block opens with the whole record |
| `StoreSaves.RelocateTable` | phy/chipenv.c:1061-1132 | after a move the new block is listed, the old one is not, and the slot count grows only on a first save |
| `StoreSaves.RelocateMoves` | phy/chipenv.c:1061-1148 | the move touches the new block, the old block, one index entry and nothing else |
| `StoreSaves.MoveSparesOthers` | phy/chipenv.c:1061-1132 | a move leaves every other record's entry valid and its block byte for byte |
| `StoreSaves.MoveKeeps` | phy/chipenv.c:1061-1148 | a move keeps the whole store invariant, with the old block erased or, at a power cut, still there |
| `StoreSaves.FreeBlockTakes` | phy/chipenv.c:665-686 | the allocator's block may take the record and no lower unreserved block exists |
| `StoreSaves.BlkContent` | phy/chipenv.c:690-861 | a new FULL_BLK block opens with the record if a copy fits, and is left erased if not |
| `StoreSaves.BlkSaveKeeps` | phy/chipenv.c:587-1148 | a FULL_BLK save keeps the invariant, spares the other records and, when it succeeds, leaves the new bytes |
| `StoreSaves.PagePassKeeps` | phy/chipenv.c:655-1140 | one FULL_PAGE append, in place or into a new block, does the same |
| `StoreSaves.PageSaveKeeps` | phy/chipenv.c:655-1140 | the two appends of a FULL_PAGE save do the same |
| `StoreRecovery.SaveKeeps` | phy/chipenv.c:587-1148 | the same for a save of either kind |
| `StoreRecovery.SavedIsRecovered` | phy/chipenv.c:478-585 | a saved record is recovered byte for byte by scan and read, and the scan matches the index |
| `StoreRecovery.RecoveryAfterSave` | phy/chipenv.c:587-1404 | after a successful save a cold scan finds the block, page and stamp in memory and reading there returns the saved bytes |
| `StoreRecovery.NonInterference` | phy/chipenv.c:587-1404 | saving one record leaves what is recovered for every other one unchanged |
| `StoreRecovery.WriteFreeKeeps` | phy/chipenv.c:690-861 | writing an unreserved block, erased or with a losing first page, changes nothing for a reader |
| `StoreRecovery.CutBeforeErase` | phy/chipenv.c:1072-1132 | with the new block opening with the record and the old one not yet erased the new one wins |
| `StoreRecovery.BlkCut` | phy/chipenv.c:665-1132 | after any program or erase of a FULL_BLK save the store is valid, with the old copy, or with a known number of pages of the new one; when the old block lies below the new one a torn copy is never seen |
| `StoreRecovery.PagePassCut` | phy/chipenv.c:665-1140 | the same for one append of a FULL_PAGE save, in place or into a new block |
| `StoreRecovery.PageCut` | phy/chipenv.c:655-1140 | the same for both appends |
| `Paging.ReadsTorn` | phy/chipenv.c:515-577 | a copy of which only the first pages are in reads as their bytes and leaves the rest of the destination alone |
| `StoreRuns.PowerCut` | phy/chipenv.c:655-1395 | stopped after any single step, a save of any record that fits leaves the old bytes, or the first pages of the new ones and nothing behind them, and every other record as it was; asked is only that the scan looks into the records' blocks and into the blocks the save takes |
| `StoreRuns.AtomicIff` | phy/chipenv.c:587-1395 | a reader always gets the old bytes or the new ones, whatever is saved and wherever it is cut, iff the record has at most one page of bytes or is FULL_BLK with its block below the lowest free one |
| `StoreRuns.TakenInWindow` | phy/chipenv.c:341-441 | on a healthy chip the blocks a save takes are always ones that the scan looks into |
| `StoreRuns.BootKeeps` | phy/chipenv.c:1151-1404 | a restart from the flash of any valid state within reach of the scan rebuilds a valid store with every entry fresh |
| `StoreRuns.BootedBlocks` | phy/chipenv.c:1398-1403 | after a restart a reserved block belongs to the record it opens with |
| `StoreRuns.SaveView` | phy/chipenv.c:587-1148 | a successful save is a write of one row of the table of recoverable values, on any chip whose records the scan reaches |
| `StoreRuns.FailedSaveView` | phy/chipenv.c:665-1148 | a save that finds no free block leaves its record as it was, or with its first copy already appended |
| `StoreRuns.CutView` | phy/chipenv.c:587-1148 | a cut save leaves its row, or writes its first pages, at least one |
| `StoreRuns.StepRefines` | phy/chipenv.c:587-1404 | every save, power cut and restart is one step of the abstract table |
| `StoreRuns.RunRefines` | phy/chipenv.c:587-1404 | whole runs of saves, power cuts and restarts on a healthy chip keep the store settled and refine the abstract table |
| `StoreRuns.RowStays` | phy/chipenv.c:587-1404 | a run that does not touch a record leaves what is recovered for it |
| `StoreRuns.Durable` | phy/chipenv.c:587-1404 | what a save wrote is recovered after every later run that does not save that record again |
| `StoreBookkeeping.SaveSlots` | phy/chipenv.c:1061-1132 | a first save uses one more slot, later ones none, and every valid record's block stays listed |
| `StoreBookkeeping.OversizeLeavesNothing` | phy/chipenv.c:690-745 | an oversized FULL_BLK record is reported saved and leaves nothing of it on the flash |
| `StoreBookkeeping.SavedExactlyIfFits` | phy/chipenv.c:587-1148 | a FULL_BLK save that reports success is recovered iff one copy fits the pages of a block and the scan looks into the block it took |
| `StoreBookkeeping.EveryReplicaReads` | phy/chipenv.c:690-861 | every replica of a FULL_BLK save that fits the block reads back as the saved bytes |
| `StoreBookkeeping.AnySlotIdentifies` | phy/chipenv.c:1197-1257 | whatever slot of a saved FULL_BLK block a scan ends up reading shows the record's tag and new stamp, or is erased |
| `StoreBookkeeping.BlankStart` | phy/chipenv.c:1151-1404 | a flash without records boots into an empty valid store, where runs can begin |
| `StoreFaults.RecoversIff` | phy/chipenv.c:1187-1404 | on any flash something is recovered for a record iff some block that the scan looks into opens with its tag |
| `StoreFaults.SavedOutOfReach` | phy/chipenv.c:587-1404 | a save into a block the scan skips is in the index and on the flash; a restart recovers nothing iff no other block in reach opens with the record |
| `StoreFaults.FirstSaveOutOfReach` | phy/chipenv.c:341-1404 | a flash on which it happens: the first reserved block went bad in use, the first save takes it and is lost |
| `StoreFaults.BlkScanIff` | phy/chipenv.c:1187-1262 | on any flash, torn blocks and all, the scan for a FULL_BLK record settles on the lowest block in reach that opens with it |
| `StoreFaults.PageScanIff` | phy/chipenv.c:1187-1282 | the scan for a FULL_PAGE record settles on the block in reach that opens with it under the greatest stamp, the lowest of equals |
| `StoreFaults.MovedFoundIff` | phy/chipenv.c:653-1275 | a FULL_PAGE record on its way to a new block, the old one not yet erased: the new copy is found iff the 16-bit stamp did not wrap, or the old block opens with stamp 0 and lies higher |
| `StoreFaults.BlkSaveFoundIff` | phy/chipenv.c:690-1404 | a FULL_BLK save, on the first try or a later one, is what a cold scan finds iff its block is in reach and no lower block in reach opens with the record |
| `StoreFaults.FailedBlkSaveFoundIff` | phy/chipenv.c:690-1404 | after a failed FULL_BLK save the old copy is still found iff no lower block in reach now opens with the record |
| `StoreFaults.StrandedIsLost` | phy/chipenv.c:922-1262 | a copy behind erased pages is recovered as nothing iff no other block in reach opens with the record |
| `StoreFaults.RepeatedAppendLoses` | phy/chipenv.c:922-940 | an append in place that fails once and is repeated after its test has lost a record that was recovered before |
| `StoreFaults.ScanDespiteFailuresIff` | phy/chipenv.c:1187-1262 | with any reads failing every entry a scan may settle on after a FULL_BLK save is the saved block with its stamp iff no other block in reach shows the tag at the start of a copy |
| `StoreActs.ScanOrderCovers` | phy/chipenv.c:1197-1256 | the search turns to the first nine slots, the middle one and the one behind the last copy, as far as the block has them |
| `StoreActs.WholeBefore` | phy/chipenv.c:1197-1256 | every slot with room for a whole copy comes before the one without |
| `StoreFaults.FoundDespiteFailures` | phy/chipenv.c:1187-1262 | whatever reads fail, a FULL_BLK record whose lowest block in reach is full of copies is found there if one copy among those searched could be read |
| `StoreFaults.SavedIsCopied` | phy/chipenv.c:690-861 | the block of a FULL_BLK save is full of copies |
| `StoreChip.Chip.constructor` | phy/chipenv.c:2159-2206 | an empty table and index over a given flash |
| `StoreChip.Chip.GetLastReserveBlock` | phy/chipenv.c:139-179 | one past the 48th block that is not factory bad |
| `StoreChip.Chip.GetFreeBlock` | phy/chipenv.c:341-441 | the lowest block that is unreserved, not excluded, not factory bad and erases; the erases tried are exactly those of the lower candidates, all failed, and BAD_BLOCK_FAILURE means that every candidate was tried; no reserved block is touched |
| `StoreChip.Chip.TestBlockReserved` | phy/chip_operation.c:1756-1960 | the retry test changes only the block it tests; it is passed iff its erase, its programs of pages with the tag and stamp of the save, its reads and the second erase all went well, and then leaves the block erased |
| `StoreChip.Chip.WriteFresh` | phy/chipenv.c:676-866 | with any program and erase failures: a failed program leads to a test and the next free block other than the one that failed; WRITE_FAILED only after a failed program in each of the blocks that the three tests of the save allow, BAD_BLOCK_FAILURE only when no candidate erases; on success a block with the new copies |
| `StoreChip.Chip.DropBlock` | phy/chipenv.c:1093-1124 | the save is refused iff the old block neither erased nor passed its test; otherwise the block is erased |
| `StoreChip.Chip.MoveTo` | phy/chipenv.c:1054-1132 | index and table after the move; refused iff there was an old block that neither erased nor passed |
| `StoreChip.Chip.MoveSave` | phy/chipenv.c:665-1132 | every outcome of a save that takes a new block, under arbitrary failures: nothing moved, after all tries were used up, or moved with the old block or the whole new one there at every moment |
| `StoreChip.Chip.SaveFullBlk` | phy/chipenv.c:587-1148 | every outcome under arbitrary failures: WRITE_FAILED only after four blocks with a failed program each; a failed save leaves the old block, its entry and the table; the old block is never erased before the whole new one is written; refused iff the old one neither erased nor passed; without failures it is `BlkSave` |
| `StoreChip.Chip.AppendInPlace` | phy/chipenv.c:868-940 | an append to the block in use under arbitrary failures: it is repeated after every failed program and test, and given up only when the tests are used up; only that block changes; on a repetition after a passed test the copy stands alone behind erased pages |
| `StoreChip.Chip.AppendCopy` | phy/chipenv.c:655-1140 | one append of a FULL_PAGE save: it stays in its block while two copies fit behind the start of the newest one, and otherwise goes to the first pages of a free block |
| `StoreChip.Chip.SaveFullPage` | phy/chipenv.c:655-1140 | two appends under arbitrary failures, each with all its tries, the three tests shared; no other record is touched at any time, success means the bytes are where the index says; without failures it is `PageSave`, flash step by flash step |
| `StoreChip.Chip.FirstReadable` | phy/chipenv.c:1197-1257 | the search reads the pages of `ScanOrder` one after the other until one can be read: what it found is the first of them that did not fail, and it found nothing iff all of them failed |
| `StoreChip.Chip.VisitBlock` | phy/chipenv.c:1187-1257 | one block of the walk: the whole search, and the entry changes exactly as the page found says |
| `StoreChip.Chip.LocateRecord` | phy/chipenv.c:1187-1262 | whatever reads fail, every good block of the window up to the hit is searched; the walk settles on the block whose page found wins among those found; without failures it is `Locate` |
| `StoreChip.Chip.FindFirstCopy` | phy/chipenv.c:1288-1338 | the first page of a copy that could be read and carries the tag, every earlier one failed or carries another |
| `StoreChip.Chip.FindLastCopy` | phy/chipenv.c:1339-1395 | the last page of the run of copies, as the reads that went well show it |
| `StoreChip.Chip.ResolveCopy` | phy/chipenv.c:1264-1395 | the page search within the block found, exact for any failing reads: the first (FULL_BLK) or last (FULL_PAGE) page of the record that it saw, or the entry as it was; without failures it is `Resolve` |
| `StoreChip.Chip.CheckInfo` | phy/chipenv.c:1151-1404 | whatever reads fail, the entry is what the reads that went well say, is grounded in a page of the record in a block in reach, and its block is listed; without failures it is what the cold scan says |
| `StoreChip.Chip.ReadInfo` | phy/chipenv.c:478-585 | a read returns the pages at the index, up to the first that fails, with the bytes before it in place; it leaves the buffer alone for an absent record |
| `StoreChip.Chip.ReadLoop` | phy/chipenv.c:515-577 | the page loop reads page after page and ends with the whole read, or with the bytes of the pages before the first failing one |
| `StoreChip.Chip.Restart` | phy/chipenv.c:1151-1404 | whatever reads fail, every entry is what the reads of its scan say, empty or grounded on the flash; without failures the state is `Boot` |
| `StoreClient.SaveRestartRead` | phy/chipenv.c:478-1404 | on a healthy chip without failures save, restart and read succeed: the bytes come back and no other record changes |
| `StoreClient.RestartAfter` | phy/chipenv.c:587-1404 | after a save and a restart the index is valid and leads to the saved bytes |
| `StoreClient.SaveUnderFailures` | phy/chipenv.c:587-1404 | a FULL_BLK save with any failures gives up on a failed program only after four blocks; afterwards a cold scan finds the new copy, or after a failed save the old one, iff no lower block in reach opens with the record |
| `StoreClient.AppendUnderFailures` | phy/chipenv.c:587-1404 | a FULL_PAGE save with any failures: other records keep their blocks, and a copy that went in after a test is not found unless another block opens with the record |
| `StoreClient.ScanDespiteFailures` | phy/chipenv.c:1187-1262 | as long as no other block in reach shows the tag, a scan with any failing reads finds the saved block with its stamp, unless every copy that it looks at was unreadable |
| `StoreClient.RestartUnderFailures` | phy/chipenv.c:1151-1404 | a restart with any failing reads finds every FULL_BLK record in its lowest block in reach, if that is full of copies and one among those searched could be read |
| `ReadRetry.Read` | phy/chip_operation.c:210-864 | the whole read ends for every ECC behaviour, never takes back a unit or an error, and passes every chip |
| `ReadRetry.PassGoesOn` | phy/chip_operation.c:302-847 | a jump back lowers (chips left, plane 0 unfinished, retries left) and does not change what the read ends with |
| `ReadRetry.ReadBoundAll` | phy/chip_operation.c:210-847 | at most `limit + 1` DMA reads per chip with one plane, `3 * limit + 2` with two |
| `ReadRetry.ReadDelivers` | phy/chip_operation.c:302-864 | with planes programmed together a read without ECC error has every page in its place, whatever was retried |
| `ReadRetry.ErasedCountNothing` | phy/chip_operation.c:346-570 | erased pages never count as an ECC error, whatever is retried around them |
| `ReadRetry.ReadTries` | phy/chip_operation.c:302-864 | the whole read in terms of the answers: every page is read until it is not broken, `limit + 1` times at most; the buffer is the last answers, the errors the pages broken in all reads |
| `ReadRetry.BothPlanesTried` | phy/chip_operation.c:302-745 | the same for the two planes of one chip |
| `ReadRetry.ChipKeepsStep` | phy/chip_operation.c:317-745 | one chip keeps a two-plane read in step iff its two pages are not one of the two bad pairs |
| `ReadRetry.InStepIffAligned` | phy/chip_operation.c:302-864 | a two-plane read stays in step to the end iff no chip but the last has a bad pair |
| `ReadRetry.AlignedDelivers` | phy/chip_operation.c:302-864 | in step, a read without ECC error fills the buffer chip-major, plane-minor |
| `ReadRetry.BlankPlaneOverruns` | phy/chip_operation.c:540-570 | the concrete run that puts three units into a buffer for two |
| `Addressing.AdjustPow2` | phy/chip_operation.c:127-130 | with a power of two dies the pages beyond the first die move up by one distance |
| `Addressing.AdjustInjectiveIff` | phy/chip_operation.c:127-130 | the internal-chip adjustment is injective iff the number of dies is a power of two |
| `Addressing.PlanePageInjective` | phy/chip_operation.c:174-182 | the plane split is injective in page and plane |
| `Addressing.RecordBlocksApart` | phy/chipenv.c:542-552 | record blocks of several chips share no physical block and stay out of the boot area |
| `Addressing.RecordBlocksRound` | phy/chipenv.c:542-552 | the record blocks behind the boot area go round the chips, one turn after the other |
| `Addressing.SlcPagesClimb` | phy/new_nand.c:16-55 | the page lists are strictly increasing and stay inside the block |
| `Addressing.SlcListIs` | phy/new_nand.c:16-55 | exactly which pages of a block are on the list of its kind |
| `Addressing.SlcMapParts` | dev/phydev.c:40-75 | the SLC map stays in the erase block of the logical page, at the listed page, and never before an aligned offset |
| `Addressing.SlcMapClimbs` | dev/phydev.c:40-75 | the SLC map is strictly increasing, hence injective |
| `Addressing.FillerIsFree` | phy/chipenv.c:819-850 | the 1ynm filler page behind page index `i` is no page of the list iff `i >= 1` |
| `Addressing.TransferPagesDiffer` | dev/phydev.c:156-192 | the pages of a transfer are all different iff the device is not SLC or the transfer has one page |
| `ChipOps.Chips.ReadPass` | phy/chip_operation.c:302-864 | one turn from RETRY_DMA, branch by branch, is `Pass` |
| `ChipOps.Chips.ReadPage` | phy/chip_operation.c:95-880 | the read loop on the chips gives exactly buffer, error count and read count of `Read` |
| `ChipOps.Chips.ProgramAll` | phy/chip_operation.c:1003-1110 | every chip is programmed and its outcome kept; on erased pages every chip that programs without a failure holds its units; no other page changes |
| `ChipOps.Chips.CheckStatus` | phy/chip_operation.c:1112-1153 | success is reported iff every chip passed |
| `ChipOps.Chips.WritePage` | phy/chip_operation.c:911-1168 | success iff the program of every chip passed; a successful write to erased pages leaves every chip and plane with its unit of the buffer; no other page ever changes |
| `ChipOps.WriteThenRead` | phy/chip_operation.c:95-1168 | the striped round trip: a read without ECC error returns the written buffer, within the read bound |
| `ChipOps.ReadOfWritten` | phy/chip_operation.c:95-1168 | of a written page every unit that was not broken in all its reads is delivered, and only the others count as errors |
| `ChipOps.HeldWhere` | phy/chip_operation.c:1003-1110 | a written page by chip number and row: unit group `i` in chip `i`, or in the one chip that the operation names |
| `ChipOps.ChangedWhere` | phy/chip_operation.c:1003-1110 | a write changes nothing but those rows of those chips |
| `ChipOps.MetWhere` | phy/chip_operation.c:220-330 | a read meets the cells in those rows of those chips |
| `ChipOps.ErasedReadsOnes` | phy/chip_operation.c:346-350 | a striped page never written reads as all ones and counts no ECC error |
| `ChipOps.OtherPagesKeep` | phy/chip_operation.c:958-1119 | writing one page leaves every other page, for a power of two dies |
| `DeviceIo.NandWrite` | dev/phydev.c:212-282 | success iff all pages lie in the device and every program passed; a successful write to erased pages puts every buffer into its own page, unless it is an SLC transfer of several pages; behind the end of the device nothing is written |
| `DeviceIo.NandRead` | dev/phydev.c:120-210 | success means what each page read returned, without ECC error; ECC_FAILURE means that the next page had one; the argument is refused iff the pages leave the device |
| `DeviceIo.TurnWhere` | dev/phydev.c:154-252 | turn `k` of a transfer goes to page `offset + first + k`, or in SLC mode to the listed page of the block of the first page |
| `DeviceIo.DevicesApart` | dev/phydev.c:154-252 | transfers inside two devices one behind the other never meet |
| `DeviceIo.DeviceRoundTrip` | dev/phydev.c:120-282 | what a successful device write left, a successful device read returns |
| `DeviceIo.SlcTransferNeedsEqual` | dev/phydev.c:166-182 | in SLC mode all pages of a transfer can be right only if all buffers are equal |
| `RetrySchedule.RotationTally` | phy/new_nand.c:638-640 | a full turn of a counter that goes round meets every setting once |
| `RetrySchedule.HynixZone` | phy/new_nand.c:394-400 | each aligned run of `n` Hynix calls is a rotation of the settings |
| `RetrySchedule.HynixZoneTally` | phy/new_nand.c:394-400 | such a run uses every setting once |
| `RetrySchedule.HynixRounds` | phy/new_nand.c:382-427 | from a fresh counter `rounds * n` calls use every setting exactly `rounds` times |
| `RetrySchedule.RetryTable.HandleHynix` | phy/new_nand.c:382-427 | the setting used and the counter, an unsigned char, moved on; other chips untouched |
| `RetrySchedule.RetryTable.ExitHynix` | phy/new_nand.c:430-445 | leaving a retry clears the counters of all chips |
| `RetrySchedule.RetryTable.HandleWrap` | phy/new_nand.c:615-640 | the setting used and the counter gone round; other chips untouched |
| `RetrySchedule.RetryTable.ExhaustHynix` | phy/chip_operation.c:118-119 | an exhausted 20nm or 1ynm read uses each setting exactly `n` times |
| `RetrySchedule.RetryTable.ExhaustWrap` | phy/new_nand.c:1139-1185 | an exhausted read on a counter that goes round uses each setting once, from any start |
| `SuperBlock.BadBlocks.GetPair` | phy/chip_operation.c:1240-1251 | plane 0's code if bad, else plane 1's |
| `SuperBlock.BadBlocks.IsBad` | phy/chip_operation.c:1210-1284 | good iff every member block on every chip and plane is good; a bad verdict is a member's own code |
| `SuperBlock.BadBlocks.MarkBad` | phy/chip_operation.c:1331-1404 | exactly the members become bad, or nothing changes, by the entry tested before the plane shift |
| `SuperBlock.MarkedExactlyIf` | phy/chip_operation.c:1361-1404 | after the call the superblock is reported bad iff it already was or the marking branch was taken |
| `SuperBlock.OnePlaneAlwaysMarks` | phy/chip_operation.c:1378-1399 | with one plane an allowed call always leaves a bad block |
| `SuperBlock.TwoPlaneMarkCanMiss` | phy/chip_operation.c:1363-1376 | with two planes a good superblock stays good iff its unshifted guard entry is not good |
| `SuperBlock.TwoPlaneMarkMisses` | phy/chip_operation.c:1363-1376 | a table on which the marking call misses its superblock |
| `SuperBlock.MarkSparesOthers` | phy/chip_operation.c:1361-1404 | marking one superblock never changes the verdict on another |
| `Layout.CountBlocks` | dev/phydev.c:1198-1213 | the do-while ends behind the last wanted block that is not factory bad |
| `Layout.SizeByScan` | dev/phydev.c:1256-1315 | the size from the scan, with the start of the scan kept in 32 bits |
| `Layout.PlaceNext` | dev/phydev.c:1136-1320 | offset and size of one device, first, middle or last |
| `Layout.Init` | dev/phydev.c:1042-1330 | the loop over the devices gives the layout `Places`, or fails when a device leaves the chips |
| `Layout.LayoutIsConsecutive` | dev/phydev.c:1218-1330 | devices follow each other inside the chips from the first offset on; the last one ends exactly at the chip end, or has its configured size when it has no partitions |
| `Layout.EnoughGoodBlocks` | dev/phydev.c:1269-1315 | every device but the last, with N whole erase blocks of partitions, holds exactly N + ceil(N/10) + 4 superblocks not reported factory bad in the shortest stretch that has them, and below 4 GiB less than one round more |
| `Layout.FirstOffsetClose` | dev/phydev.c:1195-1217 | the first device starts less than a round behind the reserved region iff the region is shorter than 4 GiB |
| `Layout.WantedIs` | dev/phydev.c:1274-1288 | N + ceil(N/10) + 4, as inequalities |
| `Layout.SizeIsScanIff` | dev/phydev.c:1256-1315 | the size is the scanned stretch rounded up iff the device starts below 4 GiB |
| `Layout.LayoutClearsReserved` | dev/phydev.c:1195-1217 | on one chip the first device starts at or behind the end of the reserved region |
| `Layout.SingleDeviceFails` | dev/phydev.c:1149-1154 | a single device with partitions behind the boot device is laid out iff the reserved region, rounded up, is a whole multiple of 4 GiB, so never when it is shorter |
| `EccFit.Confirm` | phy/hw_controller.c:499-624 | the highest mode of the list whose parity and user bytes fit the per-step spare share, or none iff none fits |
| `EccFit.FitsMeans` | phy/hw_controller.c:514-520 | a mode fits iff the overhead of all units of the page fits the spare area |
| `EccFit.FitsPlainly` | phy/hw_controller.c:514-520 | a mode fits iff parity and user bytes of the whole units of a page fit the spare area together |
| `EccFit.StepsMean` | phy/hw_controller.c:612-616 | the steps are as many codewords of data, parity and user bytes as page and spare area have room for |
| `EccFit.HighestIsStrongest` | dev/amlnf_ctrl.c:13-23 | on the M8 list the highest fitting mode has the most parity |
| `EccFit.StepsCover` | phy/hw_controller.c:612-616 | steps >= units per page, equal iff less than one more codeword is left, and `oob_fill_data` is never negative |
| `EccFit.WholePage` | phy/hw_controller.c:612-616 | a unit that divides the page: the steps hold the page, and exactly the page iff the spare is below one codeword |
| `EccFit.SetUserByte` | phy/hw_controller.c:682-705 | every user byte is in its place in the info buffer, packed or in words, and nothing outside those words changes |
| `EccFit.GetUserByte` | phy/hw_controller.c:660-680 | the user bytes read from their places |
| `EccFit.UserRoundTrip` | phy/hw_controller.c:660-705 | what was set is what is got, in every mode |
| `Partition.InitWindow` | block/aml_nftl_init.c:192-235 | the window holds exactly the sectors of the capacity that lie within the partition's whole sectors; it is refused iff the start is at or behind the capacity |
| `Partition.AddPartitions` | block/aml_nftl_block.c:489-535 | the windows of the partitions up to the first that is refused, by a 64-bit running offset |
| `Partition.WindowsApart` | block/aml_nftl_block.c:489-531 | two windows are in order when the running sum reaches the start of the second without wrapping |
| `Partition.InOrderIff` | block/aml_nftl_block.c:489-531 | all windows are in order, each behind the ones before it, iff the start of the last one is reached without wrapping 64 bits |
| `Partition.WindowInside` | block/aml_nftl_init.c:214-227 | every window is inside the capacity even when the sizes wrap |
| `Partition.AllOnesBeforeLast` | block/aml_nftl_block.c:531-531 | the all-ones size in first place leaves later partitions without a window; anywhere else before the last window it breaks the order |
| `Partition.AllOnesInMiddleOverlaps` | block/aml_nftl_block.c:531-531 | a list of sizes with the all-ones size in the middle: the windows of the last two partitions overlap |
| `Partition.Nftl.WriteRequest` | block/aml_nftl_block.c:177-235 | the segments cover the request once, in order, inside the window; a request in range succeeds iff no call of the layer failed, and one over the end is -EIO; no sector outside the request changes |
| `Partition.Nftl.ReadRequest` | block/aml_nftl_block.c:177-235 | the segments together are the requested sectors, each of its own length; a request in range succeeds iff no call of the layer failed |
| `Partition.Nftl.DiscardRequest` | block/aml_nftl_block.c:201-206 | only sectors of the request are given up, and over the end nothing |
| `Partition.WriteReadAcross` | block/aml_nftl_init.c:247-310 | what was written to one partition is read back through any segments, whatever is written to another; in range and without a failing call both succeed |
| `RequestQueue.StepKeeps` | ntd/aml_ntd_blkdevs.c:130-221 | every step keeps submitted = completed ++ in flight ++ list, and somebody on the way for a waiting request |
| `RequestQueue.RunKeeps` | ntd/aml_ntd_blkdevs.c:130-221 | in every interleaving the completed requests are a prefix of the submitted ones |
| `RequestQueue.QuietIsDone` | ntd/aml_ntd_blkdevs.c:205-221 | every quiet state has completed everything |
| `RequestQueue.AlwaysGoesOn` | ntd/aml_ntd_blkdevs.c:143-180 | unless all is quiet some step can happen |
| `RequestQueue.RunEnds` | ntd/aml_ntd_blkdevs.c:143-180 | once submissions stop, every interleaving rests within a computed number of steps |
| `RequestQueue.RestIsDone` | ntd/aml_ntd_blkdevs.c:143-221 | a run that cannot go on has completed every request in order |
| `RequestQueue.BlkDev.NextRequest` | ntd/aml_ntd_blkdevs.c:130-141 | the first request leaves the list, or the list is empty |
| `RequestQueue.BlkDev.BlktransWork` | ntd/aml_ntd_blkdevs.c:143-170 | the worker loop completes the list and everything that joins meanwhile, first come first served |
| `ChipLock.StepKeeps` | dev/amlnf_ctrl.c:147-259 | every step of every thread keeps the lock invariant |
| `ChipLock.OneUser` | dev/amlnf_ctrl.c:193-259 | at most one thread is between acquire and release, and it owns the mutex |
| `ChipLock.ReleaseUnlocks` | dev/amlnf_ctrl.c:173-186 | a release always unlocks, only the owner does, once per acquisition |
| `ChipLock.NoLostWakeUp` | dev/amlnf_ctrl.c:216-254 | a sleeping waiter always has a chip holder or a waker that has yet to wake the queue |
| `ChipLock.WakeWakesAll` | dev/amlnf_ctrl.c:245-254 | the waking step leaves nobody asleep |
| `ChipLock.NoDeadlock` | dev/amlnf_ctrl.c:147-259 | while a thread is in the protocol some thread in it can take a step |
| `ChipLock.Shared.Step` | dev/amlnf_ctrl.c:147-259 | the shared fields, changed in place, follow the step relation |
| `ChipLock.Shared.Run` | dev/amlnf_ctrl.c:193-259 | whatever the scheduler does, a thread that uses the chip owns the mutex |

## Left out

- StoreRuns.PowerCut: a program or an erase is one step; a page or a block torn in its middle by the power going is not part of a run (`StoreFaults` covers any flash that results).
- StoreChip.Chip.TestBlockReserved: a page whose read-back fails its ECC counts as a page that does not match the pattern.
- StoreChip.Chip.VisitBlock: the number of a spare block that the entry keeps (`free_blk_addr`) is carried along, but nothing in the repository reads it and nothing is said about it.
- StoreChip.Chip.SaveFullPage: after a test of the block in use that was not passed, the pages around the repeated copy are unknown.
- DeviceIo.NandRead: does not model the bit-flip result, the soft-ECC and out-of-band modes, nor serial-chip mode, whose chip number is computed differently by reads and writes.
- ReadRetry.Read: retry limits above 254 (the counter is an unsigned char and the shipped limits are at most 49), and the reset and exit commands sent to the chip around retries.
- ChipOps.Chips.ProgramAll: what a program over a page that was not erased leaves; the hardware does not promise anything about it.
- ChipOps.Chips.WritePage: a status that is neither right nor failed after all polls counts as success in the code; the model's status is pass or fail.
- SuperBlock.BadBlocks.MarkBad: the save of the table and the page of zeros written after marking.
- Layout.Init: devices in SLC mode, and the rule for a chip without the boot device beyond `bootBlocks = 0`.
- Layout.LayoutClearsReserved: one chip only; for several chips the two formulas for the reserved region name different blocks.
- Partition.InOrderIff: capacities below 2^55 sectors; the source counts the sectors of the capacity in 32 bits.
- Partition.Nftl.WriteRequest: segments are whole sectors; `unsigned long` sector numbers do not wrap.
- ChipLock.NoDeadlock: the pin control call always succeeds; suspend, which overwrites the chip state without waiting, is outside the protocol.
- HYNIX_1YNM_8GB placement in the record store: only the collision of its filler pages is stated.
- The shipped bad-block table and the Hynix parameter block, whose blocks are reserved by other code and which are not scanned by name.
- The switches that refuse writes (read-only mode, metadata protection), and marking blocks bad out of a save: `allow_markbad = 0` throughout the store.
- readretry_handle_a19_sandisk: its counter wraps on a limit that the A19 setup never sets.
- The translation layer object, registers, DMA, timing, pin control, character devices, sysfs, registration and allocation failures.
- Repair and debug helpers (`repair_reserved_bad_block`, `blk_modify_bbt_chip_op`, `nand_test_block`), boot copies, chip identification and device-configuration parsing.
