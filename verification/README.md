# Verified models of the boot and recovery firmware

This project models, in Dafny, the parts of the repository where correctness depends on whole runs rather than on single
calls, and proves what those runs guarantee:

- **Firmware update in BL1** (`FwuModel`, `FwuInvariant`, `FwuSteps`, `FwuRuns`, `FwuEffects`,
  `FwuAnswers`, `FwuWitness`, `FwuService`): the six-state image
  machine, the table of loaded images, chunked copies into memory, overlap checks and world switches. Memory contents are
  part of the state, so the main theorem speaks of the very bytes that start executing.
- **Block device I/O** (`BlockIo`): byte-granular reads and writes over a driver that moves whole blocks through a bounded
  bounce buffer and may stop short, shown to refine reading and splicing a byte array.
- **EL3 exception priorities** (`Bitmap`, `Ehf`): the bitmap as a stack, and the conservation of the Non-secure mask.
- **The ldelf loader** (`Segments`, `DepQueue`, `SymbolLookup`): segment merging, the dependency queue that grows while it
  is walked, and hashed symbol lookup across modules.
- **Measured boot** (`EventFormat`, `EventLog`): the writer and the parser of the event log as inverse operations.
- **Authenticated image loading** (`AuthNvCtr`, `LoadAuth`, `ImageLoader`): recursion over the chain of trust, boot source
  retries, and rollback counters.
- **The heartbeat monitor and the delay timer** (`Watchdog`, `DelayTimer`): exact reset conditions over all sequences of
  readings, and delays that are never short despite 32-bit truncation.

Code that updates state in place is modelled by classes with loops and invariants. Each such method is proved against a
function on values, and the theorems over runs are about those functions. A failed C assertion, a panic or an `err` is an
outcome of its own (`Halted`, `Halt`, `None`), and a run is a sequence of calls none of which halts. Platform hooks,
cryptography, image parsing, storage and interrupt-controller reads are arbitrary inputs. Addresses are 64-bit, and every
width that matters is written out with a modulus.

## Results that differ from what the code or its documentation says

- An image of one byte in the loaded table fails an assertion in the overlap check of the next copy, and so does an ID
  that a failed pre-load hook left in the table; one copy from any initial state gets there
  (`FwuRuns.HaltsExactlyWhen`, `FwuWitness.OneByteRunHalts`).
- A normal-world RESUME after the interrupted image was reset halts, as a run of six calls from any initial state shows;
  the documentation promises a refusal (`FwuWitness.ResetThenResumeHalts`). So does a RESET of an EXECUTED image, for
  which arm-trusted-firmware/docs/components/firmware-update.rst:388 promises -EPERM (`FwuWitness.ResetOfExecutedHalts`).
- Deactivating an exception priority programs its whole argument into the mask although only seven bits select the level;
  the mask stays restrictive exactly for arguments below 0x80 (`Ehf.RestrictiveIff`, `Ehf.LaxMaskExample`).
- The length check of a block write leaves out the position. A write whose position and length together fit keeps
  everything outside its region; a successful one that does not fit overwrites what follows, as a write after one open
  and one seek shows (`BlockIo.Region.BlockWrite`, `BlockIo.SpillExample`).
- The assertions of `adjust_segments` do not make merged segments keep their file offsets; that needs neighbours to line
  up (`Segments.OffsetsKeptIff`, `Segments.MisalignedChainExample`).
- The comment above symbol lookup promises global symbols of all modules first, then weak ones, and as the last option
  zero for a weak symbol without a definition. The code settles on the first module with any of the three, so a weak
  symbol hides a later global one, and a weak reference without a definition resolves to zero although a later module
  defines it (`SymbolLookup.DocumentedOrderIff`, `SymbolLookup.WeakShadowsGlobalExample`,
  `SymbolLookup.UndefinedShadowsWeakExample`). The comment also says that only a given module is searched, while the code
  goes on to the queue (`SymbolLookup.PreferredModuleAnswers`).
- `load_image` reports success for an image of size zero and for a short read, with the bytes of the parent certificate
  still in the buffer (`LoadAuth.DeliversIff`, `LoadAuth.StaleCertificateExample`).
- A hash chain that leads back to itself makes a symbol search endless; the loader accepts such a table
  (`SymbolLookup.EndlessIff`, `SymbolLookup.EndlessExample`).
- With a 32-bit `unsigned long` the assertion of `mdelay` wraps like the product it guards, and a request that does not
  fit 32 bits waits for too short a time (`DelayTimer.MillisecondsKeptIff`, `DelayTimer.WrappedDelayExample`).

The memset over the startup locality digest clears as many bytes as the value of the algorithm identifier, not the whole
digest. On the zero-initialised buffer of the firmware the digest is all zeros in every run all the same
(`EventLog.BootRunDumps`); on any other buffer it is exactly when the bytes past the cleared ones were zero
(`EventLog.Writer.Init`).

## Model

| member | source | states |
|---|---|---|
| `FwuRuns.StartedBytesWereAccepted` | arm-trusted-firmware/bl1/bl1_fwu.c:224-546 | in every run without AUTH calls from the secure world, an image that starts executing does so on exactly the bytes last accepted for it, untouched since, which are its memory over its recorded size and a prefix of the blocks offered |
| `FwuRuns.CopiedImagesApart` | arm-trusted-firmware/bl1/bl1_fwu.c:164-340 | in every reachable state, two images that came in through copies and have not been released occupy disjoint ranges, although only the first block is checked |
| `FwuRuns.ChunksMakeTheImage` | arm-trusted-firmware/bl1/bl1_fwu.c:255-361 | for any sequence of blocks, COPYING means strictly between nothing and all, memory holds what was offered cut at the image size, and COPIED is reached exactly at full size |
| `FwuRuns.WorldsAgree` | arm-trusted-firmware/bl1/bl1_fwu.c:503-671 | a secure image is EXECUTED exactly when the secure world runs and it is the last executed ID; whatever secure image has left RESET is in the table |
| `FwuRuns.HaltsExactlyWhen` | arm-trusted-firmware/bl1/bl1_fwu.c:120-745 | for every call in every reachable state, the exact condition on which an assertion or panic ends the run; never in SEC_IMAGE_DONE, nor in RESUME from the secure world, nor in a continued copy |
| `FwuRuns.TrippingSlotBlocksCopies` | arm-trusted-firmware/bl1/bl1_fwu.c:164-219 | a table slot with a one-byte image or an ID in RESET keeps every first copy of another image from succeeding |
| `FwuRuns.ResumeAfterResetHalts` | arm-trusted-firmware/bl1/bl1_fwu.c:552-614 | in any state with an interrupted image, resetting it succeeds and resuming from the normal world then halts |
| `FwuEffects.ClearsExactly` | arm-trusted-firmware/bl1/bl1_fwu.c:446-471 | a failed authentication of a copied image, and a reset, leave zero in every cell of the image (of what was copied), change no other cell, and put the image back in RESET |
| `FwuEffects.RejectedBytesStayCleared` | arm-trusted-firmware/bl1/bl1_fwu.c:446-745 | in every run those cells stay zero until an image is copied there or a secure image runs |
| `FwuEffects.CopyMemory` | arm-trusted-firmware/bl1/bl1_fwu.c:224-362 | a copy moves the cells of the block that the image still needs behind what is there and changes no other; a refused one changes none |
| `FwuEffects.OthersKeepMemory` | arm-trusted-firmware/bl1/bl1_fwu.c:58-112 | no other call changes memory |
| `FwuEffects.CopyEffect` | arm-trusted-firmware/bl1/bl1_fwu.c:224-362 | a copy records the image and lets it grow by the block, COPIED exactly when nothing is missing; a refused one changes nothing but sizes, and with a failed hook the table, of an image that stays in RESET |
| `FwuAnswers.TableIsExact` | arm-trusted-firmware/bl1/bl1_fwu.c:102-158 | in every reachable state the table holds each image that has left RESET once, and one in RESET only after a failed pre-load hook; never the booted image |
| `FwuAnswers.TakesFirstFree` | arm-trusted-firmware/bl1/bl1_fwu.c:120-139 | a new image takes the first free slot |
| `FwuAnswers.CopyAnswers` | arm-trusted-firmware/bl1/bl1_fwu.c:224-362 | exactly which copies succeed, and which are refused with -ENOMEM and which with -EPERM, in terms of ranges, free slots, mapping and hook |
| `FwuAnswers.RefusedSizes` | arm-trusted-firmware/bl1/bl1_fwu.c:284-340 | which sizes a refused first block leaves in the descriptor |
| `FwuAnswers.AuthAnswers` | arm-trusted-firmware/bl1/bl1_fwu.c:367-498 | the same for authentication |
| `FwuAnswers.AuthEffect` | arm-trusted-firmware/bl1/bl1_fwu.c:367-498 | acceptance makes the image AUTHENTICATED; rejection puts it in RESET and takes it out of the table; a refusal changes nothing |
| `FwuAnswers.OthersAnswer` | arm-trusted-firmware/bl1/bl1_fwu.c:503-745 | in every reachable state, exactly what EXECUTE, RESUME, SEC_IMAGE_DONE and RESET answer |
| `FwuAnswers.InterruptionRestores` | arm-trusted-firmware/bl1/bl1_fwu.c:552-614 | in every reachable state with the secure world running, RESUME from it and then from the normal world restores the state exactly and hands both parameters over |
| `FwuAnswers.CopyThenReset` | arm-trusted-firmware/bl1/bl1_fwu.c:224-745 | a first block and a reset leave table and memory as they were, but for the cells of the block, which are zero |
| `FwuAnswers.WholeUpdate` | arm-trusted-firmware/bl1/bl1_fwu.c:224-671 | copy, acceptance, execution and end of an image: it starts on exactly the bytes offered, and afterwards the table is as it was, nothing counts as started and memory differs by those bytes alone |
| `FwuWitness.OneByteRunHalts` | arm-trusted-firmware/bl1/bl1_fwu.c:164-349 | from any initial state, a run of one one-byte copy, or of one whose pre-load hook fails, after which the first copy of any other image halts |
| `FwuWitness.ResetThenResumeHalts` | arm-trusted-firmware/bl1/bl1_fwu.c:224-745 | from any initial state, a run of copy, authentication, execution, interruption and reset, after which RESUME halts |
| `FwuWitness.ResetOfExecutedHalts` | arm-trusted-firmware/bl1/bl1_fwu.c:692-745 | in any initial state the RESET of the booted image halts |
| `FwuRuns.ScanFrom` | arm-trusted-firmware/bl1/bl1_fwu.c:164-219 | the overlap scan fails its own assertions exactly when some slot trips before any overlap is found |
| `FwuRuns.RunInv` | arm-trusted-firmware/bl1/bl1_fwu.c:58-745 | the invariant that ties descriptors, table, world and memory to the history holds after every prefix of every run |
| `FwuInvariant.ScanClear` | arm-trusted-firmware/bl1/bl1_fwu.c:164-219 | a scan that finds nothing means the range meets no other non-empty image in the table |
| `FwuInvariant.AddLoadedKeeps` | arm-trusted-firmware/bl1/bl1_fwu.c:120-139 | recording an ID puts it in the table and loses no other |
| `FwuInvariant.UnloadedKeeps` | arm-trusted-firmware/bl1/bl1_fwu.c:145-158 | removing an ID loses no other |
| `FwuSteps.CopyKeeps` | arm-trusted-firmware/bl1/bl1_fwu.c:224-362 | a copy from the normal world keeps the invariant, the new range being apart from every copied image |
| `FwuSteps.AuthKeeps` | arm-trusted-firmware/bl1/bl1_fwu.c:367-498 | authentication keeps the invariant, on acceptance and on refusal |
| `FwuSteps.ExecuteKeeps` | arm-trusted-firmware/bl1/aarch64/bl1_context_mgmt.c:92-92 | starting an image keeps the invariant |
| `FwuSteps.ResumeKeeps` | arm-trusted-firmware/bl1/bl1_fwu.c:552-614 | a world switch in either direction keeps the invariant |
| `FwuSteps.SecImageDoneKeeps` | arm-trusted-firmware/bl1/bl1_fwu.c:619-671 | the end of a secure image keeps the invariant |
| `FwuSteps.ResetKeeps` | arm-trusted-firmware/bl1/bl1_fwu.c:692-745 | resetting an image keeps the invariant; the bytes it zeroes belong to no other copied image |
| `FwuSteps.StepKeeps` | arm-trusted-firmware/bl1/bl1_fwu.c:58-112 | every call keeps the invariant |
| `FwuService.Service.SmcHandler` | arm-trusted-firmware/bl1/bl1_fwu.c:58-112 | a call that does not halt keeps the invariant of the runs on the object; when it starts an image, that image's memory is what was accepted for it and has not been touched since |
| `FwuService.Service.constructor` | arm-trusted-firmware/bl1/bl1_fwu.c:50-53 | the object starts in an initial state, with the invariant |
| `FwuService.Service.AddLoadedId` | arm-trusted-firmware/bl1/bl1_fwu.c:120-139 | the two loops record the ID in the first free slot unless it is there already, and fail on a full table without changing it |
| `FwuService.Service.RemoveLoadedId` | arm-trusted-firmware/bl1/bl1_fwu.c:145-158 | the loop frees the slot of the ID, or fails without changing the table |
| `FwuService.Service.CheckOverlaps` | arm-trusted-firmware/bl1/bl1_fwu.c:164-219 | the loop returns the verdict of the scan function |
| `FwuService.Service.ImageCopy` | arm-trusted-firmware/bl1/bl1_fwu.c:224-362 | result, descriptors, table and memory are those of the transition function on the old state |
| `FwuService.Service.ImageAuth` | arm-trusted-firmware/bl1/bl1_fwu.c:367-498 | the same for authentication of a copied image or of one in place; a copied image that is rejected is zero afterwards |
| `FwuService.Service.ImageExecute` | arm-trusted-firmware/bl1/bl1_fwu.c:503-546 | the same for the start of a secure image |
| `FwuService.Service.ImageResume` | arm-trusted-firmware/bl1/bl1_fwu.c:552-614 | the same for both world switches |
| `FwuService.Service.SecureImageDone` | arm-trusted-firmware/bl1/bl1_fwu.c:619-671 | the same for the end of a secure image |
| `FwuService.Service.ImageReset` | arm-trusted-firmware/bl1/bl1_fwu.c:692-745 | the same for a reset; what was copied is zero afterwards and the descriptor is clear |
| `BlockIo.Region.BlockWrite` | arm-trusted-firmware/drivers/io/io_block.c:356-492 | for any position, length, buffer size and short transfers: success leaves the old device with exactly the user's bytes over it, an I/O error leaves exactly the part by which the position advanced; it terminates, and does not fail when transfers are full and the device holds the bytes; it keeps everything outside the region if position plus length fits, and otherwise success overwrites what follows |
| `BlockIo.Region.BlockRead` | arm-trusted-firmware/drivers/io/io_block.c:244-348 | the buffer gets exactly the device bytes from the position, all of them on success and as many as the position advanced on an error; it terminates, and does not fail when transfers are full and the device holds the bytes |
| `BlockIo.Region.WriteThenRead` | arm-trusted-firmware/drivers/io/io_block.c:244-492 | what a write stored, a seek back and a read return; both succeed when transfers are full and the device holds the bytes |
| `BlockIo.Region.Open` | arm-trusted-firmware/drivers/io/io_block.c:127-148 | a region opens exactly when offset and length are block multiples |
| `BlockIo.Region.Seek` | arm-trusted-firmware/drivers/io/io_block.c:151-172 | which seeks succeed, where they end, and which fail an assertion |
| `BlockIo.Region.Request` | arm-trusted-firmware/drivers/io/io_block.c:299-316 | every request is a block multiple that fits the buffer and goes past the skip |
| `BlockIo.Region.ReadChunk` | arm-trusted-firmware/drivers/io/io_block.c:282-343 | one turn moves exactly the next device bytes, or none when the driver stopped in the skip |
| `BlockIo.Region.Prepare` | arm-trusted-firmware/drivers/io/io_block.c:412-469 | the bounce buffer holds the device's own bytes in skip and padding and the user's bytes between |
| `BlockIo.Region.WriteChunk` | arm-trusted-firmware/drivers/io/io_block.c:395-487 | one turn changes exactly the next user bytes on the device |
| `BlockIo.BounceWrite` | arm-trusted-firmware/drivers/io/io_block.c:440-487 | writing any leading part of a prepared buffer writes the user bytes it covers and alters nothing else |
| `BlockIo.StaysInRegionIff` | arm-trusted-firmware/drivers/io/io_block.c:384-387 | the splice that a successful write makes stays inside the region for all data exactly when position plus length does |
| `BlockIo.SpillExample` | arm-trusted-firmware/drivers/io/io_block.c:127-492 | an open, a seek and a write that pass every check, succeed, and change the bytes after the region |
| `Ehf.MaskConserved` | arm-trusted-firmware/bl31/ehf.c:99-359 | the Non-secure mask, wherever it is kept, is the same before and after every run that does not panic |
| `Ehf.StepConserves` | arm-trusted-firmware/bl31/ehf.c:99-359 | each of the five operations conserves it |
| `Ehf.BitmapIsStack` | arm-trusted-firmware/bl31/ehf.c:80-218 | every run is a correct use of a stack with push and pop of the last level, and the bitmap is that stack |
| `Ehf.StepIsStack` | arm-trusted-firmware/bl31/ehf.c:99-218 | one call pushes a more urgent level, pops the top, or leaves the stack |
| `Ehf.StackOrdered` | arm-trusted-firmware/bl31/ehf.c:80-87 | the stacked levels strictly gain urgency and fit the bitmap |
| `Ehf.LastDeactivationRestores` | arm-trusted-firmware/bl31/ehf.c:166-218 | emptying the stack brings the saved initial mask back |
| `Ehf.EpisodeRestoresMask` | arm-trusted-firmware/bl31/ehf.c:99-218 | from a first activation to the deactivation that empties the stack the controller's mask comes back to what it was |
| `Ehf.RestrictiveIff` | arm-trusted-firmware/bl31/ehf.c:99-218 | a call leaves the mask as restrictive as the most urgent level exactly when its argument is below 0x80 |
| `Ehf.LaxMaskExample` | arm-trusted-firmware/bl31/ehf.c:166-218 | a run whose last call leaves a lax mask |
| `Ehf.MaskStaysRestrictive` | arm-trusted-firmware/bl31/ehf.c:99-359 | with secure priorities the mask stays restrictive over every run |
| `Ehf.PanicsUnless` | arm-trusted-firmware/bl31/ehf.c:99-218 | exactly which activations and deactivations do not panic, in terms of the stack, and the mask that each programs |
| `Ehf.LevelOf` | arm-trusted-firmware/bl31/ehf.c:53-63 | a priority selects the level whose range of the low seven bits it lies in |
| `Ehf.WorldSwitchMasks` | arm-trusted-firmware/bl31/ehf.c:231-359 | leaving the normal world stashes the mask and programs 0x80, entering it or allowing preemption puts the stashed one back and clears the stash; when they do nothing and when they panic |
| `Ehf.MaskedUntilReturn` | arm-trusted-firmware/bl31/ehf.c:231-313 | from leaving the normal world until it is entered or preemption is allowed, over every run, the mask with no level active is 0x80; entering then does not panic and restores the mask that was left |
| `Bitmap.ClearLowest` | arm-trusted-firmware/bl31/ehf.c:198-199 | x & (x - 1) drops the lowest set bit and nothing else |
| `Bitmap.SetBelow` | arm-trusted-firmware/bl31/ehf.c:132-132 | setting a bit below all others puts one level on top of the stack |
| `Ehf.ExceptionFramework.ActivatePriority` | arm-trusted-firmware/bl31/ehf.c:99-154 | panics exactly when the step function does, and otherwise does what it says; the Non-secure mask is conserved and the level is pushed |
| `Ehf.ExceptionFramework.DeactivatePriority` | arm-trusted-firmware/bl31/ehf.c:166-218 | the same for deactivation, which pops the top level |
| `Ehf.ExceptionFramework.ExitedNormalWorld` | arm-trusted-firmware/bl31/ehf.c:231-261 | the same for leaving the normal world, with the stack as it was; with nothing active the old mask is stashed and 0x80 is in force |
| `Ehf.ExceptionFramework.EnteringNormalWorld` | arm-trusted-firmware/bl31/ehf.c:274-313 | the same for entering it, with the stack as it was; a stashed mask is back in force |
| `Ehf.ExceptionFramework.AllowNsPreemption` | arm-trusted-firmware/bl31/ehf.c:326-359 | the same for allowing preemption, with the stack as it was; the stashed mask is back in force |
| `Segments.AdjustedInv` | optee_os/ldelf/ta_elf.c:573-667 | after any number of segments, the list is page-disjoint and holds each handled segment's bytes, permissions and end |
| `Segments.ResultPageDisjoint` | optee_os/ldelf/ta_elf.c:573-667 | the result is sorted and no page holds bytes of two segments |
| `Segments.BytesInOneSegment` | optee_os/ldelf/ta_elf.c:573-667 | each original byte lies in exactly one result segment, with its permissions included |
| `Segments.OffsetsKeptIff` | optee_os/ldelf/ta_elf.c:573-667 | file offsets are preserved exactly when merged chains line up |
| `Segments.NeighboursLineUp` | optee_os/ldelf/ta_elf.c:573-667 | equal address-to-offset distance of page-sharing neighbours is enough for that |
| `Segments.MisalignedChainExample` | optee_os/ldelf/ta_elf.c:573-667 | two segments that pass every assertion and do not line up |
| `Segments.Adjusted` | optee_os/ldelf/ta_elf.c:573-667 | the last segment keeps the end address of the last original one |
| `Segments.ResultIsChains` | optee_os/ldelf/ta_elf.c:573-667 | there is one result segment for each chain of page-sharing segments: it begins at the page of the first, ends with the last in memory and file, has exactly the permissions of any of them, and is marked exactly when the first has to be mapped again |
| `Segments.RemappedIff` | optee_os/ldelf/ta_elf.c:648-663 | for power-of-two alignments: the loop marks a segment as remapped exactly when it is not the first, its offset is not aligned, and the file page of that offset begins below the file end of the result segment before it |
| `Segments.MarkedIff` | optee_os/ldelf/ta_elf.c:648-663 | the same for any alignment, by the bits of the mask |
| `Segments.AdjustsIff` | optee_os/ldelf/ta_elf.c:602-665 | the merging loop fails no assertion exactly when, among the originals, each page-sharing segment agrees with its offset in the mask and follows one without a zero-filled part, and each that is mapped again is writable |
| `Segments.SegmentList.AddSegment` | optee_os/ldelf/ta_elf.c:486-505 | appends exactly when the memory size is not below the file size |
| `Segments.SegmentList.CheckSanity` | optee_os/ldelf/ta_elf.c:581-600 | the sanity loop accepts exactly the sane lists |
| `Segments.SegmentList.Turn` | optee_os/ldelf/ta_elf.c:607-665 | one turn merges into the previous segment or aligns, as the step function says |
| `Segments.SegmentList.AdjustSegments` | optee_os/ldelf/ta_elf.c:573-667 | the in-place loop fails exactly when the function does and otherwise leaves its result; it terminates |
| `DepQueue.MainQueueIsClosure` | optee_os/ldelf/main.c:146-157 | the queue is the duplicate-free closure of the main binary under DT_NEEDED, in order of first mention |
| `DepQueue.MainQueueIsBreadthFirst` | optee_os/ldelf/main.c:146-157 | no member stands behind one that is nearer to the main binary |
| `DepQueue.MainQueueInOrder` | optee_os/ldelf/main.c:146-157 | members come in the order of their first mention in the DT_NEEDED lists, taken in queue order |
| `DepQueue.MainLoadsIff` | optee_os/ldelf/main.c:146-157 | the load succeeds exactly when everything reachable can be loaded |
| `DepQueue.LibraryQueueIsClosed` | optee_os/ldelf/ta_elf.c:1534-1554 | adding a library extends a closed queue to a closed queue by exactly what it reaches and the queue lacked |
| `DepQueue.LibraryLoadsIff` | optee_os/ldelf/ta_elf.c:1534-1554 | it succeeds exactly when everything new that it reaches can be loaded |
| `DepQueue.QueueIsClosure` | optee_os/ldelf/ta_elf.c:982-1026 | a finished walk holds exactly what its first member reaches |
| `DepQueue.WalkCloses` | optee_os/ldelf/ta_elf.c:982-1026 | a finished walk leaves the whole queue closed |
| `DepQueue.AddAllInOrder` | optee_os/ldelf/ta_elf.c:982-1026 | what a module adds to the queue comes in the order in which it is first mentioned |
| `DepQueue.Loader.FindElf` | optee_os/ldelf/ta_elf.c:90-99 | finds a UUID exactly when it is queued |
| `DepQueue.Loader.QueueElf` | optee_os/ldelf/ta_elf.c:62-88 | appends a UUID unless it is queued |
| `DepQueue.Loader.AddDependencies` | optee_os/ldelf/ta_elf.c:982-1026 | appends what is needed and not queued, in order |
| `DepQueue.Loader.LoadDependency` | optee_os/ldelf/ta_elf.c:1251-1272 | loads a member and queues its needs, or fails exactly when its binary is missing or of the wrong width |
| `DepQueue.Loader.LoadFrom` | optee_os/ldelf/main.c:146-157 | the loop over the growing queue terminates and loads every member |
| `DepQueue.Loader.LoadMain` | optee_os/ldelf/ta_elf.c:1203-1228 | main binary and dependencies: the queue of the specification, all loaded |
| `DepQueue.Loader.AddLibrary` | optee_os/ldelf/ta_elf.c:1534-1554 | a library and its dependencies: the queue of the specification, all loaded |
| `SymbolLookup.HashBelow` | optee_os/ldelf/ta_elf_rel.c:19-33 | the hash stays below 2^28 whatever wraps on the way |
| `SymbolLookup.ElfHash` | optee_os/ldelf/ta_elf_rel.c:19-33 | the loop computes the hash of the name |
| `SymbolLookup.HashBits` | optee_os/ldelf/ta_elf_rel.c:19-33 | one character, bit by bit of the 32-bit sum: the top four bits are cleared and go into bits 4 to 7 by exclusive or, every other bit stays |
| `SymbolLookup.HashFindsIff` | optee_os/ldelf/ta_elf_rel.c:81-143 | on a table whose chains end and hold every symbol, whatever its type, binding and value, hash lookup returns, comes up empty exactly when a linear scan does, and otherwise each gives the answer of some symbol |
| `SymbolLookup.HashAgreesWithScan` | optee_os/ldelf/ta_elf_rel.c:81-143 | where the symbols that answer agree, both give the same |
| `SymbolLookup.EndlessIff` | optee_os/ldelf/ta_elf_rel.c:81-143 | on any table a search does not return exactly when its chain comes back to an index before anything ends it, which as many steps as there are entries decide |
| `SymbolLookup.EndlessExample` | optee_os/ldelf/ta_elf_rel.c:81-143 | a table on which a search does not return |
| `SymbolLookup.SearchStops` | optee_os/ldelf/ta_elf_rel.c:81-143 | on any table, a search that returns answers at the first index that ends it: with nothing at zero, with an error outside the table, else with what that symbol gives |
| `SymbolLookup.SymbolAnswer` | optee_os/ldelf/ta_elf_rel.c:35-79 | by the fields of a symbol: when it is passed over, when it gives zero, its value, or its value from the load address, and when it is an error |
| `SymbolLookup.ModuleAnswer` | optee_os/ldelf/ta_elf_rel.c:145-185 | a module answers with a global symbol if it has one, else with a weak one |
| `SymbolLookup.FirstModuleAnswers` | optee_os/ldelf/ta_elf_rel.c:145-185 | the answer comes from the first module in queue order with a match; there is none exactly when no module has one |
| `SymbolLookup.PreferredModuleAnswers` | optee_os/ldelf/ta_elf_rel.c:145-185 | a given module with a match answers; without one the whole queue is searched |
| `SymbolLookup.ResolvedValue` | optee_os/ldelf/ta_elf_rel.c:145-185 | the value that resolution gives, by the fields of the answering symbol and the load address of its module |
| `SymbolLookup.DocumentedOrderIff` | optee_os/ldelf/ta_elf_rel.c:145-185 | the symbol the code resolves to is one that the comment's three tiers ask for exactly when the first module with a match has a global symbol, or no module has and either the weak symbol that answers has a definition or no weak one anywhere has |
| `SymbolLookup.DocumentedOrderOfKinds` | optee_os/ldelf/ta_elf_rel.c:145-185 | the same in terms of the symbol tables alone, where the weak symbols of that module are of one kind |
| `SymbolLookup.WeakShadowsGlobalExample` | optee_os/ldelf/ta_elf_rel.c:145-185 | two modules for which it is not: a weak symbol before a global one |
| `SymbolLookup.UndefinedShadowsWeakExample` | optee_os/ldelf/ta_elf_rel.c:145-185 | two more: a weak symbol without a definition resolves to zero before one with a definition |
| `SymbolLookup.ResolveSymHelper` | optee_os/ldelf/ta_elf_rel.c:35-143 | on every table on which the walk ends, it returns what the search function defines |
| `SymbolLookup.ResolveSym` | optee_os/ldelf/ta_elf_rel.c:145-185 | on every queue on which the searches end, the loop returns what the resolution function defines |
| `EventFormat.LogRoundTrip` | arm-trusted-firmware/drivers/measured_boot/event_print.c:253-265 | parsing an encoded log gives back its ID event and its events in order, to the last byte |
| `EventFormat.ParsesIff` | arm-trusted-firmware/drivers/measured_boot/event_print.c:253-265 | the dump gets through exactly the bytes that encode a log, and reads out what they encode |
| `EventFormat.Event2RoundTrip` | arm-trusted-firmware/drivers/measured_boot/event_print.c:151-244 | parsing an encoded event gives it back and leaves what follows |
| `EventFormat.IdRoundTrip` | arm-trusted-firmware/drivers/measured_boot/event_print.c:21-143 | the same for the ID event |
| `EventLog.LogParsesBack` | arm-trusted-firmware/drivers/measured_boot/event_log.c:116-186 | for every sequence of measurements, parsing the log gives the events it started with and then exactly those that fitted, with PCR, digest and name |
| `EventLog.LogOnlyGrows` | arm-trusted-firmware/drivers/measured_boot/event_log.c:116-186 | the log only grows at its end and never past the buffer, and refused measurements leave every byte |
| `EventLog.LogThenEvent` | arm-trusted-firmware/drivers/measured_boot/event_log.c:116-186 | appending an event's bytes gives the log of one more event |
| `EventLog.EventLayout` | arm-trusted-firmware/drivers/measured_boot/event_log.c:116-186 | the bytes of an event: PCR, type 1, count 1, algorithm, digest, size and zero-terminated name, each at its offset and little-endian |
| `EventLog.IdLayout` | arm-trusted-firmware/drivers/measured_boot/event_log.c:38-58 | the 65 bytes of the ID event |
| `EventLog.LocalityLayout` | arm-trusted-firmware/drivers/measured_boot/event_log.c:60-81 | the bytes of the locality event around its digest |
| `EventLog.AddedIff` | arm-trusted-firmware/drivers/measured_boot/event_log.c:116-186 | a measurement is added exactly when its bytes leave one byte of the buffer free |
| `EventLog.Writer.AddEvent2` | arm-trusted-firmware/drivers/measured_boot/event_log.c:116-186 | an event that fits is appended to the buffer, one that does not leaves everything as it was |
| `EventLog.Writer.Init` | arm-trusted-firmware/drivers/measured_boot/event_log.c:194-275 | the log starts with ID event, locality event and BL2 event, and initialisation panics exactly when the last does not fit; the locality digest is all zeros exactly when the buffer was zero past the cleared bytes |
| `EventLog.Writer.RecordMeasurement` | arm-trusted-firmware/drivers/measured_boot/event_log.c:288-320 | each of the five outcomes and when it comes, and the log after it |
| `EventLog.Writer.Dump` | arm-trusted-firmware/drivers/measured_boot/event_print.c:253-265 | dumping what was written gives back every event and fails no assertion |
| `EventLog.BootRunDumps` | arm-trusted-firmware/drivers/measured_boot/event_log.c:116-275 | every run from a buffer in any state dumps as ID, locality and BL2 event and then exactly what fitted; from the zero-initialised buffer the locality digest is all zeros |
| `EventLog.ReadDigests` | arm-trusted-firmware/drivers/measured_boot/event_print.c:175-218 | the digest loop reads what the parser function defines, or fails where it does |
| `EventLog.ReadEvent2` | arm-trusted-firmware/drivers/measured_boot/event_print.c:151-244 | the same for an event, and the cursor advances |
| `EventLog.ReadId` | arm-trusted-firmware/drivers/measured_boot/event_print.c:21-143 | the same for the ID event |
| `EventLog.DumpEventLog` | arm-trusted-firmware/drivers/measured_boot/event_print.c:253-265 | the dump loop is the parser function, and terminates |
| `LoadAuth.AuthenticatedClosed` | arm-trusted-firmware/drivers/auth/auth_mod.c:301-421 | in every run the authenticated images are closed under parent, each marked on bytes that pass every check of its descriptor with no counter above the platform's |
| `LoadAuth.CountersNeverFall` | arm-trusted-firmware/drivers/auth/auth_mod.c:230-287 | over every run no counter goes down and no mark is taken back |
| `LoadAuth.ParametersFromChecked` | arm-trusted-firmware/drivers/auth/auth_mod.c:392-415 | in every run the parameter slots hold their first contents overlaid by parameters that were each taken from bytes that pass every check of their image, and every image was checked against such slots |
| `LoadAuth.SlotByteOrigin` | arm-trusted-firmware/drivers/auth/auth_mod.c:392-415 | each byte of a slot is the one it held at the start or comes from an image that passed every check |
| `LoadAuth.ParametersKept` | arm-trusted-firmware/drivers/auth/auth_mod.c:392-420 | an accepted image is marked and leaves every parameter its descriptor lists at the start of its slot |
| `LoadAuth.SlotByteAfter` | arm-trusted-firmware/drivers/auth/auth_mod.c:392-415 | byte by byte: the last parameter that reaches a byte of a slot gives it, and a byte that none reaches stays |
| `LoadAuth.RestUntouched` | arm-trusted-firmware/drivers/auth/auth_mod.c:345-421 | slots that are not listed stay as they were, and an image that is refused is not marked |
| `LoadAuth.ChildSeesParent` | arm-trusted-firmware/common/bl_common.c:170-216 | a child whose parent is authenticated on the way is checked against slots that hold the parameters of that parent |
| `LoadAuth.LoadsIff` | arm-trusted-firmware/common/bl_common.c:70-144 | exactly which loads succeed |
| `LoadAuth.LoadOneIff` | arm-trusted-firmware/common/bl_common.c:170-216 | an image succeeds exactly when it loads and is accepted, and how it fails otherwise |
| `LoadAuth.ChainIsInTurn` | arm-trusted-firmware/common/bl_common.c:170-216 | the recursion loads exactly the ancestors that are not authenticated yet, outermost first and each once, then the image, and stops at the first failure |
| `LoadAuth.PathIsAncestors` | arm-trusted-firmware/drivers/auth/auth_mod.c:301-325 | that list goes from parent to child, from the root or the child of an authenticated image, through images that are not authenticated |
| `LoadAuth.FirstSourceThatWorks` | arm-trusted-firmware/common/bl_common.c:238-247 | a call ends with the first boot source that works, or with the last |
| `LoadAuth.LoadAuthKeeps` | arm-trusted-firmware/common/bl_common.c:170-247 | a call keeps the invariant; success leaves the verified bytes of this image in the buffer, a refusal leaves zeros over the image size |
| `LoadAuth.ChainKeeps` | arm-trusted-firmware/common/bl_common.c:170-216 | the same for one pass over the chain of trust, which terminates when the chain has no cycle |
| `LoadAuth.VerifyAcceptsIff` | arm-trusted-firmware/drivers/auth/auth_mod.c:345-421 | with working counters an image is accepted exactly when it is intact, every method passes, counters come in order and every parameter fits |
| `LoadAuth.CounterFollows` | arm-trusted-firmware/drivers/auth/auth_mod.c:230-287 | exactly which counters are accepted; after acceptance the platform counter is the certificate's value and the others are as they were; a refusal leaves all |
| `LoadAuth.OwnBytes` | arm-trusted-firmware/common/bl_common.c:170-216 | if storage delivers the image completely, success leaves its bytes and not those of a parent |
| `LoadAuth.DeliversIff` | arm-trusted-firmware/common/bl_common.c:70-144 | a successful load is sure to have delivered the image exactly when storage gives all of a non-empty one |
| `LoadAuth.StaleCertificateExample` | arm-trusted-firmware/common/bl_common.c:103-109 | an image of size zero for which the parent certificate is verified and left in the buffer |
| `ImageLoader.Loader.AuthNvCtr` | arm-trusted-firmware/drivers/auth/auth_mod.c:230-287 | counter and result are those of the counter function |
| `ImageLoader.Loader.CheckMethods` | arm-trusted-firmware/drivers/auth/auth_mod.c:362-390 | the loop over the methods does what the function says and stops at the first refusal |
| `ImageLoader.Loader.KeepParams` | arm-trusted-firmware/drivers/auth/auth_mod.c:392-415 | the loop over the parameters does what the function says |
| `ImageLoader.Loader.VerifyImg` | arm-trusted-firmware/drivers/auth/auth_mod.c:345-421 | flags, parameters, counters and result are those of the verification function |
| `ImageLoader.Loader.LoadImage` | arm-trusted-firmware/common/bl_common.c:70-144 | buffer, size and result are those of the load function |
| `ImageLoader.Loader.LoadAuthRecursive` | arm-trusted-firmware/common/bl_common.c:170-216 | the recursion does what the chain function says, and terminates |
| `ImageLoader.Loader.TrySources` | arm-trusted-firmware/common/bl_common.c:238-247 | the retry loop does what the function over the boot sources says |
| `ImageLoader.Loader.LoadAuthImage` | arm-trusted-firmware/common/bl_common.c:219-247 | a call leaves what every call promises, and the marked images closed under parent |
| `AuthNvCtr.DecodesIff` | arm-trusted-firmware/drivers/auth/auth_mod.c:246-271 | the DER encoding of a number decodes to it exactly when it is below 2^31, and is refused otherwise |
| `AuthNvCtr.DerOctets` | arm-trusted-firmware/drivers/auth/auth_mod.c:246-271 | exactly which bytes are accepted, and the value for each length |
| `AuthNvCtr.DerValue` | arm-trusted-firmware/drivers/auth/auth_mod.c:246-271 | an accepted counter is below 2^31 |
| `AuthNvCtr.DecodeCounter` | arm-trusted-firmware/drivers/auth/auth_mod.c:246-271 | the loop of 32-bit shifts computes the big-endian value without losing a bit |
| `Watchdog.ResetsIff` | pmufw/swdt_monitor.c:94-127 | for every sequence of readings, a callback resets exactly when the nine latest since the last reset are equal and the monitor was armed no later than the first of them |
| `Watchdog.LiveHeartbeatNeverResets` | pmufw/swdt_monitor.c:94-127 | a 32-bit counter that advances by 1 to 2^32 - 1 over every eight polls never causes a reset |
| `Watchdog.FrozenHeartbeatResets` | pmufw/swdt_monitor.c:94-127 | nine equal readings that are not zero bring a reset at one of them |
| `Watchdog.QuietAfterReset` | pmufw/swdt_monitor.c:76-91 | after a reset the next needs nine equal readings and one that is not zero no later than the first of them |
| `Watchdog.SwdtMonitor.TriggerReset` | pmufw/swdt_monitor.c:59-91 | the recovery steps in order, the monitor cleared, the heartbeat register zero |
| `Watchdog.SwdtMonitor.Callback` | pmufw/swdt_monitor.c:94-127 | the recovery runs exactly when the readings call for a reset; state and beacons after it |
| `Watchdog.SwdtMonitor.constructor` | pmufw/swdt_monitor.c:130-143 | the monitor starts clear |
| `DelayTimer.NeverEarly` | arm-trusted-firmware/drivers/delay_timer/delay_timer.c:37-57 | in real time, a delay that has ended was not shorter than asked for, however far apart the polls |
| `DelayTimer.NeverLate` | arm-trusted-firmware/drivers/delay_timer/delay_timer.c:37-57 | in real time, a delay that ends within the slack is over the request by less than 1002 ticks |
| `DelayTimer.OneTickMore` | arm-trusted-firmware/drivers/delay_timer/delay_timer.c:33-40 | the total is one more than the least number of ticks that covers the request |
| `DelayTimer.NeverFewerTicks` | arm-trusted-firmware/drivers/delay_timer/delay_timer.c:49-57 | whenever the loop ends, the ticks have passed |
| `DelayTimer.DeltaIsElapsed` | arm-trusted-firmware/drivers/delay_timer/generic_delay_timer.c:21-30 | the difference of two truncated down-counter values is the elapsed ticks modulo 2^32 |
| `DelayTimer.NoOverflow` | arm-trusted-firmware/drivers/delay_timer/delay_timer.c:33-40 | the 64-bit computation cannot overflow and its assertion holds |
| `DelayTimer.DivRoundUpLeast` | arm-trusted-firmware/include/lib/utils_def.h:62-65 | the macro gives the least whole number not below the quotient |
| `DelayTimer.ReduceKeepsDelta` | arm-trusted-firmware/drivers/delay_timer/generic_delay_timer.c:54-58 | one division by ten leaves the delay of every request as it was |
| `DelayTimer.Ratio` | arm-trusted-firmware/drivers/delay_timer/generic_delay_timer.c:48-58 | the loop keeps the ratio and every delay, and leaves no common factor of ten |
| `DelayTimer.ComputeTotal` | arm-trusted-firmware/drivers/delay_timer/delay_timer.c:33-40 | the 64-bit computation gives the mathematical total |
| `DelayTimer.Wait` | arm-trusted-firmware/drivers/delay_timer/delay_timer.c:49-57 | with polls at most 1000 ticks apart the loop ends at the first poll after the delay, less than 1000 ticks late |
| `DelayTimer.Driver.Init` | arm-trusted-firmware/drivers/delay_timer/generic_delay_timer.c:44-61 | set up exactly for a frequency that is not zero, with the ratio of one million to it |
| `DelayTimer.Driver.UDelay` | arm-trusted-firmware/drivers/delay_timer/delay_timer.c:23-58 | which requests fail an assertion, and that the others end at the first poll after the delay and within one turn of the counter |
| `DelayTimer.Driver.MDelay` | arm-trusted-firmware/drivers/delay_timer/delay_timer.c:64-68 | the same for the microseconds that the 32-bit product asks for, with the requests that fail the assertion for either width of `unsigned long`; the delay covers the milliseconds with 64 bits, and with 32 when they fit |
| `DelayTimer.MillisecondsKeptIff` | arm-trusted-firmware/drivers/delay_timer/delay_timer.c:64-68 | the microseconds asked for are all of the milliseconds exactly when they fit 32 bits, which the assertion ensures with 64 |
| `DelayTimer.WrappedDelayExample` | arm-trusted-firmware/drivers/delay_timer/delay_timer.c:64-68 | a request that passes the 32-bit assertion and waits for 704 microseconds |

## Left out

- FwuRuns.StartedBytesWereAccepted: what the running worlds write between calls is limited by an assumption (`FwuModel.MayWrite`): the normal world does not reach secure image memory, and a running secure image leaves other loaded images alone.
- FwuRuns.StartedBytesWereAccepted: covers runs without AUTH calls from the secure world; after such a call an image is authenticated in place and the bytes at its base are not those verified.
- FwuService.Service.ImageCopy: whether the source is mapped and whether the pre-load hook succeeds are inputs of the call; cache maintenance is not modelled.
- FwuService.Service.ImageReset: the authentication flag of the image, which RESET clears as well, belongs to the authentication module and is not part of this state.
- BlockIo.Region.BlockRead: masks are modelled as remainders, which is the same for the power-of-two block sizes the driver asks for; block numbers are assumed to fit an int.
- BlockIo: opening and closing devices and the pool of device states would only add bookkeeping.
- Ehf: interrupt dispatch to registered handlers and the start-up checks of the priority table are not modelled.
- Segments.RemappedIff: is stated for the power-of-two alignments that the format prescribes; `Segments.MarkedIff` covers the rest.
- Segments: mapping the adjusted segments, and the copy of remapped ones, are not modelled.
- SymbolLookup.ResolveSymHelper: is stated for the searches that return; `SymbolLookup.EndlessIff` says which do not.
- SymbolLookup.HashAgreesWithScan: where symbols of one module with one name have different values, hash and scan may pick different ones; both then satisfy `SymbolLookup.HashFindsIff`.
- DepQueue and SymbolLookup: parsing of ELF headers and dynamic sections, relocation and thread-local storage are not modelled.
- EventLog.Writer.RecordMeasurement: the hash is an input, and the addresses of the configuration images it remembers are not modelled.
- EventLog: finalisation into device trees is not modelled; the structures are packed and there is one hash algorithm.
- ImageLoader.Loader.AuthNvCtr: plain `char` is unsigned, as on Arm; the six bytes the decoder looks at are taken to be readable.
- LoadAuth: hash and signature checks and the image parsers are arbitrary functions of the bytes; the build without authentication is a plain load.
- LoadAuth.VerifyAcceptsIff: is stated for counters that can be accessed; a failing access refuses the image.
- Watchdog.SwdtMonitor.constructor: a scheduler that cannot create the module leaves the monitor without callbacks, which is not modelled.
- DelayTimer.Wait: that polls are at most 1000 ticks apart, and that time passes, are assumptions; without them only `DelayTimer.NeverEarly` holds.
