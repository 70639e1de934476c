# Delta: guest memory tracking and storage, modelled in Dafny

Delta emulates PS4 and PS5 titles. This project models the parts of it whose correctness
spans several operations, threads or layers, and proves what those parts promise:

- **the guest write tracker** (`RunMaps`, `ArmedRuns`, `WriteProtocol`, `WriteInvariant`,
  `WriteAlways`, `WriteTheorems`, `WriteRuns`, `WriteExact`, `WriteFindings`, `WriteCalls`): pages are
  write-protected, a write faults, opens the page and queues it for the owner thread. The protocol is a transition system whose steps are the
  single atomic actions of the source; the theorems are about every interleaving of one owner
  with any number of faulting threads. The interval maps beside it are imperative code.
- **the virtual memory map** (`VmMaps`): an unordered list of mappings, edited in place, that
  behaves like a partial function from addresses to attributes.
- **streamed RAR entries** (`RarRing`, `RarProtocol`, `RarTheorems`, `RarOutcomes`, `RarCache`): a ring
  buffer between a decoder thread and its readers, and a cache of four sessions that any number of
  readers share, recheck and fall back from.
- **save storage** (`SaveQuota`, `SaveQuotaTheorems`, `SaveFiles`, `SaveCopies`): a block quota
  over file identities, and backup, restore and delete built from renames.
- **random-access readers** that have to agree with a flat decode: ZIP cursors (`ZipDecoding`,
  `ZipCursors`, `ZipLayout`), the package read chain (`XtsTweaks`, `XtsSectors`, `PkgSources`), UFS2
  inodes (`Ufs2`, `Ufs2Layout`), the archive's cache of decoded entries (`ArchiveCache`) and of its index (`IndexCache`).
- **two fast indexes**: the dirty-block counters (`PageTable`) and the handle table
  (`ObjectTable`).

`Basics`, `Modular` and `LittleEndian` hold small shared notions. `dafny verify dfyconfig.toml` checks everything.

Where the source changes things in place the model is a class or a loop, proved against a
function or relation on values; protocols between threads are state machines over values.

## Where the code does not keep what it says

These properties are stated by the code's own comments and are not true of it. The code is
modelled as it is. Each has a lemma or method with a concrete case, and a theorem that says
exactly when the property holds.

- *A host write can open a re-armed page.* `OnHostWrite` queues a page before its batched
  `mprotect`. If the owner collects and re-arms the page in between, the late `mprotect` opens a
  protected page, and a later store is never reported (`HostWriteLosesStore`). *An allocation
  failure inside `ArmFault`* leaves pages marked as protected that were never protected; `AllArmed`
  then answers true for them (`FailedArmLosesStore`). The guard `PageSafe` excludes marking a page
  that a host write has yet to open, and giving up while a marked page is writable. It is exact:
  a step keeps the protection if and only if it obeys the guard (`GuardExact`), and wherever a run
  takes a step that does not, it can go on to a store that is lost (`UnsafeStepLoses`).
- *The queue can fill* although at most half of it is armed at once: `DisarmFault` takes a written
  page out of the byte count while its entry stays in the queue, so arming, writing and releasing
  pages without collecting overruns it (`DisarmOverrunsQueue`). The guard `QueueSafe` asks that the
  queue is not full at a claim. It is exact: a claim lands on an empty slot nobody else fills if
  and only if it holds (`ClaimExact`, `QueueExact`), and the first claim of a full queue can go on to a
  page that is never reported and never armed again (`FullClaimDrops`, `DroppedForever`). Runs
  without `DisarmFault` in which `ArmFault` does not give up half-way obey it by themselves
  (`DisarmFreeIsSafe`).
- *A late fault can leave a page open in the tracker and read-only on the host* until it is armed
  or disarmed again; every store to it faults for ever (`LateFaultSticks`, `StuckForever`). This
  happens exactly through an exchange of a page that `ArmFault` has marked and not yet protected:
  without one no page sticks (`NoPageSticks`), and every such exchange can go on to a stuck page
  (`LateExchangeSticks`). No write is lost by it.
- *`ProtectRange` changes whole mappings*, also outside the range it is given
  (`ProtectReachesOut`); `ProtectConfined` says exactly when it does not.
- *The size clamp in `Limit`* grants one block too much exactly to a file of 2^48 - 1 blocks with
  nothing free (`LimitExact`, `ClampExceedsQuota`): in a state some operation passes the quota that
  way if and only if there is such a file (`ClampExact`). *A `Replace` that fails half-way* passes it
  when something keeps its temporary name alive (`FailedReplaceExceedsQuota`) exactly if it leaves
  more there than the file had and the save has free (`FailedReplaceExact`); otherwise it never does
  (`FailedReplaceBound`). Away from these two cases the quota holds over every run (`QuotaHolds`).
- *`RemoveDirect` never removes a mapping whose physical range reaches 2^64* (`WrappedStays`); no
  alias is left if and only if no such mapping has an image in the range (`RemovedExact`).
- *The end-of-member check of ZIP* makes one call of the decompressor with room for one byte. It
  lets a stream pass that is one byte longer than the index says (`ExtraByteAccepted`), and refuses
  a correct member whose stream ends more than one 256 KiB buffer after its last byte
  (`LateEndRefused`). `CheckEnd` gives the exact condition on the cursor. For members that are as
  the index says, `EndsSoon` is the condition on the member: with it every read up to the end
  succeeds after every history; without it a read of the whole member, of at most 1 GiB and with all
  cursors closed, fails (`ExtractRange`).
- *A compressed package block that does not decompress to full size* is filled up with what the
  block before it left in the buffer (`CorruptBlockReadsStale`); reads agree with one image exactly
  when that is zero (`ReadsAgreeIffTame`).
- *2^16 dirty ranges on one block* read as none (`WrapHidesRanges`); `IsClear` gives the exact
  answer and when it is right.

## Model

| member | source | states |
|---|---|---|
| `RunMaps.RunMap.InsertRun` | delta/gpu/write_tracker.cc:58-73 | on sorted, non-adjacent runs: the result covers exactly the union, stays canonical, and the returned number is exactly the bytes newly covered |
| `RunMaps.RunMap.EraseRun` | delta/gpu/write_tracker.cc:76-95 | the result covers exactly the difference, stays canonical, and the returned number is exactly the bytes removed |
| `RunMaps.RunMap.Gaps` | delta/gpu/write_tracker.cc:98-114 | the returned runs are canonical and cover exactly the addresses of the range no run covers |
| `RunMaps.TakenRanges` | delta/gpu/write_tracker.cc:332-347 | the ranges reported for the pages taken from the queue cover exactly those pages, are sorted and leave gaps |
| `RunMaps.TotalIsCardinality` | delta/gpu/write_tracker.cc:57-95 | the byte total of canonical runs is the number of addresses they cover |
| `ArmedRuns.Armed.Insert` | delta/gpu/write_tracker.cc:300-301 | arming keeps the byte count equal to the total of the run map, which becomes the union |
| `ArmedRuns.Armed.Erase` | delta/gpu/write_tracker.cc:314-315 | disarming keeps the byte count equal to the total of the run map, which becomes the difference; no underflow |
| `ArmedRuns.Armed.EraseAll` | delta/gpu/write_tracker.cc:345-346 | collecting range after range keeps the count exact and removes exactly the union of the ranges |
| `ArmedRuns.Armed.InsertGaps` | delta/gpu/write_tracker.cc:430-440 | inserting only the gaps makes the whole range armed and keeps the count exact |
| `ArmedRuns.Armed.CountsAddresses` | delta/gpu/write_tracker.cc:261-262 | the count the capacity check reads is the number of armed addresses |
| `WriteAlways.AlwaysStep` | delta/gpu/write_tracker.cc:117-348 | every atomic step of owner, faulting thread or host write, whatever the environment does, keeps the states well-formed and at most one report of a page under way, only while it is queued |
| `WriteAlways.OneReportAtMost` | delta/gpu/write_tracker.cc:117-121 | in every run no page is in the queue twice, and a protected page has no report under way |
| `WriteTheorems.GuardExact` | delta/gpu/write_tracker.cc:142-315 | a step keeps every protected page read-only or in the batch about to be protected, and every tracked page protected or queued, if and only if it obeys PageSafe |
| `WriteTheorems.QueueExact` | delta/gpu/write_tracker.cc:133-136 | a step keeps every queued page with exactly one keeper and every slot in step with the position claimed, if and only if it obeys QueueSafe |
| `WriteTheorems.ClaimExact` | delta/gpu/write_tracker.cc:133-136 | a claim lands on an empty slot that nobody else is about to fill if and only if the queue is not full |
| `WriteTheorems.GuardedRun` | delta/gpu/write_tracker.cc:142-315 | the protection holds after every interleaving that obeys PageSafe |
| `WriteTheorems.AccountedRun` | delta/gpu/write_tracker.cc:117-348 | the queue is in order after every interleaving that obeys QueueSafe |
| `WriteTheorems.ProtectedIsReadOnly` | delta/gpu/write_tracker.cc:256-302 | in every state reached under PageSafe a protected page whose arming has finished is read-only on the host, and every read-only page is one the handler recognises |
| `WriteTheorems.NoLostWrite` | delta/gpu/write_tracker.cc:142-159 | in every state reached under PageSafe and QueueSafe a page written since Arm returned true is in a queue slot, in the owner's list, in a pending note, or held by a thread about to enqueue it |
| `WriteCalls.ArmRefusesQueued` | delta/gpu/write_tracker.cc:264-269 | an ArmFault that begins while the last write of a page of its range is not collected marks, arms and confirms nothing, in every run |
| `WriteCalls.ConfirmedMeans` | delta/gpu/write_tracker.cc:256-302 | whatever happens in between, an ArmFault or AllArmed that returns true confirms exactly its range, of which no page was queued when the call began and every page is protected or was exchanged since |
| `WriteCalls.CallsEnd` | delta/gpu/write_tracker.cc:256-348 | every step of an owner call brings its end closer; only a claimed queue position that is not filled yet can hold it up |
| `WriteCalls.ThreadsEnd` | delta/gpu/write_tracker.cc:142-188 | every step of a faulting thread or host write is possible and brings the end of its call closer |
| `WriteCalls.HostWriteExchanges` | delta/gpu/write_tracker.cc:162-188 | whatever happens in between, a host write that returns has taken every page of its range out of protection, unless ArmFault has marked it again meanwhile |
| `WriteTheorems.QueueSafety` | delta/gpu/write_tracker.cc:121-136 | in every state reached under QueueSafe a thread that fills its claimed slot finds it empty, and the owner reads the page each position was claimed for |
| `WriteTheorems.DisarmFreeIsSafe` | delta/gpu/write_tracker.cc:121-123 | in every run without DisarmFault in which ArmFault does not give up half-way, protected and queued pages together stay below half the queue, and every step obeys QueueSafe |
| `WriteTheorems.RoomToClaim` | delta/gpu/write_tracker.cc:261-262 | with at most half the queue in pages disarmed before they were collected, a claim never finds it full |
| `WriteExact.UnsafeStepLoses` | delta/gpu/write_tracker.cc:162-302 | wherever a run takes a step that breaks PageSafe, it can go on to a protected page that was stored to and that nothing will report |
| `WriteExact.FullClaimDrops` | delta/gpu/write_tracker.cc:133-136 | the first time in a run that a thread claims a position of a full queue, the run can go on until a queued page has no report under way |
| `WriteExact.DroppedForever` | delta/gpu/write_tracker.cc:317-348 | such a page is never reported and never armed again |
| `WriteExact.AttendedExact` | delta/gpu/write_tracker.cc:142-315 | a step keeps every read-only page protected, in disarm or about to be opened, and the batch marked, if and only if it exchanges no page of the batch being armed |
| `WriteExact.NoPageSticks` | delta/gpu/write_tracker.cc:142-159 | in every run without such an exchange no page is ever open in the tracker, read-only on the host and attended by nobody |
| `WriteExact.LateExchangeSticks` | delta/gpu/write_tracker.cc:149-158 | wherever a run makes such an exchange, it can go on until that page is stuck |
| `WriteFindings.HostWriteLosesStore` | delta/gpu/write_tracker.cc:162-188 | a reachable state with a protected, armed page that was stored to and that nothing will report |
| `WriteFindings.FailedArmLosesStore` | delta/gpu/write_tracker.cc:285-288 | leaving the marking loop early makes a stored-to page that AllArmed calls armed and nothing will report |
| `WriteFindings.DisarmOverrunsQueue` | delta/gpu/write_tracker.cc:304-315 | a run that arms, writes and disarms until a thread is about to overwrite a full slot |
| `WriteFindings.LateFaultSticks` | delta/gpu/write_tracker.cc:149-158 | a reachable state with a page open in the tracker, read-only on the host and attended by nobody |
| `WriteExact.StuckForever` | delta/gpu/write_tracker.cc:142-159 | no run that leaves a stuck page alone ever lets a store to it complete |
| `VmMaps.VmMap.PunchHole` | delta/kern/vm_map.cc:46-79 | deletes exactly the addresses of the hole, keeps protection, name, flags and physical image of all others, keeps the entries disjoint, and terminates although it appends to the list it scans |
| `VmMaps.VmMap.Add` | delta/kern/vm_map.cc:94-100 | the newest mapping wins on its range, nothing else changes, the range is announced |
| `VmMaps.VmMap.AddDirect` | delta/kern/vm_map.cc:102-114 | the same with the physical image of every address, in 64 bits |
| `VmMaps.VmMap.Remove` | delta/kern/vm_map.cc:116-129 | the range is gone, exactly its direct-memory addresses were detached, the range is announced |
| `VmMaps.VmMap.RemoveDirect` | delta/kern/vm_map.cc:131-151 | exactly the addresses of mappings that do not wrap with a physical image in the range are gone, however many aliases there were; all others keep theirs; exactly the ranges removed were detached and announced; a request that wraps removes nothing |
| `VmMaps.RemovedExact` | delta/kern/vm_map.cc:131-151 | no address keeps an image in the range if and only if no mapping that wraps had one there; every address without one keeps its attributes |
| `VmMaps.WrappedStays` | delta/kern/vm_map.cc:137-141 | a mapping whose physical range reaches 2^64 keeps every address |
| `VmMaps.VmMap.Get` | delta/kern/vm_map.cc:153-167 | the one mapping that holds the address, or none |
| `VmMaps.MapsUnique` | delta/kern/vm_map.cc:41-45 | disjoint entries give an address at most one set of attributes |
| `VmMaps.VmMap.Overlaps` | delta/kern/vm_map.cc:169-177 | true iff some mapping meets the range |
| `VmMaps.OverlapsIsMapped` | delta/kern/vm_map.cc:169-177 | for non-empty ranges that is: iff some address of the range is mapped |
| `VmMaps.VmMap.ProtectRange` | delta/kern/vm_map.cc:179-187 | every mapping that meets the range gets the protection, whole; every mapped address of the range has the new protection and keeps name, flags and physical image; the map stays disjoint |
| `VmMaps.ProtectConfined` | delta/kern/vm_map.cc:179-187 | addresses outside the range are unaffected if and only if no changed mapping reaches out of it |
| `VmMaps.ProtectReachesOut` | delta/kern/vm_map.cc:179-187 | a mapping of two pages of which one is protected and both change |
| `RarRing.RarSession.Push` | delta/formats/archive_rar.cc:111-128 | one pass appends as many bytes as fit before the wrap, exactly as the value-level Pushed |
| `RarRing.RarSession.Finish` | delta/formats/archive_rar.cc:130-137 | from then on no pass of a reader waits, and after a failed decode every pass fails |
| `RarRing.RarSession.Consume` | delta/formats/archive_rar.cc:141-168 | one pass waits, fails, skips or copies as the value-level Drain, and copied bytes land at their distance from the offset with the rest of the buffer unchanged |
| `RarRing.PushKeeps` | delta/formats/archive_rar.cc:118-124 | pushing keeps consumed <= produced <= consumed + size and ring byte i mod size equal to stream byte i for all held i |
| `RarRing.DrainKeeps` | delta/formats/archive_rar.cc:143-166 | consuming keeps the same and delivers exactly the stream bytes it steps over, across the wrap |
| `RarRing.NeverBothBlocked` | delta/formats/archive_rar.cc:114-148 | decoder and reader never wait on the ring at the same time |
| `RarTheorems.StepKept` | delta/formats/archive_rar.cc:380-507 | every critical section of readers, decoders and eviction keeps the invariant over cache, locks, rings and buffers |
| `RarTheorems.SuccessfulReadIsExact` | delta/formats/archive_rar.cc:475-507 | in every interleaving a successful read returned exactly its range of the entry, and the cache holds at most four sessions |
| `RarOutcomes.FailureHasCause` | delta/formats/archive_rar.cc:141-168 | in every interleaving a read that failed asked for bytes past the end of its entry, or a decode of that entry failed |
| `RarOutcomes.SoundDecodersNeverFail` | delta/formats/archive_rar.cc:475-507 | in every interleaving in which no decode fails, no read of a range inside its entry fails |
| `RarOutcomes.DeliveredSucceeds` | delta/formats/archive_rar.cc:141-168 | a reader whose range has been drained ends with success and gives the lock back |
| `RarOutcomes.EveryReadCanSucceed` | delta/formats/archive_rar.cc:475-507 | from every reachable state a reader that is still to get a session, and whose range lies in the entry, can be brought to success, by a cached, a new or a private session |
| `RarOutcomes.FinishEndsWaiting` | delta/formats/archive_rar.cc:130-168 | in every run, once its decoder has finished a reader never waits: every pass ends the read or brings it closer to its end |
| `RarOutcomes.NothingAfterTheEnd` | delta/formats/archive_rar.cc:111-137 | in every run a decoder that has finished or was stopped produces nothing any more |
| `RarTheorems.ConsumeStartsInTime` | delta/formats/archive_rar.cc:475-506 | whenever a reader enters Consume, on a rechecked or a private session, the session has not passed its offset, the reader alone holds its lock and the decoder is alive |
| `RarTheorems.ConsumeMakesProgress` | delta/formats/archive_rar.cc:141-168 | a reader inside Consume can go on, or its decoder can push or finish |
| `RarCache.Cache.Acquire` | delta/formats/archive_rar.cc:380-421 | reuses the most advanced session at or before the offset, otherwise starts one; moves it to the front; evicts exactly the last when more than four |
| `RarCache.Cache.Choose` | delta/formats/archive_rar.cc:384-398 | a session of the entry at or before the offset is found iff one is cached, and none of those is further advanced, nor as far and less recently used |
| `RarCache.CacheStep` | delta/formats/archive_rar.cc:380-421 | in every run a session that is reused, begun or published goes to the front, the others keep their order, only a new one takes the place of the last of four, and nothing else changes the cache |
| `SaveQuota.Blocks` | delta/kern/save_storage.cc:82-85 | the least number of 32 KiB blocks that holds the size |
| `SaveQuota.InfoUnlocked` | delta/kern/save_storage.cc:86-139 | free blocks are the quota minus the blocks of distinct identities, named or open, saturating at the quota |
| `SaveQuotaTheorems.LimitExact` | delta/kern/save_storage.cc:141-152 | Limit grants exactly the signed 64-bit sizes that cost at most the current blocks plus the free ones, if and only if it is not a file of 2^48 - 1 blocks with nothing free |
| `SaveQuotaTheorems.LimitIsLargest` | delta/kern/save_storage.cc:141-152 | a size is within the limit if and only if it is a signed 64-bit one with which the save is within its quota, or no further outside it, or the file is at the clamp |
| `SaveQuotaTheorems.GrantedIsLongest` | delta/kern/save_storage.cc:283-293 | a write is granted the longest part of it that leaves the save within the quota or no further outside it, and refused iff not even one byte does |
| `SaveQuotaTheorems.ClampExact` | delta/kern/save_storage.cc:141-152 | no tame operation raises the count of a state above the quota or its previous value if and only if no live file has 2^48 - 1 blocks with nothing free |
| `SaveQuotaTheorems.ReplaceBound` | delta/kern/save_storage.cc:154-173 | a successful Replace never raises the count above the quota or its previous value, unless what it reclaims is at the clamp |
| `SaveQuotaTheorems.StepBound` | delta/kern/save_storage.cc:272-358 | for every quota and every count, no single write, truncation, replacement, removal, renaming, opening or closing raises the count above the quota or its previous value, the two exceptions apart |
| `SaveQuotaTheorems.StepExact` | delta/kern/save_storage.cc:328-358 | away from the clamp an operation does so if and only if it is a Replace that fails half-way and leaves more on a retained temporary name than the file had and the save has free |
| `SaveQuotaTheorems.QuotaHolds` | delta/kern/save_storage.cc:272-371 | nor does any sequence of them, for every quota and every count, as long as no step is one of the two exceptions |
| `SaveQuotaTheorems.FewBlocksOrderly` | delta/kern/save_storage.cc:141-152 | a save of fewer than 2^48 - 1 blocks under a quota below that never meets the clamp |
| `SaveQuotaTheorems.ClampExceedsQuota` | delta/kern/save_storage.cc:148-151 | a write that the clamp lets past the quota |
| `SaveQuotaTheorems.FailedReplaceExceedsQuota` | delta/kern/save_storage.cc:350-356 | a failed Replace that doubles a full save |
| `SaveQuotaTheorems.FailedReplaceBound` | delta/kern/save_storage.cc:340-356 | a failed Replace whose temporary name nothing else keeps never raises the count |
| `SaveQuotaTheorems.FailedReplaceRetained` | delta/kern/save_storage.cc:340-356 | otherwise it changes the count by exactly the blocks it wrote there |
| `SaveQuotaTheorems.FailedReplaceExact` | delta/kern/save_storage.cc:340-356 | and so respects the quota if and only if it leaves no more than the file had and the save has free |
| `SaveFiles.SaveMount.Info` | delta/kern/save_storage.cc:222-225 | quota and free blocks of the mounted save, or the quota file's error |
| `SaveFiles.SaveMount.ReplaceLimit` | delta/kern/save_storage.cc:154-173 | the replaced file's blocks count as free only if no other name and no handle keeps its identity |
| `SaveFiles.SaveMount.Write` | delta/kern/save_storage.cc:272-297 | told in blocks: the longest part whose final size the quota allows is passed on, all of it if the final size is allowed; the answer is its length, none if the host wrote fewer, too big, no space, or the error of the quota; only that file changes, to reach as far as the host wrote or as far as before |
| `SaveFiles.WrittenInFull` | delta/kern/save_storage.cc:272-297 | a write whose final size fits the quota in blocks is passed on in full |
| `SaveFiles.SaveMount.TruncateUnlocked` | delta/kern/save_storage.cc:195-219 | the result in every case: negative lengths, for growth exactly the sizes the quota allows in blocks, and the host, whose errors for space and size are passed on; on success the identity has the new size and no other changes, otherwise nothing does |
| `SaveFiles.SaveMount.TruncatePath` | delta/kern/save_storage.cc:304-326 | the same by name, an error for a missing one; the quota is respected unless the file is at the clamp |
| `SaveFiles.SaveMount.Truncate` | delta/kern/save_storage.cc:299-302 | the same on an open handle; the quota is respected unless the file is at the clamp |
| `SaveFiles.SaveMount.Replace` | delta/kern/save_storage.cc:328-358 | refused with no space exactly if the quota, counted in blocks with what the old file gives back, does not allow the size; otherwise succeeds iff the host renames, and then the path names a file of that size; all other names, handles and sizes but the temporary file stay; the quota is respected, the two exceptions apart |
| `SaveFiles.SaveMount.Remove` | delta/kern/save_storage.cc:359-371 | exactly that name goes, and the file's blocks leave the count exactly if no handle and no other name keeps it |
| `SaveFiles.SaveMount.Rename` | delta/kern/save_storage.cc:538-549 | the new name stands for what the old one did and the old one is gone, unless both already named one file; other names, handles and sizes stay; the blocks of the displaced file leave the count exactly if nothing else keeps it |
| `SaveFiles.SaveMount.OpenWritable` | delta/kern/save_storage.cc:227-251 | the handle stands for the file the path names, a new empty one if there was none; truncation leaves it empty; nothing else changes; a failed truncation opens nothing; the count does not grow |
| `SaveFiles.SaveMount.Close` | delta/kern/save_storage.cc:266-270 | exactly that handle goes; the blocks of a file leave the count exactly if the handle was the last to keep it |
| `SaveCopies.SaveStore.CopySave` | delta/kern/save_storage.cc:471-522 | result 0 means the destination equals the source tree; otherwise destination and destination.old are unchanged; at every step an existing destination's old tree or the complete new one is at destination or destination.old; when the host does not fail it succeeds, with nothing left over, unless the source is missing or something is in the way, each with its own error |
| `SaveCopies.SaveStore.BackupSave` | delta/kern/save_storage.cc:525-528 | success makes the backup equal to the save, failure leaves the backup; the save is untouched; the backup is recoverable at every step; when the host does not fail the answer is exactly determined by what is there |
| `SaveCopies.SaveStore.RestoreBackup` | delta/kern/save_storage.cc:533-536 | success makes the save equal to the backup, failure leaves the save; the backup is untouched; the save is recoverable at every step; when the host does not fail the answer is exactly determined by what is there |
| `SaveCopies.SaveStore.RemoveSave` | delta/kern/save_storage.cc:373-439 | success removes save and backup, failure leaves both as they were; until the final deletion both trees are complete, in place or retired; it succeeds when the host does not fail and nothing is in the way |
| `ZipCursors.ZipBackend.ExtractRange` | delta/formats/archive_zip.cc:208-270 | after any history of reads a success has the clamped length and equals that slice of a decode from byte 0; an intact member never fails before its end, and at its end exactly if the probe does not see the end of the stream or the checksum differs; a member as its index says never fails if its stream ends soon, and is refused whole if not; stored members are read directly |
| `ZipCursors.ZipBackend.DataStart` | delta/formats/archive_zip.cc:297-309 | the cached data offset is always the one the local header gives |
| `ZipLayout.SignatureExact` | delta/formats/archive_zip.cc:297-305 | a local header is accepted if and only if it is there in full and begins with the signature |
| `ZipLayout.PackedIsFound` | delta/formats/archive_zip.cc:297-309 | in an archive written as header, name, extra field and packed bytes, with the two lengths in the header, the member's data is found to be exactly the packed bytes, whatever comes before and after |
| `ZipDecoding.Pass` | delta/formats/archive_zip.cc:324-343 | one turn of the decoding loop makes progress, ends the stream, or gives up only on a damaged member or past its end; afterwards the input is used up, the stream ended or more output waiting |
| `ZipDecoding.Produce` | delta/formats/archive_zip.cc:311-345 | the decoding loop ends, keeps file position + bytes left = data start + packed size, the checksum over exactly the bytes produced, and delivers the next bytes of the plain text, all that were asked for if the member is intact |
| `ZipCursors.ZipBackend.InflateTo` | delta/formats/archive_zip.cc:322-345 | the same on a cursor in place, the other cursors unchanged; short only at the end of the stream |
| `ZipCursors.ZipBackend.Acquire` | delta/formats/archive_zip.cc:350-387 | a cursor of this entry at or before the offset, resumed where it stands if there is one, otherwise from byte 0; at most one per entry; evicts a closed or the least recently used one |
| `ZipCursors.ZipBackend.CheckEnd` | delta/formats/archive_zip.cc:249-268 | succeeds if and only if the stream has ended or the rest of it lies in the one buffer the probe sees with at most one byte to come, and the checksum matches |
| `ZipDecoding.EndSeenExact` | delta/formats/archive_zip.cc:249-268 | at the end of a member as its index says the probe sees the end of every stream that ends within a buffer of its last byte, and of no other if no more input was read than needed |
| `ZipCursors.ExtraByteAccepted` | delta/formats/archive_zip.cc:255-261 | a member one byte longer than its index entry says that is read without complaint |
| `ZipCursors.LateEndRefused` | delta/formats/archive_zip.cc:255-261 | a member as its index entry says, its stream ending late, that is refused |
| `ZipDecoding.FaithfulPrefix` | delta/formats/archive_zip.cc:275-285 | what a cursor has decoded is a prefix of the member's plain text, all of it once the stream ended |
| `XtsTweaks.DoubledIsTimesAlpha` | delta/formats/pkg_filesystem.cc:252-259 | the byte loop multiplies the tweak by alpha modulo x^128 + x^7 + x^2 + x + 1 |
| `XtsTweaks.TimesAlphaUnique` | delta/formats/pkg_filesystem.cc:252-259 | that product has only one representative below degree 128 |
| `XtsTweaks.Double` | delta/formats/pkg_filesystem.cc:252-259 | the same loop in place on the tweak buffer |
| `XtsSectors.DecryptSector` | delta/formats/pkg_filesystem.cc:239-261 | the buffer becomes the decryption of every cipher block under its own tweak, the first being the encryption of the sector's number |
| `XtsSectors.SeedIsSectorNumber` | delta/formats/pkg_filesystem.cc:240-242 | the sixteen seed bytes are the one block that, read as a little-endian number, is the sector number in 64 bits; the upper eight are zero |
| `XtsSectors.DecBlockIs` | delta/formats/pkg_filesystem.cc:245-251 | a decrypted block, masked again, is the cipher's inverse of the masked input |
| `XtsSectors.BlockOfDecrypted` | delta/formats/pkg_filesystem.cc:245-251 | block j is decrypted under the first tweak times alpha^j, from its own sixteen bytes alone |
| `XtsSectors.TweakTimesAlpha` | delta/formats/pkg_filesystem.cc:252-259 | consecutive tweaks differ by the factor alpha |
| `XtsSectors.DecryptInvertsEncrypt` | delta/formats/pkg_filesystem.cc:239-261 | decrypting an XTS-encrypted sector returns it |
| `XtsSectors.EncryptInvertsDecrypt` | delta/formats/pkg_filesystem.cc:239-261 | and the other way round |
| `PkgSources.Read` | delta/formats/pkg_filesystem.cc:178-324 | a read of any stack of layers is the slice of one flat image, zeros past the end |
| `PkgSources.XtsRead` | delta/formats/pkg_filesystem.cc:223-236 | the sector loop returns the slice of the decrypted image for every offset and length |
| `PkgSources.PfscRead` | delta/formats/pkg_filesystem.cc:292-317 | what the block loop returns, with its shared buffer, for every ascending block map |
| `PkgSources.ReadsAgreeIffTame` | delta/formats/pkg_filesystem.cc:292-317 | all reads agree with one flat image if and only if every short block follows a block that is zero where the short one has nothing |
| `PkgSources.FullBlocksAreTame` | delta/formats/pkg_filesystem.cc:300-309 | block maps whose blocks all decompress to full size meet that condition |
| `PkgSources.CorruptBlockReadsStale` | delta/formats/pkg_filesystem.cc:307-309 | a block map where reading one block alone and within a longer read differ |
| `PkgSources.ReadNode` | delta/formats/pkg_filesystem.cc:658-677 | the file's slice of the inner image, clamped to its size, or the error and empty cases |
| `Ufs2.RouteBlock` | delta/formats/ufs2_filesystem.cc:151-165 | the direct/single/double/triple split leads back to its block, with all indices in range iff the block number is below 12 + n + n^2 + n^3 |
| `Ufs2.BlockRoute` | delta/formats/ufs2_filesystem.cc:151-165 | every path in range is the path of the block it leads to |
| `Ufs2.BlockAddrFollows` | delta/formats/ufs2_filesystem.cc:141-165 | the address is the one found at the end of the block's path |
| `Ufs2.ReadInode` | delta/formats/ufs2_filesystem.cc:168-192 | the bytes returned are the file's, holes as zeros, clamped to its size; fewer only before a chunk with an unreadable byte, an error only if that is the first |
| `Ufs2Layout.IndirectReads` | delta/formats/ufs2_filesystem.cc:141-148 | entry i of a pointer block that lies at its fragment, written as 64-bit two's complement numbers, is pointer i |
| `Ufs2Layout.StoredFileIsRead` | delta/formats/ufs2_filesystem.cc:141-192 | of an image that stores a file block by block at the ends of its paths, through direct blocks, pointer blocks one, two and three levels deep and holes, every read returns the file's bytes |
| `Ufs2.ReadableIsComplete` | delta/formats/ufs2_filesystem.cc:168-192 | where every byte is readable the read is complete |
| `Ufs2.ReadsConcatenate` | delta/formats/ufs2_filesystem.cc:168-192 | reads of adjacent ranges concatenate to the read of both |
| `ArchiveCache.Cache.Read` | delta/formats/archive_filesystem.cc:319-377 | whatever other readers do between its lock sections, a read returns the clamped slice of the entry, on the cached, whole-file, streamed and trimmed paths alike, and never fails on an intact entry; part of a small entry is then in the cache if it fits and no other reader interferes |
| `ArchiveCache.Cache.CopyCached` | delta/formats/archive_filesystem.cc:334-350 | a hit returns the slice and moves the slot to the front; nothing enters or leaves the cache |
| `ArchiveCache.Cache.Insert` | delta/formats/archive_filesystem.cc:364-371 | no entry twice, byte count exact and within budget; the entry is cached iff it was or fits alone |
| `ArchiveCache.Cache.Trim` | delta/formats/archive_filesystem.cc:412-418 | keeps the longest front part that fits the budget, with its exact byte count |
| `IndexCache.Save` | delta/formats/archive_filesystem.cc:182-205 | the bytes written are the format's encoding of name and entries |
| `IndexCache.Load` | delta/formats/archive_filesystem.cc:127-168 | the reader with its sticky flag accepts exactly what the format's parser accepts, with the same entries |
| `IndexCache.Put` | delta/formats/archive_filesystem.cc:82-89 | appends the low bytes of a number, lowest first |
| `IndexCache.RoundTrip` | delta/formats/archive_filesystem.cc:127-205 | loading what was saved returns the same list if it has at most 2^26 entries, and is refused otherwise |
| `IndexCache.PrefixRejected` | delta/formats/archive_filesystem.cc:127-168 | every strict prefix of saved bytes is refused, under every backend name |
| `IndexCache.LoadedStable` | delta/formats/archive_filesystem.cc:127-168 | bytes after the last record change nothing |
| `IndexCache.OwnName` | delta/formats/archive_filesystem.cc:144-146 | only the backend that saved an index loads it |
| `IndexCache.SavedInjective` | delta/formats/archive_filesystem.cc:182-205 | different indexes never have the same bytes |
| `PageTable.GuestPageTable.AddCsDirty` | delta/gpu/guest_page_table.cc:49-61 | exactly the blocks the range touches in user space change, by the delta modulo 2^16; it stops early only at a touched block whose chunk could not be had, with exactly the blocks before it changed |
| `PageTable.GuestPageTable.Mark` | delta/gpu/guest_page_table.cc:49-61 | adding a range keeps every counter equal to the number of live ranges touching its block modulo 2^16 |
| `PageTable.GuestPageTable.Unmark` | delta/gpu/guest_page_table.cc:49-61 | so does taking back a live range |
| `PageTable.GuestPageTable.CsClear` | delta/gpu/guest_page_table.cc:63-81 | with chunk skipping: true iff every counter of the range is zero; false past user space |
| `PageTable.GuestPageTable.IsClear` | delta/gpu/guest_page_table.cc:63-81 | a user-space range is called clear iff all its counters are zero, that is, while no allocation has failed, iff the number of live ranges on each of its blocks is a multiple of 2^16; that is right, no live range touching its blocks or overlapping it, iff each of them has fewer than 2^16 |
| `PageTable.WrapHidesRanges` | delta/gpu/guest_page_table.cc:58-59 | a table in which one range was marked 2^16 times calls it clear |
| `ObjectTable.Table.FindSlot` | delta/kern/object_table.cc:70-100 | the first free slot other than 0 from the last growth on and around; grows iff every such slot is taken, then to max(16384, twice) with the slot after the old end; contents unchanged |
| `ObjectTable.Table.Scan` | delta/kern/object_table.cc:70-85 | the cyclic scan that steps over slot 0 finds the first free slot from its start on, and none iff every slot is taken |
| `ObjectTable.Table.Add` | delta/kern/object_table.cc:123-147 | a non-zero multiple of four that no live object has; the map gains exactly that object with one reference |
| `ObjectTable.Table.Get` | delta/kern/object_table.cc:185-206 | the object the map has at the handle, its two low bits ignored |
| `ObjectTable.Table.Remove` | delta/kern/object_table.cc:149-169 | the map loses exactly that slot; true iff it was live |
| `ObjectTable.Table.Keep` | delta/kern/object_table.cc:111-121 | one reference more; true on every slot inside the table, also an empty one |
| `ObjectTable.Table.Release` | delta/kern/object_table.cc:171-183 | one reference less, gone with the last; the answer on empty and missing slots |
| `ObjectTable.Table.Purge` | delta/kern/object_table.cc:37-48 | empties the map and keeps the capacity |
| `ObjectTable.Table.Reset` | delta/kern/object_table.cc:18-35 | empties the map and frees the table |
| `ObjectTable.LeavesWithLastRelease` | delta/kern/object_table.cc:111-183 | in every run an object stays exactly as long as it is not removed and the releases are fewer than one plus the keeps, whatever happens elsewhere |

## Left out

- Write tracker: scan mode (userfaultfd, PAGEMAP_SCAN, the minor-fault count) and remaps in flight (`NoteRemap`, `Drain`), whose `MarkArmed` stores a state unconditionally.
- Write tracker: the owner hooks (`SetOwner`, `OpenedByOwner`) and the policy callbacks, which other files define; the page heat of `Collect` and `EndFrame` appears only as the owner's freedom to refuse and to disarm.
- Write tracker: `mprotect` is taken to succeed and to be atomic, atomics to be sequentially consistent, page addresses to be non-zero; liveness of the retry loop is not claimed.
- WriteTheorems.NoLostWrite: holds under the two exact guards; steps outside them are possible in the source, as the findings show.
- Virtual memory map: sums of virtual addresses are taken not to wrap (physical offsets, mappings and requests do in the model); name storage, `UnmapRtMemory` and the host allocator, of which only the detached ranges are recorded.
- RAR: stored and whole-entry reads, index parsing and UnRAR itself, which is an arbitrary byte stream per entry here.
- Save quota: directories, symbolic links, handles of other mounts, errors of the directory walk, and replacement of the quota file; `Confined`.
- SaveQuotaTheorems.QuotaHolds: excludes the two steps shown to be exceptions, each by its exact condition.
- WriteExact.FullClaimDrops: speaks of the first full claim of a run; what later ones do depends on what was overwritten before.
- Save copies: a forward operation may fail at any call and leave anything partial behind, but the renames that roll back succeed; which error code a failing walk gives is left open.
- ZipCursors.ZipBackend.ExtractRange: one entry per local header offset is assumed, since cursors are keyed by it; the central directory and the decompressor are not modelled (any prefix-monotone decoder that uses its input before it stops will do), nor decoder allocation failures.
- PkgSources.Read: AES and zlib are parameters; a block size of zero, on which the source divides by zero, descending block offsets and wrapping of offsets are excluded; header parsing and key recovery are out.
- PkgSources.PfscRead: block maps with descending offsets, whose block length wraps to an allocation that fails, are excluded.
- PkgSources.ReadNode: has the exclusions of `Read`.
- Ufs2.ReadInode: with block sizes 1, 2 and 4, which the superblock check accepts, the source divides by zero past the direct blocks; exactly those reads are excluded. 64-bit wrapping of fragment addresses, `InodeOffset` and the directory walk are out.
- Ufs2.BlockAddrFollows: excludes the same division by zero.
- ArchiveCache.Cache.Read: the backend is taken to return the clamped slice or fail; `BuildDirs`, `CommonWrapperPrefix` and case folding are out.
- IndexCache.RoundTrip: path lengths of 2^32 and more, which the format truncates, are excluded; file and directory creation are out.
- PageTable.GuestPageTable.IsClear: speaks of live ranges only while every chunk allocation succeeded, since AddCsDirty stops silently at the first that fails; the per-page records are out.
- ObjectTable.Table.FindSlot: growth beyond 2^27 slots, where the 32-bit size overflows, is excluded.
- ObjectTable.Table.Add: growth beyond 2^27 slots, where the 32-bit size overflows, is excluded; object reference counts and each object's own list of handles are out.
- The shader recompiler, rendering, audio, input, crash handling, executable loading, firmware import and the launcher.
