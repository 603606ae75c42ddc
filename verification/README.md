# A verified model of the AMD GPU user-mode library

The library hands out GPU virtual addresses, buffer objects, software semaphores and
command submissions on top of a kernel driver. This project models the parts of it that
keep state by hand, and proves what they keep.

* **Virtual addresses.** `UtilMath` gives the ALIGN macro bit by bit. `Holes` is the theory
  of a descending list of holes as a set of free addresses; `Placement` is the search on it;
  `VaRuns` is whole histories of one manager. `IntrusiveLists` is the circular doubly linked
  list with its head, for any kind of entry, and `VaManagers` is the manager itself: nodes
  split, grown, merged and unlinked in place. Its invariant `Valid` contains the books (ranges out, addresses lost),
  so conservation is kept by each call on the objects. `VaDevices` is the four managers of a
  device, their ranges, and the routing of allocations with fallback.
* **Semaphores and submission.** `Semaphores` is a state machine with a history: reference
  counts, wait lists, last sequence numbers. `Submissions` is the calls on objects and
  arrays; each is proved to be a step of the machine, and the kernel is proved to read
  the promised chunk layout.
* **Buffers.** `HandleTables` is the growable table, `BufferObjects` the reference-counted
  registry with nested CPU mappings, `MappingIndexes` the kernel-side index of mapped ranges.
* **Devices.** `DeviceRegistries` is the process-wide list of devices.

Conventions. A failing `calloc`, `realloc` or kernel call is a parameter (`callocOk`,
`reply`, ...), so every contract covers both outcomes. Each mutex-protected region is one
call. Addresses and sizes are integers; sums that the C code computes in 32 or 64 bits go
through `Wrap` where they can wrap.

## What turned out to be conditional

Each of these is stated with its exact condition.

* The per-hole test of `find_va` is right if and only if its 64-bit sums do not wrap, or the
  wrapped value still fails the test (`PlaceRightIffWrapHarmless`; a hole at the top of the
  address space with a large alignment is served address 0, `WrappedPlaceLeavesTheHole`). The
  search as a whole is right if and only if that holds of the holes it gets to, those with no
  hit before them (`SearchRightIffHarmless`, `UnreachedWrapIsHarmless`); no more is asked of a
  caller, and of the fallback manager only when the first search fails.
* ALIGN rounds up if and only if adding the mask does not wrap (`AlignCorrectIffNoWrap`), and
  the handle table covers a key if and only if the rounded size fits (`GrowthCoversKeyIff`).
* A size rounds to 0 if and only if it is 0 or its rounding wraps (`RoundsToZeroIff`). A search
  for it takes no address and leaves the manager valid, and then unchanged, if and only if it
  does not succeed strictly between two free addresses or on the hole of an empty range; giving
  it back does so if and only if the address is at the edge of a hole or `calloc` fails. Both
  are stated on the lists (`ZeroSizeSearchIff`, `ZeroSizeFreeIff`, with `ZeroSizeCarveTouches` a
  concrete search that leaves two touching holes) and on the calls (`FindVa`, `FreeVa`).
* The wide low manager stays below the device's limit if and only if the device supports
  4 GiB (`LowStaysInsideDevice`), and the wide high one if and only if a whole further window
  fits (`HighStaysInsideDevice`); `SmallDeviceIsLeft` is a device where both reach past it. The
  managers that can serve have disjoint ranges if and only if the device has no high range or
  keeps it apart from the low one (`RangesApartIff`).
* Freeing what was just allocated restores the hole list if and only if a neighbour is free
  or the free's `calloc` succeeds (`AllocThenFree`). A handle with address 0 is never freed
  (`RangeFree`); `ServedAtZeroIff` says when one is served, in either direction of the search.
* An import leaves the kernel's open handles and the table in agreement if and only if the size
  query succeeds or the buffer already has its object; the handle left open by a failed query
  is adopted or closed only by a later import of the same buffer whose query succeeds
  (`ImportDmaBuf`).
* The final free of a buffer leaves no mapping of it behind if and only if it was not mapped or
  `munmap` succeeds (`DropMapping`); `cpu_ptr` is forgotten either way.
* A new buffer of the kernel-side index gets its handle to itself if and only if the wrapping
  counter's value is not in use, as it is not for the first 2^32 - 1 buffers (`CreateBuffer`).
* Predecessor lookup finds every containing mapping if and only if no mappings overlap
  (`PredecessorContainsIffDisjoint`); with disjoint mappings its answer is the linear search's
  if and only if the end of the predecessor does not wrap or the address is outside it
  (`Lookup`). The CPU-pointer scan is containment if and only if the mapping's end does not
  wrap (`HitIsContainmentIffNoWrap`). The scan checks the requested size against the buffer's,
  not against what follows the pointer.
* Freeing a context goes on through the link of each entry it has just released; no freed entry
  is read if and only if every semaphore on its lists is still held (`WalkReadsLiveEntriesIff`);
  `FreedEntryIsRead` is a run of allowed calls after which one is. While entries may be read, that
  walk meets the same elements as the safe one (`IntrusiveLists.DrainUnsafe`).

## Model

| member | source | states |
|---|---|---|
| UtilMath.AlignIsRoundUp | amdgpu/util_math.h:31-32 | the mask trick on w-bit words is the least multiple not below the value, and 0 when adding the mask wraps |
| UtilMath.AlignCorrectIffNoWrap | amdgpu/util_math.h:31-32 | ALIGN is the round-up for exactly the values that do not wrap, and for 0 |
| UtilMath.AlignIdempotent | amdgpu/util_math.h:31-32 | aligning twice is aligning once |
| UtilMath.BitAndClearsLow | amdgpu/util_math.h:31 | and-ing with the complement of a k-bit mask clears exactly the k low bits |
| UtilMath.RoundUpIsLeast | amdgpu/amdgpu_vamgr.c:125-127 | offset plus waste is the least multiple of the alignment not below the offset, for any alignment |
| UtilMath.WrapIsRemainder | amdgpu/amdgpu_vamgr.c:119-131 | unsigned arithmetic leaves the remainder of the exact result |
| Holes.IntervalInOneHole | amdgpu/amdgpu_vamgr.c:117-161 | in a canonical list any free interval lies inside a single hole, so testing holes one by one misses nothing |
| Holes.FreeDeterminesHoles | amdgpu/amdgpu_vamgr.c:177-217 | two canonical lists with the same free addresses are equal |
| Holes.CarveHole | amdgpu/amdgpu_vamgr.c:76-95 | all four cases of subtract_hole keep the list canonical and remove exactly the range from the free set |
| Holes.CarveCanonicalIff | amdgpu/amdgpu_vamgr.c:76-95 | with size 0 allowed, the list stays canonical exactly when the carve is not strictly inside the hole; the free set is right regardless |
| Holes.InteriorOfHole | amdgpu/amdgpu_vamgr.c:76-79 | a new hole is needed exactly when both addresses next to the range are free |
| Holes.BetweenByOffsets | amdgpu/amdgpu_vamgr.c:178-183 | comparing start offsets alone finds the place of a range that is not free |
| Holes.NeighboursFree | amdgpu/amdgpu_vamgr.c:187-204 | the adjacency tests of free_va hold exactly when the address above, or below, the range is free |
| Holes.RestoreRange | amdgpu/amdgpu_vamgr.c:185-217 | every merge case keeps the list canonical and adds exactly the range to the free set |
| Placement.PlaceRightIffWrapHarmless | amdgpu/amdgpu_vamgr.c:119-132 | one pass of either search loop finds the best place in the hole or rightly rejects it, exactly when 64-bit wrap does no harm |
| Placement.WrappedPlaceLeavesTheHole | amdgpu/amdgpu_vamgr.c:125-131 | a concrete hole and alignment for which the wrapped test serves an address outside the hole |
| Placement.NoWrapIsHarmless | amdgpu/amdgpu_vamgr.c:119-131 | a bound on the top of the range and the alignment under which nothing wraps |
| Placement.SearchRightIffHarmless | amdgpu/amdgpu_vamgr.c:117-164 | for canonical holes: the first hit fits its hole and is the best place anywhere, and no hit means no place, exactly when wrap is harmless on every hole the search reaches |
| Placement.HarmfulPlaceOutside | amdgpu/amdgpu_vamgr.c:119-131 | a harmful wrap always shows as an accepted place that does not fit the hole |
| Placement.UnreachedWrapIsHarmless | amdgpu/amdgpu_vamgr.c:117-137 | a concrete list whose wrapping hole is never reached because a lower one serves |
| Placement.NoPlaceNoCandidate | amdgpu/amdgpu_vamgr.c:163-164 | when every hole is rejected, no allowed address fits anywhere in the free set |
| Placement.FirstHitIsBest | amdgpu/amdgpu_vamgr.c:117-161 | the first hole that passes, if its own sums do not wrap, yields the lowest allowed address of the whole free set bottom-up, the highest top-down |
| Placement.SearchFailsExactly | amdgpu/amdgpu_vamgr.c:100-165 | with memory at hand a search fails exactly when no aligned range, or not the required one, is free; otherwise the result is the lowest or highest |
| Placement.ServedAtZeroIff | amdgpu/amdgpu_vamgr.c:118-136 | a search returns address 0 exactly when the range from 0 is free (bottom-up), or no higher aligned range is (top-down) |
| Placement.TakenList | amdgpu/amdgpu_vamgr.c:72-97 | a cut of positive size keeps the list canonical and inside the manager's range, and fails exactly when both neighbours of the range are free and calloc fails |
| Placement.ZeroSizeCarveTouches | amdgpu/amdgpu_vamgr.c:76-86 | a concrete search for size 0 that leaves two touching holes |
| Placement.GivenBackOutcome | amdgpu/amdgpu_vamgr.c:177-217 | a free adds its range, or drops it exactly when no neighbour is free and calloc fails |
| Placement.ZeroSizeSearchIff | amdgpu/amdgpu_vamgr.c:76-136 | a search for size 0 leaves the free set alone, and the list canonical, and then identical, exactly unless it succeeds strictly between two free addresses |
| Placement.ZeroSizeLanded | amdgpu/amdgpu_vamgr.c:117-161 | a search for size 0 returns an allowed address on or at the edge of a hole, and with memory at hand fails only when no hole has an allowed address |
| Placement.ZeroSizeFreeIff | amdgpu/amdgpu_vamgr.c:177-217 | giving back size 0 leaves the free set alone, and the list identical when the address is at the edge of a hole or calloc fails; else it inserts a hole of size 0 |
| VaRuns.RunConserves | amdgpu/amdgpu_vamgr.c:44-221 | in every state of every run holes, live ranges and lost addresses are disjoint and together are the whole range |
| VaRuns.StepKeepsBalance | amdgpu/amdgpu_vamgr.c:100-221 | each search or free keeps the accounts of a manager |
| VaRuns.LiveIsReleasable | amdgpu/amdgpu_vamgr.c:167-175 | a live range is inside the manager's range and not free, which is what free_va needs |
| VaRuns.HolesForgetHistory | amdgpu/amdgpu_vamgr.c:177-217 | the hole list depends only on what is live and lost, not on the order of the calls |
| VaRuns.FullDrain | amdgpu/amdgpu_vamgr.c:167-221 | a run that ends with nothing live and nothing lost ends with the one initial hole |
| VaRuns.NothingLost | amdgpu/amdgpu_vamgr.c:209-217 | addresses are lost only by a free whose calloc fails |
| VaRuns.AllocThenFree | amdgpu/amdgpu_vamgr.c:133-221 | freeing the result of a search restores the identical list exactly when the range was not dropped |
| IntrusiveLists.ListAdd | amdgpu/util_double_list.h:53-59 | inserts the item behind the given element and keeps next and prev inverse around the ring |
| IntrusiveLists.ListDel | amdgpu/util_double_list.h:77-81 | removes the element, keeps the ring, and leaves the element's own links as they were |
| IntrusiveLists.DrainForward | amdgpu/util_double_list.h:121-125 | the SAFE walk meets every element once in order although each is deleted on the visit |
| IntrusiveLists.DrainUnsafe | amdgpu/amdgpu_cs.c:131-132 | the plain walk with a deleting body meets every element once in order too, since a deleted element keeps its own link |
| IntrusiveLists.Count | amdgpu/amdgpu_cs.c:320-321 | the counting walk gives the number of elements |
| IntrusiveLists.WalkBackward | amdgpu/util_double_list.h:127-131 | the SAFE_REV walk meets the same elements in reverse |
| VaManagers.VaManager.constructor | amdgpu/amdgpu_vamgr.c:44-60 | one hole over the whole range, accounts balanced |
| VaManagers.VaManager.SubtractHole | amdgpu/amdgpu_vamgr.c:72-98 | the nodes hold the list with the hole replaced by what remains of it; ENOMEM only for a split without memory, changing nothing |
| VaManagers.VaManager.FindVa | amdgpu/amdgpu_vamgr.c:100-165 | in the caller's arguments: EINVAL exactly for a base that is no multiple of the larger alignment; the base, or the lowest or highest free multiple; ENOMEM exactly without room or memory for a split; exact new free set. It is a Search step of the run model. For a size that rounds to 0, where it lands and exactly when the manager stays valid and unchanged |
| VaManagers.VaManager.TakeHit | amdgpu/amdgpu_vamgr.c:133-136 | the first hole that passes is cut at the place found, for any size, and the nodes hold the result |
| VaManagers.StepIsFound | amdgpu/amdgpu_vamgr.c:110-164 | a step of the run model in the caller's arguments: the larger of the two alignments decides EINVAL and the place, the size is rounded up, the base is honoured, and ENOMEM has exactly its two reasons |
| VaManagers.VaManager.NoWrapSearch | amdgpu/amdgpu_vamgr.c:110-131 | a bound on the base and size, or on the top of the range and the alignment, under which a search of a valid manager has no harmful wrap |
| VaManagers.VaManager.SearchFromBottom | amdgpu/amdgpu_vamgr.c:117-137 | the backward loop takes its place from the first hole in its order that passes, or reports ENOMEM when none does |
| VaManagers.VaManager.SearchFromTop | amdgpu/amdgpu_vamgr.c:138-160 | the forward loop takes its place from the first hole in its order that passes, or reports ENOMEM when none does |
| VaManagers.VaManager.FreeVa | amdgpu/amdgpu_vamgr.c:167-221 | the rounded-up range is free again and no longer out, or lost exactly when calloc fails and no neighbouring address is free: a Release step of the run model; the invalid address is ignored; for a size that rounds to 0, exactly when the manager stays valid and unchanged |
| VaManagers.VaManager.FindNeighbours | amdgpu/amdgpu_vamgr.c:178-183 | the loop stops between the last hole at or above the address and the first below it |
| VaManagers.VaManager.GiveBack | amdgpu/amdgpu_vamgr.c:185-217 | the nodes hold the list with the range merged into whichever neighbours it touches, or inserted, or unchanged without memory |
| VaManagers.VaManager.GrowUpper | amdgpu/amdgpu_vamgr.c:186-199 | growing the upper hole, and swallowing it into the lower one when that touches too |
| VaManagers.VaManager.Deinit | amdgpu/amdgpu_vamgr.c:62-70 | every hole node is unlinked once, in order, and the ring is empty |
| VaManagers.RoundedTwice | amdgpu/amdgpu_vamgr.c:110-111 | the request the caller has rounded is unchanged by the rounding inside the search |
| VaManagers.RoundsToZeroIff | amdgpu/amdgpu_vamgr.c:111 | the sizes the rounding turns into 0 are 0 and those whose rounding wraps |
| VaManagers.ZeroSizeSearched | amdgpu/amdgpu_vamgr.c:100-165 | the accounts survive a search for size 0, unchanged, exactly unless it splits a hole or removes the hole of an empty range |
| VaManagers.ZeroSizeReleased | amdgpu/amdgpu_vamgr.c:167-221 | the accounts survive giving back size 0, unchanged, exactly when the address is at the edge of a hole or calloc fails |
| VaDevices.Ranges | amdgpu/amdgpu_device.c:187-207 | each pair is adjacent and reaches the limit of the device; the 32-bit ranges hold exactly the addresses of the device that share the upper half of its first one |
| VaDevices.SpansByAddress | amdgpu/amdgpu_device.c:187-207 | which addresses each of the four ranges has: those sharing their upper half with the first address, and the rest up to the limit or the end of a window |
| VaDevices.InitManagers | amdgpu/amdgpu_device.c:187-207 | four valid managers, new and with separate nodes, each over its own range |
| VaDevices.SpansContiguous | amdgpu/amdgpu_device.c:187-207 | the two low ranges are adjacent and disjoint and together one range, and so are the two high ones |
| VaDevices.LowStaysInsideDevice | amdgpu/amdgpu_device.c:192-195 | the wide low range stays within the device's limit exactly when that is at least 4 GiB |
| VaDevices.RangesApartIff | amdgpu/amdgpu_device.c:187-207 | the ranges of the managers that can serve are pairwise disjoint exactly when there is no high range or it is apart from the low one |
| VaDevices.HighStaysInsideDevice | amdgpu/amdgpu_device.c:203-207 | the wide high range stays within its limit exactly when the window after the 32-bit one ends within it |
| VaDevices.SmallDeviceIsLeft | amdgpu/amdgpu_device.c:187-207 | a concrete device on which both wide managers reach past its limits |
| VaDevices.HandleIsFreeable | amdgpu/amdgpu_vamgr.c:252-283 | a handle names the manager that served it, even after fallback, and an extent that is live there and survives the rounding of free |
| VaDevices.UndoneSearch | amdgpu/amdgpu_vamgr.c:273-275 | a search undone at once leaves the same ranges out, and the same accounts unless the range was dropped |
| VaDevices.VaDevice.SearchWithFallback | amdgpu/amdgpu_vamgr.c:255-268 | the first choice serves, or it fails and the 32-bit manager serves, or both fail with EINVAL for a misaligned base and ENOMEM otherwise and nothing changes; the other managers are untouched |
| VaDevices.VaDevice.RangeAlloc | amdgpu/amdgpu_vamgr.c:223-286 | a handle of the rounded size from the manager the flags call for, at the base or the lowest or highest free multiple of the alignment there, the 32-bit manager standing in only without room or memory; or the exact error; without a handle no range is out, and no account changes unless both callocs of the undo path fail |
| VaDevices.VaDevice.RangeFree | amdgpu/amdgpu_vamgr.c:288-298 | exactly the handle's address and size go back to the recorded manager and no other; empty handles and address 0 change nothing |
| VaDevices.VaDevice.HandleRouted | amdgpu/amdgpu_vamgr.c:236-268 | the handle's manager is the one HIGH and 32_BIT call for, the 32-bit one stands in only without room or memory, and its address lies where that manager's range does |
| VaDevices.VaDevice.RefusalRouted | amdgpu/amdgpu_vamgr.c:255-285 | a refusal is EINVAL exactly for a misaligned base, and otherwise every manager asked lacked room or memory |
| VaDevices.VaDevice.LiveBounds | amdgpu/amdgpu_device.c:187-207 | where a range that is out lies, by its manager: above the range's start, and for the 32-bit ones in its 4 GiB window |
| VaDevices.VaDevice.MakeHandle | amdgpu/amdgpu_vamgr.c:270-285 | the handle for the range served, or ENOMEM with the range given back |
| VaDevices.TakeAndFree | amdgpu/amdgpu_vamgr.c:223-298 | a range allocated and freed at once leaves every account as it was exactly unless it starts at address 0 |
| VaDevices.VaDevice.LiveRangesDisjoint | amdgpu/amdgpu_vamgr.c:223-298 | with the low and high ranges apart, or no high range, no two ranges out anywhere on the device overlap |
| VaDevices.VaDevice.HighRangeHasReportedHalf | amdgpu/amdgpu_device.c:244-259 | every byte served for HIGH and 32_BIT has the upper 32 bits that query_sw_info reports |
| VaDevices.VaDevice.DeviceDrained | amdgpu/amdgpu_vamgr.c:223-298 | with nothing out and nothing lost, all four managers are as they were made |
| Semaphores.NextCountsRight | amdgpu/amdgpu_internal.h:167-181 | every step keeps the count equal to the client's reference plus the pending signal, and positive |
| Semaphores.NextListsRight | amdgpu/amdgpu_cs.c:492-538 | every step keeps each waiting semaphore signalled, allocated and on exactly one list once, its signalling context alive |
| Semaphores.NextOrdered | amdgpu/amdgpu_cs.c:507-535 | every step keeps each fence equal to the latest accepted number before its signal, and each list latest wait first |
| Semaphores.RunSafe | amdgpu/amdgpu_cs.c:475-567 | the three invariants above in every state of every run |
| Semaphores.EveryDependencyJustified | amdgpu/amdgpu_cs.c:329-336 | every dependency ever emitted names the queue of the signal and the latest accepted number there at the signal, one per waiter, latest wait first |
| Semaphores.EveryWaitHonoured | amdgpu/amdgpu_cs.c:319-348 | every wait is among what the next non-empty submission on its queue consumes, or still pending while the context lives |
| Semaphores.QueuedIsAlive | amdgpu/amdgpu_cs.c:127-138 | no list reaches a freed semaphore or a freed signalling context |
| Semaphores.FreedExactlyWhen | amdgpu/amdgpu_cs.c:554-567 | a semaphore is freed exactly by its destruction with no signal pending, or by consumption after its destruction |
| Semaphores.LastSeqNeverFalls | amdgpu/amdgpu_cs.c:355-356 | if the kernel numbers each queue upwards, last_seq never decreases along a run |
| Semaphores.LatestIsLogged | amdgpu/amdgpu_cs.c:355-356 | the latest accepted number is that of an accepted submission on the queue with no accepted one after it, or 0 without any |
| Semaphores.WalkReadsLiveEntriesIff | amdgpu/amdgpu_cs.c:127-138 | freeing a context frees none of the entries its walk goes through exactly when the client still holds them all |
| Semaphores.FreedEntryIsRead | amdgpu/amdgpu_cs.c:131-135 | a concrete run after which freeing the context frees an entry its walk goes on from |
| Submissions.Library.CreateSemaphore | amdgpu/amdgpu_cs.c:475-490 | the creation step, or an error and no change |
| Submissions.Library.SignalSemaphore | amdgpu/amdgpu_cs.c:492-516 | success exactly for non-null arguments, valid type and ring, and a semaphore not yet signalled; it then carries the context, the queue and its last number, and one more reference: the signal step |
| Submissions.Library.WaitSemaphore | amdgpu/amdgpu_cs.c:518-538 | success exactly for non-null arguments, valid type and ring, and a signalled semaphore, whichever context signalled it; it is then first on the queue's list: the wait step |
| Submissions.Library.UnreferenceSem | amdgpu/amdgpu_cs.c:554-562 | one reference less; freed exactly at the last |
| Submissions.Library.DestroySemaphore | amdgpu/amdgpu_cs.c:564-567 | the destruction step |
| Submissions.Library.CreateContext | amdgpu/amdgpu_cs.c:51-95 | the context creation step, or an error and no change |
| Submissions.Library.FreeContext | amdgpu/amdgpu_cs.c:111-142 | every semaphore on any of its lists is reset and released once, every other is left alone, and the context is gone: the context step |
| Submissions.Library.DrainInto | amdgpu/amdgpu_cs.c:329-341 | one dependency per entry in list order, every entry released, the list empty |
| Submissions.Library.BuildChunks | amdgpu/amdgpu_cs.c:246-317 | writes stay inside the arrays as sized, and the chunks read as IBs, fence, own dependencies |
| Submissions.Library.MarshalledLayout | amdgpu/amdgpu_cs.c:342-351 | with the semaphore chunk appended the kernel reads exactly the promised layout |
| Submissions.LayoutCarried | amdgpu/amdgpu_cs.c:246-348 | the layout field by field: each IB's address, four times its size, queue and flags; the fence's handle and eight times its offset; each dependency's queue, context and number |
| Submissions.StepSubmitted | amdgpu/amdgpu_cs.c:246-359 | a submission with IBs in its own terms: what the kernel is given, the answer passed on, the number kept if accepted, the list emptied and its semaphores released |
| Submissions.Library.SubmitOne | amdgpu/amdgpu_cs.c:221-360 | EINVAL exactly for a bad type or ring; no IBs consume nothing; otherwise the kernel is given the chunks field by field, its answer is passed on, the number kept if it accepts, and either way the list is emptied: the submission step |
| Submissions.Library.SubmitRequests | amdgpu/amdgpu_cs.c:362-382 | the steps of the requests up to and including the first that fails; the result is that one's error, and every request before it gets its sequence number |
| HandleTables.HandleTable.Insert | amdgpu/handle_table.c:31-51 | the map with the key set, or ENOMEM and the same map; the size grows only for a key beyond it |
| HandleTables.HandleTable.Resize | amdgpu/handle_table.c:39-47 | growth keeps old entries and leaves new ones empty |
| HandleTables.HandleTable.Remove | amdgpu/handle_table.c:53-57 | the map without the key |
| HandleTables.HandleTable.Lookup | amdgpu/handle_table.c:59-65 | the map's entry or nothing, for any key |
| HandleTables.HandleTable.Fini | amdgpu/handle_table.c:67-72 | the empty map |
| HandleTables.GrowthCoversKeyIff | amdgpu/handle_table.c:34-36 | the rounded size exceeds the key exactly when it fits 32 bits, and is 0 otherwise |
| BufferObjects.BoDevice.Alloc | amdgpu/amdgpu_bo.c:73-94 | a new object with one reference under its handle exactly when the kernel, calloc and realloc succeed; else the exact error and the handle closed again |
| BufferObjects.BoDevice.Import | amdgpu/amdgpu_bo.c:139-247 | the error of each handle type, and for dma-bufs the outcome below |
| BufferObjects.BoDevice.ImportDmaBuf | amdgpu/amdgpu_bo.c:155-237 | an open buffer always yields the same object with one more reference, else a new one exactly when memory suffices; kernel and table keep agreeing exactly when the size query succeeds or the object exists, and only a later sized import resolves an orphan |
| BufferObjects.BoDevice.FindOrCreate | amdgpu/amdgpu_bo.c:172-243 | the object of the handle with one more reference whenever it exists; otherwise a new one exactly when memory suffices, else ENOMEM and the handle closed |
| BufferObjects.BoDevice.CreateOrClose | amdgpu/amdgpu_bo.c:45-90 | success exactly when both allocations succeed; else ENOMEM, nothing registered and the handle closed |
| BufferObjects.BoDevice.Free | amdgpu/amdgpu_bo.c:249-280 | one reference less; the last one removes the entry, makes one munmap call if mapped, and closes the handle; a failed munmap leaves the mapping |
| BufferObjects.BoDevice.DropReference | amdgpu/amdgpu_internal.h:167-181 | reports true exactly when the count reaches zero |
| BufferObjects.BoDevice.DropMapping | amdgpu/amdgpu_bo.c:266-270 | the final free calls munmap once whatever the nesting depth; a mapping outlives it exactly when there was one and munmap failed |
| BufferObjects.BoDevice.IncRef | amdgpu/amdgpu_bo.c:282-285 | one more reference, registry kept |
| BufferObjects.BoDevice.CpuMap | amdgpu/amdgpu_bo.c:287-317 | the kernel maps only at depth 0; deeper calls count and return the same address |
| BufferObjects.BoDevice.CpuUnmap | amdgpu/amdgpu_bo.c:319-343 | the kernel is asked to unmap only when the depth reaches 0, the pointer is then forgotten and its error returned; EINVAL when not mapped |
| BufferObjects.BoDevice.FindByCpuMapping | amdgpu/amdgpu_bo.c:361-401 | the lowest-handle object that passes the test, with its offset and one more reference; it contains the pointer and is large enough, and none with a lower handle does; ENXIO exactly when none passes, EINVAL exactly for a null pointer or size 0 |
| BufferObjects.BoDevice.FirstHit | amdgpu/amdgpu_bo.c:380-387 | the scan of the table finds the lowest handle that passes |
| BufferObjects.BoDevice.MapsIsHit | amdgpu/amdgpu_bo.c:382-386 | an object at least as large as asked whose mapping contains the pointer and does not wrap passes the test, and what passes contains the pointer |
| BufferObjects.BoDevice.MapsAnswered | amdgpu/amdgpu_bo.c:266-343 | in every state each munmap call answers a map call of its own, one map call is unanswered exactly while cpu_ptr is set, and with no references left only orphans are open and only what munmap failed to remove is mapped |
| BufferObjects.AllocAndFree | amdgpu/amdgpu_bo.c:73-280 | a buffer allocated and freed at once leaves the registry, the open handles and the mappings as they were |
| BufferObjects.HitIsContainmentIffNoWrap | amdgpu/amdgpu_bo.c:382-386 | the scan's test is containment for all addresses exactly when the end of the mapping does not wrap |
| MappingIndexes.PredecessorContainsIffDisjoint | stub/memory.cpp:23-28 | every mapping containing an address is its predecessor exactly when no mappings overlap |
| MappingIndexes.AllocatedMappingsDisjoint | stub/memory.cpp:63-69 | mappings of ranges one manager has out are disjoint |
| MappingIndexes.DeviceMappingsDisjoint | stub/memory.cpp:63-69 | mappings of ranges that any of a device's four managers have out are disjoint when its low and high ranges are apart |
| MappingIndexes.LinearHitIffPredecessorHit | stub/memory.cpp:20-32 | among disjoint mappings the answer of a linear search is the predecessor's and no other |
| MappingIndexes.MappingIndex.CreateBuffer | stub/memory.cpp:34-52 | the handle is the 32-bit counter; it names the new buffer exactly when it was unused, as it is before the counter wraps |
| MappingIndexes.MappingIndex.CloseBuffer | stub/memory.cpp:54-60 | the handle goes, every mapping and its buffer stay |
| MappingIndexes.MappingIndex.MapBuffer | stub/memory.cpp:63-69 | a mapping at a free address; at a used one the old mapping stays and success is reported |
| MappingIndexes.MappingIndex.UnmapBuffer | stub/memory.cpp:71-77 | the mapping at that address goes |
| MappingIndexes.MappingIndex.Lookup | stub/memory.cpp:20-32 | the buffer of the last mapping that starts at or below the address, at the mapping's offset plus the distance, when the address lies before an end that does not wrap, else nothing; for disjoint mappings that is a linear search exactly when the end does not wrap or the address is outside |
| DeviceRegistries.Registry.Initialize | amdgpu/amdgpu_device.c:95-226 | always the listed device of the accelerant with one more reference; otherwise a new one in front exactly when memory and checks allow, else the exact error and no change |
| DeviceRegistries.Registry.SetUp | amdgpu/amdgpu_device.c:122-226 | a new device in front exactly when memory and every check allow; else the first error, nothing listed and the accelerant given back |
| DeviceRegistries.Registry.FindLink | amdgpu/amdgpu_device.c:51-55 | the loop stops at the link that leads to the device |
| DeviceRegistries.Registry.Unlink | amdgpu/amdgpu_device.c:54-56 | exactly the device leaves the list; the others keep their order |
| DeviceRegistries.Registry.Deinitialize | amdgpu/amdgpu_device.c:228-232 | one reference less; the last one unlinks the device and releases its accelerant once |

## Left out

- The semaphore list is a sequence field of the context here. `IntrusiveLists` proves insertion, deletion and the three walks of amdgpu/amdgpu_cs.c on the ring for any entry, but the context's lists are not tied to such rings, so unlinking through stale links is not modelled.
- Submissions.Library.FreeContext: the walk saves the next entry before releasing the current one; the C code reads the link of an entry after its release (amdgpu/amdgpu_cs.c:131-135), which is harmless exactly as `WalkReadsLiveEntriesIff` says.
- Submissions.Library.FreeContext: a context is freed only when no semaphore outside its own lists still names it as the signaller; the C code would read the freed context's id later.
- Submissions.Library.SubmitOne: a request with so many IBs that the 32-bit array sizes wrap is excluded, and `alloca` does not fail.
- Submissions.Library.WaitSemaphore: waiting again on a queued semaphore is excluded; the C code does not check it.
- Submissions.Library.SignalSemaphore: an instance index other than 0 is excluded, as it is for waits and submissions; the C code does not check it.
- HandleTables.HandleTable.Insert: keys whose rounded table size does not fit 32 bits are excluded; `GrowthCoversKeyIff` is the exact condition.
- VaManagers.VaManager.FindVa: a request whose 64-bit wrap does harm on a hole the search reaches is excluded; the exclusion is exact (`SearchRightIffHarmless`), and what the C code then does to the list outside the hole is not followed.
- VaManagers.VaManager.FindVa: a manager that a size of 0 has left invalid is not followed further; `FindVa` and `FreeVa` say exactly when that happens.
- VaDevices.VaDevice.RangeAlloc: sizes that round to 0 are followed in `FindVa` and `FreeVa` for one manager, not through the routing.
- VaManagers.VaManager.constructor: the first `calloc` is taken to succeed, since the C code does not check it, and a range that ends before it starts is excluded.
- VaDevices.InitManagers: kernel data with an inverted range, or with a high window that passes 2^64, is excluded.
- BufferObjects.BoDevice.FindByCpuMapping: freeing an object through another thread between the scan and the reference is not modelled; locked regions are single calls.
- MappingIndexes.MappingIndex.Lookup: an address below every mapping is excluded; the C++ code steps back from the first entry there.
- DeviceRegistries.Registry.Initialize: the checks of a fresh device (interfaces, version, acceleration, GPU info) are one parameter; threads racing between the last release and a lookup are not modelled.
- Reference counts are unbounded integers; overflow of the 32-bit counters is not modelled.
- The GEM flink table: exports and fresh imports are not supported by the code, so it stays empty.
- Buffers from user memory: the same registration as `BufferObjects.BoDevice.Alloc` after another kernel call.
- Buffer lists, fences, syncobjs, timeouts, metadata and VA mapping calls: they forward to the kernel or return a constant error.
- Device discovery, ASIC names, register tables, tracing and dumping: input, output and constants.
