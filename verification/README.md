# Verified model of the Patina DXE core

A Dafny 4.11 model of four parts of `patina_dxe_core`, with proofs of what they promise:

- **Memory bins.** The bin manager carves one address range into bins, one per memory type, and rewrites an EFI memory map in
  place so that free memory inside a bin is reported with the bin's type. `MemoryMap` gives a map its meaning address by
  address, `BinOverlay` specifies the rewriting and proves its exact effect, `DescriptorBuffer` is the in-place code,
  `BinPlacement` and `ContiguousBinRange` are sizing and placement, `MemoryBins`, `BinUsage` and `BinManager` are the manager
  and its accounting, and `MemoryMapService` composes everything into GetMemoryMap (section 7.2.3 of UEFI 2.10).
- **Events.** `EventModel` is the event database as a value, `EventQueue` its notification queue, `EventInvariant` what every
  operation keeps, `EventRuns` whole runs, `EventTimers` any sequence of timer ticks, `EventDatabase` the object with its loops, `DeferredSignals` the locked database
  (sections 7.1.2 to 7.1.9 of UEFI 2.10).
- **Task priority levels.** `TplDispatch` is a machine for RaiseTpl, RestoreTpl and the notification functions they run.
- **Driver binding.** `DriverSearch`, `DriverCandidates` and `DriverConnect` are ConnectController for one controller,
  `DriverDisconnect` is DisconnectController (sections 7.3.12 and 7.3.13 of UEFI 2.10). Drivers are oracles whose answers
  may depend on every call made before.

## Main results

- The memory map overlay is exact at every address (`ApplyBinsExact`): type, runtime bit and the other attributes. Normal forms
  are canonical (`NormalFormUnique`), so the result does not depend on the order of the bins (`BinOrderIrrelevant`) and
  applying the bins again changes nothing (`ApplyBinsIdempotent`).
- Slack of two descriptors per bin always suffices (`ApplyBinsSize`) and can be needed (`SlackIsNeeded`); with it the buffer size that
  GetMemoryMap reports is always enough (`FetchMemoryMap`).
- A bin range that passes the sizing check gets bins inside it, disjoint, aligned and large enough (`InitializedBins`), one for
  every listed type with the pages of its last entry (`InitializedAsListed`); they keep
  every memory map valid exactly under a condition on the range (`SplitsStayValidExactly`). The block size that the core allocates for itself passes that check exactly under a condition on the list alone (`BlockSufficesExactly`).
- Over every run of the event database a live notify-signal event has one queued notification if it is signaled and
  none otherwise (`NoLostOrSpuriousNotification`), and a closed event is never signaled, checked or dispatched again
  (`ClosedForGood`).
- Over any sequence of ticks exactly those events are signaled that an expired timer of an unsignaled event reaches
  (`TicksSignal`); the ticks that fire a timer, and its deadline, are determined by the arguments of SetTimer alone
  (`TimerFires`, `FiredAtOnce`).
- In every reachable state nothing that is queued outranks running code and active notification functions have strictly
  increasing levels (`NestingBounded`); a completed RestoreTpl leaves nothing above its level (`RestoreContract`),
  and when the notification functions call no event service it has dispatched exactly the live notifications above that level,
  in queue order (`QuietRestore`).
- Deferred signals linearize (`SignalsLinearize`), and the linear order loses and reorders nothing (`LinearKeepsAll`).
- All calls of ConnectController are determined by the override sources and the drivers' answers (`ConnectDetermined`); the search
  starts no entry twice (`StartedOnce`) and
  makes at most n(n+1)/2 Supported calls (`SupportedBound`); disconnecting stops exactly the
  managing drivers in scope (`DriversToStopExactly`, `VisitExactly`), each at most once (`DisconnectStopsOnce`).

## Where the code does less than one might expect

- Free memory outside the bins can lose its runtime bit: when a free descriptor is split at the end of a bin, the part behind the
  bin is written with the runtime bit cleared. `OutsideUnchanged` gives the exact condition; for every bin there is such a map
  (`OverhangExists`) and the bit is lost in it (`RuntimeBitLost`).
- The end of the bin range is not checked to be a page boundary. `SplitsStayValidExactly`: the bins of an accepted range keep every
  memory map valid if and only if the range ends at a page boundary or its topmost bin is not kept (it is of an ordinary type, or a
  later entry of the same type replaces it). `UnalignedRange` is an accepted range that breaks a map. The overlay is proved for
  bins that satisfy the condition.
- The comment on the block size calls it a safe over-estimate. It is not, when a type without pages is aligned
  more coarsely than every type with pages, because sizing pads for entries without pages while the block size ignores them:
  `BlockCanBeTooSmall`, and `BlockSufficesExactly` for the exact condition, over all block ends that initialization accepts.
- A seed after a release can replace a higher published count: `LateSeedForgetsPeak`. `PublishedIsAllTimePeak`: the published
  count is the highest ever if and only if the levels since the last seed catch up with the earlier ones. That sequence is
  possible at the manager's interface only; the core seeds once, right after initialization (patina_dxe_core/src/allocator.rs,
  lines 1251-1252), and then the published count is always the highest ever (`SeedsThenUse`).
- A Stop call for children that succeeds does not make a disconnection successful if the following Stop call for the
  controller fails: `ChildStopIsNotEnough`. `Disconnect` has the exact condition.
- The queue comparator is a strict total order exactly on queues with one entry per event and no equal TPL and tag
  (`CompareIsOrder`, `CompareNotTransitive`). Inserting the entry of a queued event a second time is certain to find the
  queued entry, whatever entries the search probes, if and only if that entry is the last of its TPL (`AlwaysFoundExactly`).
  Notify-signal events are never inserted while they are queued (`NotQueued`). The call that can miss is a second `check_event`
  on a queued notify-wait event behind which another event of the same TPL is queued: `RepeatedCheck` has the condition on the
  queue, and `RepeatedCheckCanMiss` a run that gets there. The model takes the insertion to have no effect there too.

## Reading the model

Numbers are unbounded. `current_top` in the sizing loop may go below zero in the model; in that case more than the whole range is
needed and the range is rejected, as it is in the source when the subtraction wraps. Other 64-bit sums are taken not to overflow.
Published page counts are truncated to 32 bits. Granularities are parameters, the normal one dividing the runtime one; `x & (g - 1)`
is the remainder of `x` by `g` (`MaskIsRemainder` for the two granularities in use). The attribute word is kept as the runtime bit
and the other 63 bits (`RuntimeBit`, `UnpackInjective`). Memory maps are sorted, disjoint and page-aligned, without empty
descriptors, which is what the GCD writes. The loops over the type table, the group index and the timers run over indices or ids
in the order of the source's iterators.

## Model

| member | source | states |
|---|---|---|
| `MemoryMap.MergedValid` | patina_dxe_core/src/memory_bin.rs:717-747 | merging keeps a map sorted, disjoint and aligned, and keeps its end |
| `MemoryMap.MergedMeaning` | patina_dxe_core/src/memory_bin.rs:717-747 | merging changes the content of no address |
| `MemoryMap.MergedIsNormal` | patina_dxe_core/src/memory_bin.rs:714-747 | after merging no two neighbours can be merged |
| `MemoryMap.MergedNormal` | patina_dxe_core/src/memory_bin.rs:717-747 | merging leaves a normal form unchanged |
| `MemoryMap.NormalFormUnique` | patina_dxe_core/src/memory_bin.rs:714-747 | two normal forms with the same content at every address are the same descriptors |
| `MemoryMap.RuntimeBit` | patina_dxe_core/src/memory_bin.rs:691-698 | setting or clearing the runtime bit of an attribute word changes only the runtime attribute |
| `BinOverlay.PiecesValid` | patina_dxe_core/src/memory_bin.rs:571-651 | a split descriptor becomes a valid map of the same extent, with one extra piece per bin edge strictly inside it |
| `BinOverlay.PiecesMeaning` | patina_dxe_core/src/memory_bin.rs:571-651 | each address of a split descriptor: bin type inside, unchanged before, runtime bit cleared after |
| `BinOverlay.UnalignedEndOverlaps` | patina_dxe_core/src/memory_bin.rs:607-617 | the pieces of a descriptor that runs past the bin are a valid map if and only if the bin ends at a page boundary |
| `BinOverlay.SplitFreeIn` | patina_dxe_core/src/memory_bin.rs:548-665 | every split strictly shrinks the set of free addresses in the bin, so the restart loop terminates |
| `BinOverlay.MergedFreeIn` | patina_dxe_core/src/memory_bin.rs:551 | merging changes no free address in the bin |
| `BinOverlay.ApplyBinMeaning` | patina_dxe_core/src/memory_bin.rs:550-665 | one bin, address by address, over all restarts; with a too small buffer some addresses stay as they were |
| `BinOverlay.ApplyBinSize` | patina_dxe_core/src/memory_bin.rs:580-635 | over all restarts and merges a bin costs at most one descriptor per edge in free memory, and that slack is never exceeded |
| `BinOverlay.ApplyBinsExact` | patina_dxe_core/src/memory_bin.rs:521-669 | every address ends with exactly the overlaid type, runtime bit and other attributes |
| `BinOverlay.ApplyBinsPartial` | patina_dxe_core/src/memory_bin.rs:587-593 | in a too small buffer only free memory changes, and only to the overlaid type |
| `BinOverlay.ApplyBinsNormal` | patina_dxe_core/src/memory_bin.rs:521-669 | the result is sorted, disjoint, aligned and in normal form, whether or not the buffer was large enough |
| `BinOverlay.ApplyBinsSize` | patina_dxe_core/src/memory_bin.rs:678-688 | all bins together need at most one descriptor per bin edge in free memory, hence two per bin |
| `BinOverlay.SlackIsNeeded` | patina_dxe_core/src/memory_bin.rs:678-681 | for every bin there is a map that needs both extra descriptors |
| `BinOverlay.BinOrderIrrelevant` | patina_dxe_core/src/memory_bin.rs:529-668 | the order of the bins does not change the resulting descriptors |
| `BinOverlay.ApplyBinsIdempotent` | patina_dxe_core/src/memory_bin.rs:521-669 | applying the bins to their own result changes nothing and needs no slack |
| `BinOverlay.OutsideUnchanged` | patina_dxe_core/src/memory_bin.rs:612-617 | memory outside the bins keeps its content if and only if no free runtime memory runs out of the end of a bin |
| `BinOverlay.OverhangExists` | patina_dxe_core/src/memory_bin.rs:612-617 | every bin has a valid map in which free runtime memory runs out of its end |
| `BinOverlay.RuntimeBitLost` | patina_dxe_core/src/memory_bin.rs:612-617 | in every such map the page after the bin loses its runtime bit, with the buffer large enough |
| `DescriptorBuffer.MergeDescriptors` | patina_dxe_core/src/memory_bin.rs:717-747 | in-place merging of the live part; the rest of the buffer is untouched |
| `DescriptorBuffer.InsertDescriptorAfter` | patina_dxe_core/src/memory_bin.rs:704-712 | shifts the entries behind by one and duplicates the entry |
| `DescriptorBuffer.SplitEntry` | patina_dxe_core/src/memory_bin.rs:571-651 | the entry is replaced in place by its pieces, or nothing changes when the buffer is too small |
| `DescriptorBuffer.ApplyOneBin` | patina_dxe_core/src/memory_bin.rs:548-665 | the restart loop in place, with its termination |
| `BinManager.MemoryBinManager.ApplyBinDescriptors` | patina_dxe_core/src/memory_bin.rs:521-669 | the whole rewriting in place; exact overlay and count bound whenever the documented slack is there |
| `BinManager.MemoryBinManager.MaxAdditionalDescriptors` | patina_dxe_core/src/memory_bin.rs:682-688 | twice the number of active special bins, zero before initialization |
| `BinPlacement.CalculateTotalBinSize` | patina_dxe_core/src/memory_bin.rs:208-232 | the sizing loop, with padding for every entry and none once the top is zero |
| `BinPlacement.SizedPlacementStaysInside` | patina_dxe_core/src/memory_bin.rs:208-232 | if the sizing total fits the length, placement never goes below the start of the range |
| `BinPlacement.PlacementTiles` | patina_dxe_core/src/memory_bin.rs:317-351 | the bins tile the range downward from its end, each base the highest aligned address that leaves room for the pages |
| `BinPlacement.TilesDetermined` | patina_dxe_core/src/memory_bin.rs:317-351 | there is only one such tiling: types and pages determine every base |
| `BinPlacement.EntryPlaced` | patina_dxe_core/src/memory_bin.rs:319-327 | every entry with pages before the stop gets a bin of its type and pages, in list order; entries without pages are skipped |
| `BinPlacement.PlacedForEntry` | patina_dxe_core/src/memory_bin.rs:319-327 | every bin is for such an entry |
| `BinPlacement.MaskIsRemainder` | patina_dxe_core/src/memory_bin.rs:226-228 | masking with the granularity is taking the remainder, masking with the complement rounds down |
| `MemoryBins.InitializedBins` | patina_dxe_core/src/memory_bin.rs:303-351 | recorded bins lie in the range, are aligned, hold their pages and are pairwise disjoint, also for repeated types |
| `MemoryBins.InitializedAsListed` | patina_dxe_core/src/memory_bin.rs:317-351 | every listed type has the pages of its last entry and its bin among the special ones if it is special; all other types keep their defaults |
| `MemoryBins.TypeTable` | patina_dxe_core/src/memory_bin.rs:134-151 | special, runtime and granularity flags of all sixteen types (granularity: lines 195-203) |
| `MemoryBins.InitializedBinsOk` | patina_dxe_core/src/memory_bin.rs:317-351 | the special bins of an accepted range are page-aligned, disjoint and not of conventional type if and only if the range ends at a page boundary or its topmost bin is not kept |
| `MemoryBins.SplitsStayValidExactly` | patina_dxe_core/src/memory_bin.rs:281-351 | under the same condition, and only then, splitting any valid map at any bin of an accepted range gives a valid map |
| `MemoryBins.UnalignedRange` | patina_dxe_core/src/memory_bin.rs:281-351 | an accepted range whose bin splits a free descriptor into overlapping ones |
| `MemoryBins.RecordedLast` | patina_dxe_core/src/memory_bin.rs:317-340 | of several entries of one type the last placed bin is the recorded one |
| `BinManager.MemoryBinManager.InitializeFromRange` | patina_dxe_core/src/memory_bin.rs:281-361 | accepts a range exactly if it is the first, within the address limit and large enough; records the bins as listed; exactly when they are fit for the overlay |
| `BinManager.MemoryBinManager.PlaceBins` | patina_dxe_core/src/memory_bin.rs:317-351 | the placement loop over the statistics table, skipping entries without pages and ending at the stop |
| `BinManager.MemoryBinManager.FinalizeInformationIndex` | patina_dxe_core/src/memory_bin.rs:365-374 | every type with an entry with pages gets its own index, anywhere in the list |
| `ContiguousBinRange.ContiguousAllocSize` | patina_dxe_core/src/memory_bin.rs:239-264 | the block size, or none when no entry has pages |
| `ContiguousBinRange.BlockSuffices` | patina_dxe_core/src/memory_bin.rs:260-263 | a block with aligned end passes the sizing check when no entry without pages is coarser than all entries with pages |
| `ContiguousBinRange.AllocatedBlockAccepted` | patina_dxe_core/src/allocator.rs:1309-1341 | the block allocated at the maximum granularity is accepted under the same condition |
| `ContiguousBinRange.BlockSufficesExactly` | patina_dxe_core/src/memory_bin.rs:234-275 | all aligned blocks of the computed size that end within the address limit pass if and only if a stated condition on the list holds |
| `ContiguousBinRange.ListsAddressable` | patina_dxe_core/src/memory_bin.rs:291-301 | every list of the length and page counts of the memory type information meets the size condition of the law above |
| `ContiguousBinRange.WorstBlock` | patina_dxe_core/src/memory_bin.rs:208-232 | some aligned block attains the worst padding, ending at most one coarse unit above what it needs |
| `ContiguousBinRange.BlockCanBeTooSmall` | patina_dxe_core/src/memory_bin.rs:260-263 | a list and an aligned end for which the computed size is rejected |
| `BinUsage.RoundedUp` | patina_dxe_core/src/memory_bin.rs:85-91 | rounding gives the least multiple of the granularity that is not below the page count |
| `BinUsage.CurrentIsHeld` | patina_dxe_core/src/memory_bin.rs:438-506 | over every run with matched releases the current count is the sum of the rounded sizes still held |
| `BinUsage.PublishedIsPeak` | patina_dxe_core/src/memory_bin.rs:381-478 | over every run the published count is the highest current count since the last seed of the type |
| `BinUsage.OthersNotCounted` | patina_dxe_core/src/memory_bin.rs:438-506 | nothing is counted before initialization or for ordinary types |
| `BinUsage.PublishedIsAllTimePeak` | patina_dxe_core/src/memory_bin.rs:394-396 | the published count is the highest ever if and only if the levels since the last seed catch up with the earlier ones |
| `BinUsage.SeedsThenUse` | patina_dxe_core/src/allocator.rs:1251-1252 | when all seeds come first, as in the core, the published count is always the highest ever |
| `BinUsage.LateSeedForgetsPeak` | patina_dxe_core/src/memory_bin.rs:397-400 | a seed after a release can lower the published count |
| `BinUsage.InitializedIndex` | patina_dxe_core/src/memory_bin.rs:363-374 | listed types have their own published count, all others share the last one (sdk/patina/src/uefi/memory.rs line 23) |
| `BinUsage.InitializedConfigures` | patina_dxe_core/src/memory_bin.rs:353-374 | initialization configures every listed special type for the accounting |
| `BinManager.MemoryBinManager.SeedStatisticsFromHob` | patina_dxe_core/src/memory_bin.rs:381-409 | adds the rounded pages and publishes the count; bins unchanged |
| `BinManager.MemoryBinManager.RecordAllocation` | patina_dxe_core/src/memory_bin.rs:438-478 | adds the rounded pages and raises the published count only to a new peak; bins unchanged |
| `BinManager.MemoryBinManager.RecordFree` | patina_dxe_core/src/memory_bin.rs:483-506 | subtracts the rounded pages, never below zero; bins unchanged |
| `MemoryMapService.GetMemoryMap` | patina_dxe_core/src/allocator.rs:905-966 | the status in every case, the size written back, and on success the overlaid map within the advertised count |
| `MemoryMapService.FetchMemoryMap` | patina_dxe_core/src/allocator.rs:929-966 | asking for the size and passing a buffer of that size gives NotFound exactly when nothing is advertised, the GCD's error, or the overlaid map |
| `EventQueue.CompareIsOrder` | patina_dxe_core/src/event_db.rs:171-186 | the comparator is a strict total order, higher TPL and then earlier tag, if and only if there is one entry per event and no equal TPL and tag |
| `EventQueue.CompareNotTransitive` | patina_dxe_core/src/event_db.rs:171-186 | with two entries of one event the comparator is not transitive |
| `EventQueue.AlwaysFoundExactly` | patina_dxe_core/src/event_db.rs:389-401 | every search for the entry of a queued event with a new tag finds the queued one if and only if that is the last of its TPL |
| `EventQueue.InsertAtPlace` | patina_dxe_core/src/event_db.rs:389-401 | a new event is inserted at the one place every search leads to |
| `EventQueue.DrainExact` | patina_dxe_core/src/event_db.rs:571-590 | repeated consuming returns exactly the live notifications above the level in dispatch order and keeps the others |
| `EventInvariant.SignalGroupEffect` | patina_dxe_core/src/event_db.rs:432-451 | signaling a group marks exactly its members and keeps the invariant |
| `EventInvariant.GroupIndexRefinesScan` | patina_dxe_core/src/event_db.rs:432-451 | walking the group index equals scanning all events in reverse creation order |
| `EventInvariant.NewestFirst` | patina_dxe_core/src/event_db.rs:433-449 | of members signaled together the newer one is dispatched first at equal TPL |
| `EventInvariant.SignalEffect` | patina_dxe_core/src/event_db.rs:409-430 | signaling marks exactly the event and its group, and only if the event was not signaled |
| `EventInvariant.TickEffect` | patina_dxe_core/src/event_db.rs:541-569 | a tick disarms due one-shot timers, re-arms periodic ones at exactly time plus period, and signals exactly what a due unsignaled timer reaches |
| `EventInvariant.TickNewestFirst` | patina_dxe_core/src/event_db.rs:545-566 | of two timers that fire in one tick the newer event is queued first |
| `EventRuns.TickQueues` | patina_dxe_core/src/event_db.rs:541-569 | the notifications queued by a tick are exactly those of the newly signaled notify-signal events |
| `EventTimers.TicksSignal` | patina_dxe_core/src/event_db.rs:541-569 | over any ticks exactly those events become signaled that the timer of an unsignaled event reaches, with a tick at or after its trigger time |
| `EventTimers.TicksTimer` | patina_dxe_core/src/event_db.rs:541-569 | over any ticks every timer follows its own deadline, whatever is signaled |
| `EventTimers.RearmedExactly` | patina_dxe_core/src/event_db.rs:549-566 | the ticks that fire a timer, each the first to reach the deadline set by the one before, and the deadline they leave |
| `EventTimers.FiredAtOnce` | patina_dxe_core/src/event_db.rs:549-566 | trigger time, period and ticks determine the firing ticks |
| `EventTimers.SetTimerExactly` | patina_dxe_core/src/event_db.rs:504-539 | Ok exactly for a live timer event with times that fit the delay; then exactly its trigger time and period are the given ones |
| `EventTimers.TimerFires` | patina_dxe_core/src/event_db.rs:504-569 | after SetTimer, over any ticks, deadline and signal follow from the arguments: the firing ticks, or the timer of a group member |
| `EventRuns.RepeatedCheck` | patina_dxe_core/src/events.rs:204-226 | checking a queued notify-wait event again is certain to find its entry if and only if that is the last of its TPL |
| `EventRuns.RepeatedCheckCanMiss` | patina_dxe_core/src/events.rs:204-226 | a run after which a second check can miss the queued entry |
| `EventRuns.CheckConsumes` | patina_dxe_core/src/events.rs:204-226 | a check takes a signal once, refuses notify-signal events, and queues the notification of a waiting event |
| `EventRuns.CheckExactly` | patina_dxe_core/src/events.rs:204-226 | exactly a signaled event gives its signal, exactly an unqueued notify-wait event is queued, and nothing else changes |
| `EventRuns.RecheckExactly` | patina_dxe_core/src/events.rs:228-242 | after notifications ran, the signal is taken exactly if there is one |
| `EventModel.ParseTypeExactly` | patina_dxe_core/src/event_db.rs:75-108 | the accepted encodings are exactly the combinations of the timer and notify flags |
| `EventRuns.CreateExactly` | patina_dxe_core/src/event_db.rs:325-368 | exact acceptance, the new event field by field, everything else unchanged, and when an id is used up |
| `EventRuns.CreateRuntime` | patina_dxe_core/src/event_db.rs:341-358 | events of the virtual address change group are not added to the database |
| `EventRuns.CloseExactly` | patina_dxe_core/src/event_db.rs:376-386 | exactly the event is removed; it can be neither signaled nor checked nor closed again |
| `EventRuns.ClosedForGood` | patina_dxe_core/src/event_db.rs:376-386 | whatever calls follow a close, no service accepts the event and no dispatch takes its notification |
| `EventRuns.DispatchExactly` | patina_dxe_core/src/events.rs:315-338 | a dispatch clears only the signal of the notify-signal event it takes, and every other live entry stays queued |
| `EventRuns.RunInv` | patina_dxe_core/src/event_db.rs:325-590 | every run of API calls and dispatches keeps the invariant |
| `EventRuns.NoLostOrSpuriousNotification` | patina_dxe_core/src/event_db.rs:409-473 | over every run a live notify-signal event has one queued notification if signaled, none otherwise |
| `EventRuns.GroupIndexExact` | patina_dxe_core/src/event_db.rs:361-382 | over every run the group index is exactly the live events with a group |
| `EventRuns.RetiredForever` | patina_dxe_core/src/event_db.rs:342-386 | ids are never reused, so stale queue entries never come back to life |
| `EventRuns.DispatchPicksFirst` | patina_dxe_core/src/event_db.rs:571-590 | dispatch takes the live notification before all others if it is above the level; otherwise none is |
| `EventDatabase.EventDb.CreateEvent` | patina_dxe_core/src/event_db.rs:325-368 | validation, id assignment before validation, the new event and the group index; keeps the invariant |
| `EventDatabase.EventDb.CloseEvent` | patina_dxe_core/src/event_db.rs:376-386 | removes the event and its index entry, leaving queue entries behind; keeps the invariant |
| `EventDatabase.EventDb.SignalEvent` | patina_dxe_core/src/event_db.rs:409-430 | signals the event or its group; keeps the invariant |
| `EventDatabase.EventDb.SignalGroup` | patina_dxe_core/src/event_db.rs:432-451 | the loop over the group index, newest first |
| `EventDatabase.EventDb.SetTimer` | patina_dxe_core/src/event_db.rs:504-539 | argument checks per delay type and the timer fields; keeps the invariant |
| `EventDatabase.EventDb.TimerTick` | patina_dxe_core/src/event_db.rs:541-569 | the loop over the events, newest first |
| `EventDatabase.EventDb.ConsumeNextEventNotify` | patina_dxe_core/src/event_db.rs:571-590 | drops stale entries at the front, then takes the first entry above the level |
| `EventDatabase.EventDb.DispatchNext` | patina_dxe_core/src/events.rs:315-338 | takes a notification and clears its signal; keeps the invariant |
| `EventDatabase.EventDb.CheckEvent` | patina_dxe_core/src/events.rs:204-226 | the part of a check before notifications run; keeps the invariant |
| `DeferredSignals.SignalsLinearize` | patina_dxe_core/src/event_db.rs:622-641 | every interleaving of critical sections and arriving signals equals a linear order in which no signal is lost or reordered |
| `DeferredSignals.LinearKeepsAll` | patina_dxe_core/src/event_db.rs:622-641 | the linear order holds all work and all signals, each in its own order, and nothing else |
| `DeferredSignals.SectionThenSignals` | patina_dxe_core/src/event_db.rs:718-749 | one critical section: its work, then its signals in arrival order |
| `DeferredSignals.ClosedEventsIgnored` | patina_dxe_core/src/event_db.rs:622-635 | deferred signals that name a closed event have no effect |
| `DeferredSignals.SpinLockedEventDb.SignalEvent` | patina_dxe_core/src/event_db.rs:718-731 | signals now with the database's status, or defers and reports Ok; deferred signals are processed on release |
| `DeferredSignals.SpinLockedEventDb.SignalGroup` | patina_dxe_core/src/event_db.rs:738-749 | the same for a group |
| `DeferredSignals.SpinLockedEventDb.Unlock` | patina_dxe_core/src/event_db.rs:622-641 | processes the deferred signals in order and empties the list |
| `TplDispatch.NextInv` | patina_dxe_core/src/events.rs:274-353 | every step of code and of the dispatch loop keeps levels, interrupt flag, stack and queue consistent |
| `TplDispatch.NestingBounded` | patina_dxe_core/src/events.rs:296-353 | in every reachable state active notification functions have strictly increasing levels, at most 27 deep, and no live queued notification outranks running code |
| `TplDispatch.StartsAtOwnLevel` | patina_dxe_core/src/events.rs:325-344 | a notification function starts at its notify TPL, above the target level, with its signal cleared |
| `TplDispatch.InnerRestoreIdle` | patina_dxe_core/src/events.rs:309-338 | the lock releases inside the loop dispatch nothing |
| `TplDispatch.RestoreContract` | patina_dxe_core/src/events.rs:290-353 | a completed RestoreTpl that lowers the level ends at that level with interrupts on, nothing live queued above it and no notify-signal event above it signaled |
| `TplDispatch.LowerContract` | patina_dxe_core/src/events.rs:290-353 | RestoreTpl from call to return: level, interrupts, stack and queue, also when the level is unchanged |
| `TplDispatch.RaiseContract` | patina_dxe_core/src/events.rs:274-288 | RaiseTpl sets the level and turns interrupts off exactly at the high level; nothing else changes |
| `TplDispatch.CallContract` | patina_dxe_core/src/tpl_mutex.rs:26-34 | an event service does its work and returns at the level of its caller, with nothing above it left |
| `TplDispatch.RaiseRestore` | patina_dxe_core/src/events.rs:274-353 | raising and restoring the level is neutral and dispatches nothing |
| `TplDispatch.QuietRestore` | patina_dxe_core/src/events.rs:309-353 | when notification functions call no event service, RestoreTpl dispatches exactly the live notifications above its level in queue order and keeps the live ones at or below it |
| `TplDispatch.QuietRestoreDrains` | patina_dxe_core/src/events.rs:296-353 | from the call on, what RestoreTpl dispatches is what draining the queue takes |
| `DriverSearch.ConnectCandidates` | patina_dxe_core/src/driver_services.rs:242-299 | each Start goes to the first remaining candidate that reports support, the last sweep finds none, and the result is Ok exactly if a Start succeeded or the path is at its end |
| `DriverSearch.StartedOnce` | patina_dxe_core/src/driver_services.rs:246-284 | started entries and remaining entries together are the candidates |
| `DriverSearch.SupportedBound` | patina_dxe_core/src/driver_services.rs:246-284 | n candidates cost at most n(n+1)/2 Supported calls |
| `DriverSearch.SearchDetermined` | patina_dxe_core/src/driver_services.rs:242-284 | the drivers' answers determine the whole search |
| `DriverCandidates.BuildCandidates` | patina_dxe_core/src/driver_services.rs:217-240 | five segments in precedence order, each its source in order with all repeats, without what earlier sources contributed; the last in descending version |
| `DriverCandidates.SegmentsDetermined` | patina_dxe_core/src/driver_services.rs:217-240 | the sources determine the segments |
| `DriverCandidates.BindingsForConcat` | patina_dxe_core/src/driver_services.rs:30-40 | bindings come in the order of their handles |
| `DriverCandidates.FamilyOverrideHandles` | patina_dxe_core/src/driver_services.rs:77-108 | strictly descending versions, for every declared version its last handle |
| `DriverCandidates.FamilyOrderDetermined` | patina_dxe_core/src/driver_services.rs:77-108 | the handles and versions determine the order |
| `DriverConnect.ConnectSingleController` | patina_dxe_core/src/driver_services.rs:210-300 | the candidates are the five sources in precedence order without repeats of earlier ones, family overrides by descending version; the calls are those of the restarting search over this list; every installed binding was started or refused; bounds and result |
| `DriverConnect.ConnectDetermined` | patina_dxe_core/src/driver_services.rs:210-300 | override sources and drivers' answers determine all calls |
| `DriverConnect.ContextFirst` | patina_dxe_core/src/driver_services.rs:217-248 | a supported context override is started before anything else is called |
| `DriverDisconnect.StopDriver` | patina_dxe_core/src/driver_services.rs:482-567 | what one driver gets, given the current database |
| `DriverDisconnect.DriversToStopExactly` | patina_dxe_core/src/driver_services.rs:451-477 | exactly the drivers that have the controller open by driver, or the named one among them, each once, in the order of their first entries |
| `DriverDisconnect.VisitExactly` | patina_dxe_core/src/driver_services.rs:482-567 | skipped, refused or stopped exactly by the open entries; the Stop calls name exactly the children asked for and carry the driver's answers |
| `DriverDisconnect.AllVisited` | patina_dxe_core/src/driver_services.rs:481-571 | unless a binding vanishes, every driver in scope is visited |
| `DriverDisconnect.VisitKeepsProtocol` | patina_dxe_core/src/driver_services.rs:546-571 | at most one Stop for children, then at most one for the controller, only after the former succeeded; the last status counts |
| `DriverDisconnect.NamedChild` | patina_dxe_core/src/driver_services.rs:517-566 | with a named child only it is stopped, and the controller only if it was the only child |
| `DriverDisconnect.DisconnectStopsOnce` | patina_dxe_core/src/driver_services.rs:451-572 | whatever Stop does to the database, every driver gets at most one Stop of each kind |
| `DriverDisconnect.Disconnect` | patina_dxe_core/src/driver_services.rs:431-576 | parameter errors; otherwise every Stop is in scope, InvalidParameter for a vanished binding, Ok exactly if there was no driver or some driver's last Stop succeeded, else the last error |
| `DriverDisconnect.ChildStopIsNotEnough` | patina_dxe_core/src/driver_services.rs:561-571 | when the driver can stop its one child but not the controller, whatever Disconnect returns is that error |

## Left out

- The GCD: only the promise that it fills a well-formed map of at most the advertised number of descriptors is used.
- Raw pointers, null checks other than that of the memory map buffer, map keys, logging and the debugger poll.
- The `virtual_start` field of descriptors: it is copied along and never read here.
- 64-bit overflow of addresses, counts and times other than as described above.
- HOB parsing, `find_memory_type_info_resource_hob`, `seed_bin_statistics_from_hobs` and `reserve_bin_ranges`.
- Runtime events: creation hands them to the runtime module, whose answer is a parameter; ids with the runtime tag are unknown to the model.
- Hardware interrupts, threads, `wait_for_event`, and signals that arrive while the list of deferred signals is itself locked (those are dropped by the source).
- BTreeSet itself: insertion is taken to have no effect whenever the event is queued, also where a search may miss the entry (`RepeatedCheck`).
- Panics: raising to a lower level, restoring to a higher one, re-entrant locking, an open-by-driver entry without an agent.
- `TplDispatch.RestoreContract`: states nothing about runs that never return, because a notification function may signal its own event forever.
- Recursive connection of child controllers and `authenticate_connect`.
- The sort of driver bindings by version: any sorting by descending version is accepted.
