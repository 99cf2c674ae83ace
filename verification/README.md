# System Monitor: verified models

Models of the stateful protocols and algorithms of System Monitor, in Dafny, with proofs of what
each of them keeps. Verify all of them with `dafny verify dfyconfig.toml`.

| files | what they model |
|---|---|
| `RecencyOrder`, `HistoryStore`, `HistoryIngest`, `HistoryActivity`, `HistoryMerge`, `HistoryModel` | App History: the bounded table of applications, its two ways of evicting, the streaming loader, delta accounting per process instance, what its records tell, and the merge of the asynchronously loaded file |
| `SaveCoordinator`, `HistoryPersistence`, `HistorySaving`, `HistorySavingProgress`, `HistorySavingRuns` | saving it: detached workers that share a mutex and two atomic generations, and the main thread's dirty, pending, coalesced, stopping and closing flags |
| `Decimal`, `HistoryFile` | the tab-separated file, printed and streamed back |
| `SamplerHandoff`, `SampleSchedule`, `SamplerTopology` | the hand-off between the sampling thread and the user-interface thread, when a sample scans the topology, and both together |
| `ProcessTree`, `ProcessForest` | the visible rows and the tree of the Details page over an arbitrary parent relation |
| `HciFrame`, `HciLedger`, `HciDevice`, `HciRefresh`, `HciListed` | the Bluetooth monitor's frames, the link table with its byte counters, what a refresh displaces in it, and which listed links keep their bytes |
| `MountInfo`, `MountInfoReader`, `MountInfoKernel`, `MountInfoRecovery` | the mountinfo parser, as functions of a line and as the loops that cut it in place, the kernel's lines, and which mounts are recovered from them |
| `HidppTable`, `HidppWorker` | the HID++ battery cache and the query that runs without its lock |
| `UnitLookup` | finding an application from a control group path |
| `ColumnLayout`, `LayoutFile`, `LayoutReading`, `LayoutText` | the saved column layout and the moves that restore it |
| `Basics` | options, saturating sums, text positions, pigeonhole |

Code that changes things in place is modelled by classes and methods over arrays, maps and
sequences; each method is tied to a function of the old state, and the lemmas are about those
functions. Threads are step relations: one step for each section under a mutex, each atomic access
and each stretch of unlocked work, and the theorems quantify over all sequences of steps. A
class beside a step relation carries the state of the protocol as a ghost field and shows that its
methods are those steps.

## What the models showed

Where a natural claim is false of the code, the code was kept, a run or input shows the failure,
and the condition under which the claim holds is proved.

- The mutation generation stops at its maximum (src/history.c:312). A flush then reports success,
  but the file holds the change if and only if that generation had not been written before
  (`HistorySaving.FlushWorksUntilSaturation`; `HistorySavingRuns.LastChangeIsLost`).
- A record whose key starts with `#` is written and silently skipped on reload
  (src/history.c:371; `HistoryFile.ParseSavedLine`, `HistoryFile.HashedRecordIsLost`);
  `HistoryFile.SaveAndReload` says exactly when every record of a file comes back.
- A reset made while the initial load is pending is merged over; it lasts if and only if there is
  no load to come or nothing to load (`HistoryMerge.ResetDuringLoadIsUndone`,
  `HistoryMerge.ResetLastsUnlessLoading`).
- A forced topology is lost when the clock has not advanced (src/monitor_backend_linux.c:158;
  `SampleSchedule.ForcedScanNeedsTheClock`, `SamplerTopology.RequestIsScanned`).
- An empty snapshot can still trim, without marking the model dirty, and after a failed initial
  load the model is clean although the file may differ (`HistorySavingRuns.TrimmedModelLooksClean`,
  `HistorySavingRuns.FailedLoadLooksClean`); `HistorySaving.CleanMeansSaved` is exact about both.
- A refresh of a full Bluetooth table can take the slot of a link that the same list names later
  (`HciRefresh.RefreshCanLoseListedLink`); `HciRefresh.RefreshTakesExactly` says when a refresh
  takes any slot, and `HciListed.ListedLinkKeepsBytes` counts in advance which listed links keep
  their bytes.
- The kernel leaves vertical tab, form feed and carriage return as they are, and the mountinfo
  parser takes them for separators: a mount point is cut there
  (`MountInfoRecovery.BareSpaceIsMisread`, `MountInfoRecovery.MountPointWithReturn`), and a source
  that is empty or cut in two makes the whole visit fail (`MountInfoRecovery.SourceMustBeOneWord`,
  `MountInfoRecovery.VisitMounts`). `MountInfoRecovery.KernelLineIsRecovered` says exactly which
  mounts are recovered.
- HID++ paths of 512 bytes or more can be stored twice (`HidppTable.LongPathIsStoredTwice`,
  exactly when: `HidppTable.DistinctUnlessCut`), and their slots never survive a replacement
  (`HidppTable.SurvivorPath`).

## Model

| member | source | states |
|---|---|---|
| RecencyOrder.OlderIsTotal | src/history.c:130-138 | of two records with different keys exactly one is older: last use, then first use, then key decide, so eviction never depends on table order |
| RecencyOrder.OlderIsTransitive | src/history.c:130-138 | the age order is transitive |
| RecencyOrder.OlderMeans | src/history.c:130-138 | a record is older exactly when it was last used earlier, or then first seen earlier, or then has the smaller byte at the first position where the keys differ, the end of a key being smallest |
| RecencyOrder.SortByRecency | src/history.c:181-187 | the sorted candidate array is ascending and holds the same records |
| HistoryStore.TrimIsUnique | src/history.c:189-249 | evicting the n oldest unprotected records has one outcome: the sorting trim and the repeated removal evict the same set |
| HistoryStore.TrimKeepsTheRightRecords | src/history.c:189-249 | after a trim every record live in the protected generation is still there, at most 4096 records are left or only protected ones, and each kept unprotected record is newer than each dropped one |
| HistoryStore.TrimKeepsLatest | src/history.c:189-249 | no record that a trim evicts was used later than an unprotected one that it keeps |
| HistoryStore.NewestAreLatest | src/history.c:411-438 | no record that the loader drops was used later than one that it keeps |
| HistoryStore.TrimChanges | src/history.c:189-249 | applying the bound changes a table if and only if it is over the limit and has a record that may go, and then makes it smaller |
| HistoryStore.TrimTwice | src/history.c:189-249 | applying the bound a second time changes nothing |
| HistoryStore.SortedPrefixIsTrim | src/history.c:217-245 | evicting a prefix of the age-sorted candidates is such a trim |
| HistoryStore.TrimOneMore | src/history.c:168-179 | evicting the single oldest unprotected record extends a trim by one, which makes the loop of single evictions a trim as well |
| HistoryStore.LoadStepKeepsNewest | src/history.c:411-438 | one more record with a new key leaves exactly the 4096 newest of all records streamed so far |
| HistoryStore.AllKept | src/history.c:411-438 | below the bound no streamed record is missing |
| HistoryStore.DroppedWhenOver | src/history.c:411-438 | above the bound a streamed record is missing |
| HistoryModel.Model.OldestKey | src/history.c:140-166 | finds the oldest unprotected record, and none exactly when there is none |
| HistoryModel.Model.RemoveOldest | src/history.c:168-179 | removes exactly that record and keeps the count equal to the table's size |
| HistoryModel.Model.TrimToLimit | src/history.c:189-249 | both ways of trimming, with and without memory for the candidate array, leave the same table, and no unprotected record in it was last used before an evicted one |
| HistoryModel.Model.LoadRecord | src/history.c:411-438 | a record replaces its namesake, finds room, replaces the oldest record it is newer than, or is dropped; the result tells whether a record was lost |
| HistoryModel.Model.LoadRecords | src/history.c:456-510 | of a stream with different keys the newest 4096 are kept, none of them last used before a dropped one, and a loss is reported if and only if a record was dropped |
| HistoryModel.Model.Reset | src/history.c:1109-1128 | empties records and samples and marks the model changed |
| HistoryModel.Model.MarkDirty | src/history.c:309-315 | sets the dirty flag and advances the mutation generation up to its maximum |
| HistoryModel.Model.Ingest | src/history.c:930-1025 | a snapshot observes every row, forgets samples older than two generations, trims with the live generation protected, and marks the model dirty unless the snapshot was empty |
| HistoryModel.Model.ObserveRow | src/history.c:949-1000 | one process row credits its application and replaces its sample as the accounting function says |
| HistoryIngest.IngestConserves | src/history.c:930-1013 | after every run, what an application's retained record holds plus what its evicted records held equals the growth its processes showed between observations at most three generations apart, for CPU, read and written bytes below their caps |
| HistoryActivity.RecordsTell | src/history.c:949-1000 | after every run a retained record tells what the observations since its creation say: as active time the pauses before the snapshots that show its application, the memory of its rows in the last of these and the most in any of them, the time of its first row and of the last one that was busy or had grown, and the names of the row that created it |
| HistoryActivity.ActiveTimeCounts | src/history.c:937-942 | active time adds up the clock times between one snapshot and the next one, which shows the application, where the clock did not go back and at most a minute passed |
| HistoryActivity.PresentIsActive | src/history.c:937-942 | an application that every snapshot shows, never more than a minute apart, has been active from its first snapshot to its last |
| HistoryIngest.ReusedPidHasNoBaseline | src/history.c:979-1000 | a (pid, instance) pair that no observation of the run has had consumes nothing on first sight, whatever held its pid earlier |
| HistoryIngest.ObserveCredits | src/history.c:949-1000 | a row credits its own application with what the observation is worth and no other application with anything |
| HistoryIngest.PrunedRemembers | src/history.c:921-927 | pruning leaves exactly the latest observations that are still young enough |
| HistoryIngest.EmptySnapshotTrims | src/history.c:1009-1015 | an empty snapshot leaves the records alone if and only if they are within the limit or none may be evicted |
| HistoryMerge.MergeCommutesWithIngest | src/history.c:558-601 | for a run from an empty model, at the start or after a reset, that evicts nothing, ingesting first and merging the file afterwards gives the same applications, bytes and peak memory as loading first; all totals agree if and only if the merged durations stay within their cap |
| HistoryMerge.MergedTimes | src/history.c:590-600 | a merged record has the earliest known first and the latest last use of both, and the names and current memory of the one that is live |
| HistoryMerge.ResetDuringLoadIsUndone | src/history.c:603-635 | after a reset made while the load is pending, any run that evicts nothing, and the merge, every loaded record is back with its totals added to those of the run, as if the file had been loaded in place of the reset |
| HistoryMerge.ResetLastsUnlessLoading | src/history.c:1109-1128 | a reset lasts in every run, through the merge and the retention bound applied after it, if and only if no load is pending or the loaded history is empty |
| HistoryMerge.EvictsNothing | src/history.c:189-249 | a run whose applications all fit the bound evicts none |
| HistoryModel.Model.MergeLoaded | src/history.c:558-601 | the merge adds every loaded record to the model, trims with the live generation protected, and marks the model dirty exactly when the file was truncated or a record was trimmed |
| SaveCoordinator.PublicationsAreOrdered | src/history_persistence.c:220-290 | in every interleaving of any number of requests the published generations strictly increase and, whenever the mutex is free, the recorded generation is that of the file, failed and skipped writes included |
| SaveCoordinator.MutexExcludes | src/history_persistence.c:263-287 | at most one request is between lock and unlock |
| SaveCoordinator.FreedOnceAndLast | src/history_persistence.c:71-88 | the coordinator is freed exactly when its owner and all requests have released it, and no step touches it afterwards |
| SaveCoordinator.FileChangesOnlyForward | src/history_persistence.c:263-287 | the file changes only when a request that is neither outdated nor already covered replaces it with its own snapshot |
| SaveCoordinator.RunAloneEnds | src/history_persistence.c:220-290 | an undisturbed request ends having replaced the file and recorded its generation, or having changed neither, as its checks and its write decide |
| SaveCoordinator.StepIsSound | src/history_persistence.c:220-290 | every step of every request keeps the protocol's invariant |
| HistoryPersistence.SharedCoordinator.constructor | src/history_persistence.c:56-69 | a new coordinator is the initial state of the protocol |
| HistoryPersistence.SharedCoordinator.CreateRequest | src/history_persistence.c:142-203 | a request captures snapshot and generation and takes a reference |
| HistoryPersistence.SharedCoordinator.FreeRequest | src/history_persistence.c:205-212 | freeing a request drops its reference; the result says whether it was the last |
| HistoryPersistence.SharedCoordinator.NoteScheduled | src/history_persistence.c:90-97 | stores the given generation as the scheduled one, as the protocol's step does |
| HistoryPersistence.SharedCoordinator.IsOutdated | src/history_persistence.c:226-233 | the unlocked check skips exactly the outdated and the covered requests |
| HistoryPersistence.SharedCoordinator.PublishLocked | src/history_persistence.c:263-287 | the locked section takes a prepared request through the protocol's steps to the same state |
| HistorySaving.CleanMeansSaved | src/history.c:691-794 | over all runs of changes, empty snapshots, load, asynchronous, coalesced and shutdown saves, with room in the mutation generation and no load pending, the file holds exactly a model marked clean if and only if the load was merged, something was saved or the file was empty, and no empty snapshot has evicted records since the file's snapshot was taken |
| HistorySaving.CleanMeansSavedBelowTheLimit | src/history.c:691-794 | in runs where no empty snapshot finds the table over its limit with a record it may evict, the first half of that condition decides |
| HistorySaving.EmptySnapshotEvicts | src/history.c:1009-1015 | an empty snapshot evicts records exactly when it finds the table over its limit with a record it may evict, and marks nothing |
| HistorySavingRuns.FailedLoadLooksClean | src/history.c:603-635 | a run: the initial load of a file with records fails, and the empty model is marked clean |
| HistorySavingRuns.EmptySnapshotLooksClean | src/history.c:1009-1015 | a run for any model over its limit with a record that may go: saved, it is trimmed by an empty snapshot and stays marked clean |
| HistorySavingRuns.TrimmedModelLooksClean | src/history.c:1009-1015 | a run from the first start: 4097 records are saved, an empty snapshot trims them, and the smaller model is marked clean beside the file |
| HistorySaving.CoalescedSaveIsOwed | src/history.c:691-794 | a save asked for while another or the load is pending is still owed to a completion that will come, or the shutdown flag is set, after which completions resume nothing and the flush is to come |
| HistorySaving.OwedSaveStarts | src/history.c:691-721 | in every run the completion of the load or save that such a save waits for pays it: it starts a save of the model and generation of that moment, unless nothing is left to save, there is no memory for a request, or shutdown has begun |
| HistorySaving.SaveIsStartedOrOwed | src/history.c:723-794 | asking for a save of a changed model starts one with the model and generation of that moment, or leaves it owed while a load or save is under way; only a lack of memory drops it |
| HistorySavingProgress.NoSaveUnasked | src/history.c:691-721 | otherwise the end of a load or save starts none |
| HistorySavingProgress.SaveClears | src/history.c:691-721 | in every run a completed save leaves a dirty model dirty if and only if it did not write its snapshot, or the model was marked since the save began and had a generation left to say so |
| HistorySavingProgress.MergeIsPossible | src/history.c:558-601 | whatever the merge makes of the model and the file is one of the load events of these runs |
| HistorySavingProgress.FlushReleases | src/history.c:1181-1225 | after an undisturbed flush the coordinator is released, and the file stays as it is |
| HistorySaving.FlushIsDurable | src/history.c:1181-1225 | once the shutdown flush left the model clean, the file holds the final model for ever, whatever detached workers still do, if and only if that condition holds then |
| HistorySaving.FlushWorksUntilSaturation | src/history.c:309-315 | a change followed by an undisturbed flush always ends clean, and the file holds the change if and only if the greatest generation had not been written before |
| HistorySavingRuns.LastChangeIsLost | src/history.c:309-315 | a run from the first start: as many changes as the generation can count, one save, and a last change that the shutdown flush reports as saved and the file does not hold |
| HistorySaving.EventIsConsistent | src/history.c:603-635 | every event of main thread and workers keeps the relation of model, flags, requests and file |
| HistorySaving.CompletedKeepsData | src/history.c:691-721 | the completion of a save keeps that relation: it may clear the dirty flag only for the generation it captured |
| HistoryFile.CopyRecordString | src/history_persistence.c:129-140 | copies a string with tab, CR and LF turned into blanks and nothing else in the buffer changed |
| HistoryFile.Serialise | src/history_persistence.c:239-261 | the loop appends exactly header and lines of the file |
| HistoryFile.LineIs | src/history_persistence.c:239-261 | the order of the eleven columns of a line and the form of each |
| HistoryFile.ReadLine | src/history.c:456-510 | one pass of the reading loop takes a line, or all of a line too long for its buffer, and stands behind it |
| HistoryFile.LastLineNeedsNoNewline | src/history.c:475-490 | a file is read alike with and without a newline behind its last line |
| HistoryFile.LoadLine | src/history.c:369-439 | a comment, malformed or record line has the effect of the loader's step |
| HistoryFile.LoadText | src/history.c:456-510 | of the rows of any file with different keys the newest are kept; a loss is reported exactly when a row was dropped, malformed or too long |
| HistoryFile.ParseSavedLine | src/history.c:369-409 | a saved line gives back its record if and only if its key does not start with a hash sign; otherwise it is skipped silently |
| HistoryFile.ShortLinesAreRejected | src/history.c:369-409 | a line is skipped silently exactly when it is empty or starts with a hash sign, and counts as lost with fewer than eleven columns |
| HistoryFile.SavedFileReloads | src/history_persistence.c:239-261 | the rows of a saved file are the saved records in order, without those whose key starts with a hash sign or whose line does not fit the reader's buffer; something in it counts as lost if and only if a line does not fit |
| HistoryFile.SaveAndReload | src/history.c:456-510 | reloading a saved history gives back every record, with blanks for separators and seconds at six decimals, if and only if they are at most 4096, no key starts with a hash sign and no line is too long; a loss is reported if and only if more than 4096 remain or a line is too long, so that a hash sign loses its record silently |
| HistoryFile.HashedRecordIsLost | src/history.c:371-371 | a file: one saved record with a key that starts with a hash sign reloads as an empty history, with no loss reported |
| HistoryFile.RoundingIsSmallAndOnce | src/history_persistence.c:239-261 | for records with finer durations, saving and reloading changes a duration by at most half a microsecond, separators in texts to blanks, no counter and no time, and a second time changes nothing |
| HistoryFile.ReloadedFields | src/history.c:369-439 | what each field of a saved record is reloaded as |
| Decimal.ParsePrintedSeconds | src/history_persistence.c:239-261 | six-decimal seconds are read back exactly |
| Decimal.ParsePrintedInt | src/history.c:369-409 | signed 64-bit numbers are read back exactly |
| SamplerHandoff.BufferIsNeverShared | src/monitor_backend_linux.c:242-287 | in every interleaving at most one of the three flags holds and the user-interface thread never copies the buffer while the worker writes it |
| SamplerHandoff.SamplesArePublishedInOrder | src/monitor_backend_linux.c:380-407 | in every interleaving the samples that the worker finished before the stop request, in that order, are those published and then the one waiting, if any; after an update none waits |
| SamplerHandoff.UpdatePublishesSample | src/monitor_backend_linux.c:270-287 | such a sample has been published, as the one it is, by the first update after it |
| SamplerHandoff.UpdateKeepsTheWorkerBusy | src/monitor_backend_linux.c:380-407 | after an update exactly one of a pending request and a running sample exists and nothing waits to be published |
| SamplerHandoff.FreedOnceAndLast | src/monitor_backend_linux.c:220-240 | backend and sampler are freed exactly when both holders released them, and no step follows |
| SamplerHandoff.RequestIsCarried | src/monitor_backend_linux.c:409-432 | a sample carries a forced topology if and only if one was asked for since the last sample started, so a request made at any moment is carried by the next sample to start |
| SamplerHandoff.RequestWakesTheWorker | src/monitor_backend_linux.c:409-432 | after such a request the worker has something to do or a finished sample waits, which the request leaves alone |
| SamplerHandoff.PhasesFollowActions | src/monitor_backend_linux.c:242-305 | in every interleaving each thread is where its own last action left it |
| SamplerHandoff.StoppedWorkerEnds | src/monitor_backend_linux.c:242-287 | once stop was requested no sample is started, and a worker that is not gone has a step to take that brings it nearer to its end |
| SamplerHandoff.StepIsSound | src/monitor_backend_linux.c:220-305 | every atomic step of either thread keeps the invariant of flags, samples and references |
| SamplerHandoff.SamplerState.constructor | src/monitor_backend_linux.c:307-378 | initialisation starts with one pending request and one reference |
| SamplerHandoff.SamplerState.StartWorker | src/monitor_backend_linux.c:364-376 | the worker's reference exists before the thread and is given back when there is none |
| SamplerHandoff.SamplerState.Release | src/monitor_backend_linux.c:220-240 | drops one reference; the last one frees |
| SamplerHandoff.SamplerState.UpdateMonitor | src/monitor_backend_linux.c:380-407 | publishes a waiting sample, so that the monitor shows the latest one published, then asks for another unless one is under way |
| SamplerHandoff.SamplerState.RequestTopologyRefresh | src/monitor_backend_linux.c:409-432 | records the request and wakes the worker only when no sample would be overwritten |
| SamplerHandoff.SamplerState.TakeOrStop | src/monitor_backend_linux.c:242-270 | the worker's section before sampling is the take step, or the stop step when stop was requested |
| SamplerHandoff.SamplerState.Complete | src/monitor_backend_linux.c:270-287 | the section after sampling makes the sample ready unless the clock stood still or stop was requested |
| SamplerHandoff.SamplerState.Destroy | src/monitor_backend_linux.c:289-305 | stop request and release of the owner's reference |
| SampleSchedule.ForcedScanNeedsTheClock | src/monitor_backend_linux.c:153-218 | a forced topology is honoured if and only if the clock has advanced since the last sample; otherwise it is lost |
| SamplerTopology.RequestIsScanned | src/monitor_backend_linux.c:242-287 | end to end: a topology request made at any moment is scanned by the next sample to start if and only if the clock has advanced since the last one; otherwise that sample leaves the schedule alone and the request is forgotten |
| SampleSchedule.NextScanAfterPause | src/monitor_backend_linux.c:153-218 | after any scan an unforced sample scans again exactly when the pause its outcome calls for is over, whatever samples came between |
| SampleSchedule.QuietSamplesKeepNextScan | src/monitor_backend_linux.c:153-218 | samples that do not scan leave the time of the next scan alone |
| SampleSchedule.BackOff | src/monitor_backend_linux.c:145-151 | success resets the pause, failure lengthens it, never beyond the regular interval |
| SampleSchedule.PauseDoubles | src/monitor_backend_linux.c:145-151 | the pause after the n-th failure in a row is one second doubled n - 1 times, and five seconds at most |
| SampleSchedule.FailuresCount | src/monitor_backend_linux.c:197-212 | after failed scans alone the count of failures is their number |
| SampleSchedule.BatteriesAreReadEveryFiveSeconds | src/monitor_backend_linux.c:173-175 | batteries are read by the first sample at least five seconds after the last reading and by none before |
| SampleSchedule.Backend.SampleOnce | src/monitor_backend_linux.c:153-218 | the fields after a sample are those of the schedule |
| ProcessTree.WalkIsShort | src/details_page.c:461-479 | whatever a walk over parents meets it meets within as many steps as there are rows, cycles included |
| ProcessTree.MetIsAbove | src/details_page.c:461-479 | a walk stopped by a missing parent, by a row that is its own parent, or by the guard has met all ancestors |
| ProcessTree.ShownIsClosed | src/details_page.c:451-479 | directly visible rows are shown and with a shown row its parent |
| ProcessTree.ShownIsLeast | src/details_page.c:451-479 | every set with that property holds all shown rows |
| ProcessTree.BuildIndex | src/details_page.c:451-456 | the pid table holds exactly the pids of the rows, without pid 0 and pids beyond 32 bits, each with the last row that has it |
| ProcessTree.PidIndexIsComplete | src/details_page.c:451-456 | a pid is found if and only if some row has it, and its row is the last one that does |
| ProcessTree.ParentIsLastRow | src/details_page.c:461-479 | a row has a parent if and only if some row has the pid of its parent process, and it is the last such row |
| ProcessTree.MarkVisible | src/details_page.c:461-479 | the guarded loops mark exactly the shown rows |
| ProcessForest.Builder.AppendRecursive | src/details_page.c:367-392 | terminates on every parent relation, appends the row after its parent unless that one waits for it, and leaves everything placed before in place |
| ProcessForest.Builder.AppendAll | src/details_page.c:492-498 | the tree holds every shown row exactly once |
| ProcessForest.Builder.IndexForPid | src/details_page.c:358-365 | pid 0 and pids beyond 32 bits have no row |
| ProcessForest.Rebuild | src/details_page.c:432-498 | the whole rebuild: shown rows as defined, each placed once, parents before children, roots only without a shown parent or on a cycle |
| ProcessForest.RootAbove | src/details_page.c:367-392 | every row hangs below a root through its own ancestors |
| ProcessForest.TreeIsParentRelation | src/details_page.c:367-392 | off the cycles a row's parent in the tree is its process' parent exactly when that one is shown and another row |
| ProcessForest.OneRootPerCycle | src/details_page.c:367-392 | among the rows of a shown cycle exactly one becomes a root |
| ProcessForest.ChainClosesCycle | src/details_page.c:375-384 | a row whose parent is still being inserted is on a cycle, and all rows of that cycle are being inserted |
| HciFrame.FramesAreParsed | src/bluetooth_traffic.c:95-145 | every ACL, SCO and ISO data record is recognised, with padding inside and bytes behind it, and gives controller, handle, direction and payload size |
| HciFrame.OnlyFramesAreParsed | src/bluetooth_traffic.c:95-145 | accepted bytes are such a record with those fields |
| HciLedger.SameStringSameDevice | src/bluetooth_traffic.c:85-93 | printed addresses equal but for case are the same device |
| HciLedger.RunIsSound | src/bluetooth_traffic.c:151-176 | in every run used slots belong to different (controller, handle) pairs, and only used slots are active |
| HciLedger.CountersAreSums | src/bluetooth_traffic.c:178-193 | in every run a slot's counter is the saturating sum of the payloads of exactly its own link's packets since creation, eviction or last binding to another device |
| HciLedger.CountersAreCappedTotals | src/bluetooth_traffic.c:178-193 | and that sum is the exact total, capped once |
| HciLedger.StepCredits | src/bluetooth_traffic.c:178-193 | a step changes a link's counter by what it pays into it, after clearing it where the link begins anew |
| HciLedger.PacketsKeepActiveLinks | src/bluetooth_traffic.c:151-193 | accounting a packet never touches the slot of another active link; the packet is dropped if and only if the table is full of other active links |
| HciRefresh.RefreshTakesExactly | src/bluetooth_traffic.c:350-375 | a refresh takes the slot of some link if and only if its list names one new link more than there are unused slots while some link is inactive by then: one of the controller not named so far, or an inactive one of another controller |
| HciRefresh.TakesExactly | src/bluetooth_traffic.c:151-176 | binding one connection takes a link's slot if and only if it has no slot, none is unused and one is inactive |
| HciRefresh.RoomForAll | src/bluetooth_traffic.c:350-375 | with an unused slot for each new link of the list every old and every listed link has a slot afterwards, and of the controller's links exactly the listed ones are active |
| HciRefresh.RefreshKeepsCounters | src/bluetooth_traffic.c:350-375 | where no slot is taken every link keeps its slot, and its counters unless its handle is bound to another device |
| HciRefresh.RefreshCanLoseListedLink | src/bluetooth_traffic.c:350-375 | a run and a list: a table filled by packets, where the list's first entry takes the slot of the link its second entry names, whose byte is lost |
| HciListed.ListedLinkKeepsBytes | src/bluetooth_traffic.c:350-375 | a link that the list names keeps its bytes if and only if it is named with its own device only and, before it is named, the list has use for no more slots in front of the link's own than there are: one for each link named that has its slot there and one for each new link beyond the unused slots, against the inactive links there |
| HciListed.UnlistedLinkKeepsBytes | src/bluetooth_traffic.c:350-375 | a link of the controller that the list does not name keeps its bytes if and only if that holds for the whole list |
| HciListed.OneMore | src/bluetooth_traffic.c:151-176 | while that demand is met a bind leaves the link's slot alone, and the bind that exceeds it takes the slot |
| HciRefresh.BindEvicts | src/bluetooth_traffic.c:151-176 | in a full table a new link takes the first inactive slot and its old link is gone |
| HciLedger.LinkTable.LinkForHandle | src/bluetooth_traffic.c:151-176 | the two loops find the link's slot, else the first unused, else the first inactive one, and clear it unless it was the link's own |
| HciLedger.LinkTable.AccountPacket | src/bluetooth_traffic.c:178-193 | the table after a packet |
| HciLedger.LinkTable.RefreshConnections | src/bluetooth_traffic.c:350-376 | the table after the controller's list was read |
| HciLedger.LinkTable.ReadDevice | src/bluetooth_traffic.c:380-410 | the saturating sums over the device's slots and the number of active ones; found only with an active link |
| HciLedger.ActiveLinksExist | src/bluetooth_traffic.c:398-409 | the count is positive if and only if the device has an active slot |
| HciDevice.DeviceReadsItsPackets | src/bluetooth_traffic.c:380-410 | in every run reading a device gives the exact total, capped once, of the packets of the links bound to it, and it is found if and only if one of these is active |
| HciDevice.BelongsExactly | src/bluetooth_traffic.c:393-398 | a slot counts for a device if and only if it is in use for its controller and bound to its address |
| MountInfo.UnescapeEscaped | src/mountinfo.c:66-99 | decoding undoes the octal escapes of every text |
| MountInfo.UnescapeDecodes | src/mountinfo.c:66-99 | a field is decoded to a text exactly when it holds, for every character, the character itself if it is no backslash, or a backslash and the three octal digits of its byte, which is not NUL |
| MountInfo.FieldsOfJoined | src/mountinfo.c:27-42 | cutting a joined line gives back its fields, but for empty ones |
| MountInfo.PrintedLineParses | src/mountinfo.c:101-146 | a line with the columns of section 3.5 of Linux Documentation/filesystems/proc.rst, any optional fields, and backslash and all six separators of the parser escaped gives back device number, source, target and type if and only if the source is not empty and the texts fit their buffers |
| MountInfoKernel.KernelLineParses | src/mountinfo.c:101-146 | so does the kernel's own line, which escapes blank, tab, newline and backslash only, when no text holds a vertical tab, form feed or carriage return |
| MountInfoRecovery.KernelLineFields | src/mountinfo.c:27-42 | what the parser sees of the kernel's line of any mount: its columns, with root, mount point, type and source cut into the words between those three characters |
| MountInfoRecovery.KernelLineReads | src/mountinfo.c:101-146 | for a type and a non-empty source without those characters: the second word of root and mount point is reported as the mount point, if it is a path, the texts fit, and no later word or the options behind them is a hyphen; otherwise the line is refused |
| MountInfoRecovery.KernelLineIsRecovered | src/mountinfo.c:101-146 | for every mount: device number, source, target and type are recovered if and only if type and source hold none of those characters, the source is not empty, the texts fit, and the second word of root and mount point is the whole mount point with no hyphen behind it |
| MountInfoRecovery.CleanRootIsRecovered | src/mountinfo.c:101-146 | with none of those characters in the root: if and only if target, type and source hold none either, the source is not empty and the texts fit |
| MountInfoRecovery.BareSpaceIsMisread | src/mountinfo.c:27-42 | a mount point that holds any of those characters is reported as its first word, or the line is refused because of a hyphen behind it |
| MountInfoRecovery.SourceMustBeOneWord | src/mountinfo.c:129-133 | a line whose source is empty or consists of several words is refused, when its type holds none of those characters and no hyphen comes before the separator |
| MountInfoRecovery.MountPointWithReturn | src/mountinfo.c:27-42 | such a mount: one on a path with a carriage return is reported as mounted on the part before it |
| MountInfoRecovery.RootWithReturn | src/mountinfo.c:101-146 | a mount that is recovered although its root holds a carriage return |
| MountInfoReader.NextField | src/mountinfo.c:27-42 | cuts the next field in place; the field and the rest are strings of the buffer, and nothing before the cursor changes |
| MountInfoReader.DecodeMountField | src/mountinfo.c:66-99 | writes the decoded text and its terminator inside the buffer, or fails exactly for a malformed escape or a text that does not fit, which leaves an empty string |
| MountInfoReader.ParseMountLine | src/mountinfo.c:101-146 | the in-place parser returns what the line's fields say, and nothing for a line of another shape |
| MountInfoReader.VisitLines | src/mountinfo.c:148-188 | the visitor gets the records in order up to the first malformed line or refusal; success if and only if every line was complete and accepted |
| MountInfoRecovery.VisitMounts | src/mountinfo.c:148-188 | visiting the kernel's lines of a whole namespace succeeds and shows all mounts as they are, in order, if and only if every mount is recoverable and accepted; it fails when any line is refused |
| HidppTable.DistinctUnlessCut | src/logitech_hidpp.c:516-558 | after a successful replacement slot paths differ if and only if no listed path was cut to the form of an earlier one |
| HidppTable.LongPathIsStoredTwice | src/logitech_hidpp.c:516-558 | a list: any path of 512 bytes or more, named twice, is accepted and stored twice |
| HidppTable.SurvivorPath | src/logitech_hidpp.c:541-550 | a slot carries the stored form of its path, and a path of 512 bytes or more always gets a fresh one |
| HidppTable.UpdatedPaths | src/logitech_hidpp.c:516-558 | the new table holds the stored forms of the listed paths and no others |
| HidppTable.SurvivorsAreKept | src/logitech_hidpp.c:541-550 | every new slot is the old slot of a listed path, reading and all, or a fresh one |
| HidppTable.RefusedWhenTooMany | src/logitech_hidpp.c:535-539 | when every path fits its buffer the set is refused if and only if it holds more than 16 different paths |
| HidppWorker.ReadingsAreOwn | src/logitech_hidpp.c:421-480 | in every interleaving of replacements with a query in flight, a visible reading is the latest answer of a query of its own path |
| HidppWorker.PathsStayDistinct | src/logitech_hidpp.c:516-558 | slot paths stay different in every run whose listed paths fit their buffers |
| HidppWorker.AnswersStayHome | src/logitech_hidpp.c:461-476 | an answer changes no slot of another path |
| HidppWorker.AnswersAreShown | src/logitech_hidpp.c:461-476 | an answer makes its reading visible at its path and rests the device for ten seconds; a failed query keeps what is visible, forgets the feature and rests the device for thirty; without its slot, or after a stop, it changes nothing |
| HidppWorker.TakeAsksForTheFirstDue | src/logitech_hidpp.c:421-455 | the query taken is for the path and feature of the first slot that is due, which then rests for thirty seconds |
| HidppWorker.StopAndQueryFollowSteps | src/logitech_hidpp.c:421-480 | in every interleaving the worker is stopped exactly when it was asked to, and has a query under way exactly between taking a slot and finishing it |
| HidppWorker.SetDevicesKeepsReadings | src/logitech_hidpp.c:516-558 | what can be read for a path is unchanged when the set is refused or lists the path before any longer one that is cut to it, and nothing otherwise |
| HidppWorker.StepIsSound | src/logitech_hidpp.c:421-480 | every step of worker and callers keeps that each valid slot is the first with its path and shows its latest answer |
| HidppWorker.DeviceTable.SetDevices | src/logitech_hidpp.c:516-558 | replaces the table as specified, or changes nothing and fails when it does not fit |
| HidppWorker.DeviceTable.TakeDue | src/logitech_hidpp.c:421-455 | takes the first due slot and puts it off, or tells exactly how long, up to ten seconds, nothing will be due |
| HidppWorker.DeviceTable.FindDue | src/logitech_hidpp.c:407-419 | the first due slot, or the time until the earliest deadline, ten seconds at most |
| HidppWorker.DeviceTable.Complete | src/logitech_hidpp.c:461-476 | stores the outcome where the path is now; a failed query keeps the reading |
| HidppWorker.DeviceTable.Snapshot | src/logitech_hidpp.c:560-570 | returns the latest answer of the path or nothing |
| HidppWorker.DeviceTable.RequestStop | src/logitech_hidpp.c:572-585 | sets the stop flag as the protocol's stop step, after which no slot is taken and no answer stored |
| UnitLookup.Registry.Register | src/application_catalog.c:149-159 | the first to register an identity keeps it, others are unaffected |
| UnitLookup.FirstRegistrationCounts | src/application_catalog.c:149-159 | after any registrations a name finds an entry if and only if it is not empty and the entry is the first that was registered under its identity |
| UnitLookup.IdentityIsTheBasename | src/application_catalog.c:55-68 | a name is registered and looked up by its last path component; two such names that fit the buffer are the same exactly when they are equal up to case |
| UnitLookup.ResolvesOnce | src/application_catalog.c:361-395 | the first registered variant, leftmost start then longest end, determines one result |
| UnitLookup.LookupPayload | src/application_catalog.c:361-395 | the nested truncating loops return exactly that result |
| UnitLookup.TryEnds | src/application_catalog.c:376-389 | from one start the variants are tried from the longest on, and no other |
| UnitLookup.ServicesAreFound | src/application_catalog.c:361-395 | a payload [launcher-]AppID, with or without an instance, finds an entry when its dotted AppID is registered, and that of the AppID without a launcher |
| UnitLookup.ScopesAreFound | src/application_catalog.c:361-395 | so does a scope's payload [launcher-]AppID-random |
| UnitLookup.UnitNamesAreRead | src/application_catalog.c:408-423 | unit names are read as the payload and the kind they were made from |
| UnitLookup.LookupCgroup | src/application_catalog.c:397-429 | the result is that of the first path component that has one |
| UnitLookup.FoundInPath | src/application_catalog.c:397-429 | a path with a component that resolves to an entry resolves to an entry |
| UnitLookup.AppsAreFound | src/application_catalog.c:397-429 | a path through the unit app-[launcher-]AppID.service, with or without an instance, or app-[launcher-]AppID-random.scope of a registered dotted AppID is resolved, and to that application when nothing before the unit resolves and it is a service without a launcher |
| ColumnLayout.IsOrderPermutation | src/details_layout.c:37-47 | true if and only if the order is a permutation |
| ColumnLayout.MovedToPosition | src/details_layout.c:230-241 | one move puts the column of the next position in place and disturbs nothing before it |
| ColumnLayout.MoveColumns | src/details_layout.c:229-242 | from any arrangement the moves leave the inverse of the order |
| ColumnLayout.InverseIsUnique | src/details_layout.c:229-242 | there is only one such arrangement |
| LayoutFile.DetailsLayout.Positions | src/details_layout.c:55-67 | the saved order is the inverse of the table's arrangement |
| LayoutFile.DetailsLayout.Save | src/details_layout.c:49-103 | the loops write the entries of the current layout |
| LayoutFile.Parsed.ReadEntries | src/details_layout.c:143-198 | the reading loop has the effect of its entries one after the other |
| LayoutFile.Parsed.Migrate | src/details_layout.c:199-221 | the migrations of older versions, and the identity order for anything that is no permutation |
| LayoutFile.ReadsUsual | src/details_layout.c:143-198 | whatever a file holds, scope, sort column and widths stay in range |
| LayoutReading.LastEntryDecides | src/details_layout.c:120-198 | whatever a file holds, each part of the layout is what the last entry with its key and an acceptable value says, and its default when there is none |
| LayoutReading.OlderVersionsAreReset | src/details_layout.c:200-222 | of a file before version 2 the visible columns, before version 5 sorting and order, and any order that is no permutation are replaced by the defaults, and nothing else is |
| LayoutFile.DetailsLayout.Load | src/details_layout.c:120-250 | the loaded layout in effect: visibility with the name column forced on, widths, arrangement and sorting |
| LayoutFile.SavedLayoutIsRestored | src/details_layout.c:120-250 | loading a layout just saved restores it, a width out of range becoming the least one |
| LayoutFile.SavedViewComesBack | src/details_layout.c:229-242 | and the columns stand where they stood, from whatever arrangement they are moved |
| LayoutText.Print | src/details_layout.c:70-95 | the text holds a line for every entry |
| LayoutText.Parse | src/details_layout.c:141-149 | the loop over the non-empty lines reads the entries of those with an equals sign |
| LayoutText.PrintedTextIsRead | src/details_layout.c:141-149 | reading a printed text gives back its entries |
| LayoutText.SaveFile | src/details_layout.c:49-103 | the text of the page's current layout |
| LayoutText.LoadFile | src/details_layout.c:120-250 | the layout of a text in effect |
| LayoutText.SavedTextIsRestored | src/details_layout.c:120-250 | loading the text of a layout just saved restores it |

## Left out

- IngestConserves: stated for runs of fewer than 2^32 - 2 snapshots, after which the 32-bit generation wraps and an old sample can look recent; and for totals below the saturation of the counters.
- MergeCommutesWithIngest: stated for runs of fewer than 2^32 snapshots that evict nothing; with evictions the two orders evict different records.
- CleanMeansSaved: not claimed for a saturated generation, for which FlushWorksUntilSaturation is exact, nor while the load is pending.
- SaveAndReload: the keys of the records differ once separators are blanks, texts hold no NUL, and durations are whole microseconds; RoundingIsSmallAndOnce is about finer ones, rounded to the nearest with ties upward.
- ParsePrintedSeconds: the parser is modelled for one to six decimals; other spellings of decimal numbers are refused here.
- SavedLayoutIsRestored: the column keys are different, hold no dot and are none of the six other keys, which is so for the table in src/details_page.c:36-73.
- SavedTextIsRestored: a line is split at its first equals sign; blanks around keys and values and comment lines, which are the library's matter, do not occur in a saved file.
- ServicesAreFound: systemd's escaping of hyphens inside an AppID is not undone by the program and not modelled.
- ListedLinkKeepsBytes: about links of the refreshed controller; whether some inactive link of another controller loses its slot is part of RefreshTakesExactly only.
- RecordsTell: stated like IngestConserves for runs of fewer than 2^32 - 2 snapshots and for a record that was not evicted since its creation; the cap of memory is that of 64-bit counters.
- Durations and clocks are integers (nanoseconds, microseconds or milliseconds); rounding of floating-point seconds and NaN are not modelled.
- The construction of an application's key from user and identity (src/history.c:876-894): a process row carries its key.
- Allocation failures, except the candidate array of the trim and the creation of a save request.
- Files, sockets, hidraw, ioctl and D-Bus: lines, frames, connection lists and query outcomes are parameters, and replacing a file happens whole or not at all.
- Library functions for numbers and tokens are taken to accept plain decimal digits; booleans of the layout file are taken to be 0 or 1.
- Restarting the HID++ worker or the Bluetooth reader after a stop, and the join with a timeout.
- The fields a public snapshot copies (src/monitor_backend_linux.c:74-143): a sample is one value.
- The hash-based incremental update of the Details page and the selection and expansion of rows (src/details_page.c:289-356 and 498-544).
- Registering aliases of desktop files and looking up executables (src/application_catalog.c:161-359).
- Bluetooth rates (src/bluetooth_traffic.c:412-446), the controller name `hciN`, and the reader thread.
- Presentation in GTK, Cairo and Win32, hardware collectors, and the other accounting of CPU, disks, memory, GPU and batteries.
