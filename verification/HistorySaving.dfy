/** The main thread's side of saving App History (src/history.c): the dirty flag, the one pending
    asynchronous save with its coalesced successor, the pending initial load and the shutdown
    flush, interleaved with the save workers of module SaveCoordinator. */
module HistorySaving {
  import opened Basics
  import opened RecencyOrder
  import opened HistoryStore
  import opened SaveCoordinator
  import opened HistoryModel

  /** `merged` records that the initial load was merged and `saturated` that the model changed
      after its mutation generation had reached its maximum. `evictions` counts the empty snapshots
      that evicted records; `captured` says for every request, and `filed` for the file, how many
      of them its snapshot has seen. */
  datatype App = App(
    saves: Coordinator, model: Entries, mutations: nat, dirty: bool,
    loading: bool, merged: bool, saturated: bool,
    pending: Option<nat>, again: bool, stopping: bool, flushing: Option<nat>, closing: bool,
    evictions: nat, captured: map<nat, nat>, filed: nat)

  datatype Event =
    | Mutate(model: Entries)                 // a non-empty snapshot, or a reset, which ignores the flag
    | EmptySnapshot(protected: nat, model: Entries)  // trims, but marks nothing
    | LoadDone(model: Entries, marks: bool, id: nat, memory: bool)  // `marks` when the file was cut or trimmed
    | LoadFailed(id: nat, memory: bool)
    | Save(id: nat, memory: bool)        // the timer, or a reset
    | Complete(id: nat, memory: bool)    // the pending save's completion callback
    | Stop                                   // the shutdown flag: nothing is ingested or resumed any more
    | Close                                  // the page is destroyed: callbacks no longer find the model
    | FlushStart(id: nat)
    | FlushEnd
    | Release
    | Worker(step: Action)                   // one step of one request

  function Start(file: Entries): App {
    App(Initial(file), map[], 0, false, true, false, false, None, false, false, None, false, 0, map[], 0)
  }

  /** history_mark_dirty. */
  function Marked(s: App): App {
    s.(mutations := NextMutation(s.mutations), dirty := true, saturated := s.saturated || s.mutations >= U32_MAX)
  }

  function Loaded(s: App, model: Entries, marks: bool): App {
    var merged := s.(model := model, loading := false, merged := true);
    if marks then Marked(merged) else merged
  }

  /** Capturing the model in a request and announcing its generation. */
  function Scheduled(s: App, id: nat): Coordinator
    requires s.saves.owned && id !in s.saves.requests
  {
    var created := Apply(s.saves, Create(id, Request(s.mutations, s.model, Created)));
    Apply(created, NoteScheduled(s.mutations))
  }

  function Requested(s: App, id: nat): App
    requires s.saves.owned && id !in s.saves.requests
  {
    s.(saves := Scheduled(s, id), captured := s.captured[id := s.evictions])
  }

  /** lsm_history_save with a window and a coordinator. */
  function Saved(s: App, id: nat, ok: bool): App
    requires s.saves.owned && id !in s.saves.requests
  {
    if !s.dirty then s
    else if s.loading || s.pending.Some? then s.(again := true)
    else if !ok then s
    else Requested(s, id).(pending := Some(id))
  }

  /** The save that a finished load or save still owes, unless shutdown has begun. */
  function Resumed(s: App, id: nat, ok: bool): App
    requires s.saves.owned && id !in s.saves.requests
  {
    if s.again && !s.stopping then Saved(s.(again := false), id, ok) else s
  }

  /** The step replaces the file. */
  predicate Replaces(s: Coordinator, a: Action) {
    a.Advance? && a.id in s.requests && s.requests[a.id].phase.Cleared? && a.ok
  }

  function Seen(s: App, id: nat): nat {
    if id in s.captured then s.captured[id] else 0
  }

  predicate IsFinished(s: App, id: nat) {
    id in s.saves.requests && s.saves.requests[id].phase.Finished?
  }

  /** The main thread is not inside the shutdown flush and still has its coordinator. */
  predicate Ready(s: App) {
    s.flushing.None? && s.saves.owned
  }

  predicate CanWork(s: App, a: Action) {
    && (a.Advance? || a.Free?) && Enabled(s.saves, a)
    && (a.Free? ==> s.pending != Some(a.id) && s.flushing != Some(a.id))
  }

  ghost predicate Possible(s: App, e: Event) {
    match e
    case Mutate(_) => Ready(s) && !s.closing
    case EmptySnapshot(protected, model) => Ready(s) && !s.stopping && !s.closing && IsTrim(s.model, protected, Excess(|s.model|), model)
    case LoadDone(model, marks, id, _) =>
      // Merging into an untouched model restores the file, unless that was cut or trimmed.
      && Ready(s) && !s.closing && s.loading && id !in s.saves.requests
      && (s.model == map[] && !marks ==> model == s.saves.original)
    case LoadFailed(id, _) => Ready(s) && !s.closing && s.loading && id !in s.saves.requests
    case Save(id, _) => Ready(s) && !s.closing && id !in s.saves.requests
    case Complete(id, _) =>
      Ready(s) && !s.closing && id !in s.saves.requests && s.pending.Some? && IsFinished(s, s.pending.value)
    case Stop => Ready(s) && !s.stopping && !s.closing
    case Close => Ready(s) && s.stopping && !s.closing
    case FlushStart(id) => Ready(s) && s.closing && s.dirty && !s.loading && id !in s.saves.requests
    case FlushEnd => s.flushing.Some? && IsFinished(s, s.flushing.value)
    case Release => Ready(s) && s.closing
    case Worker(a) => CanWork(s, a)
  }

  function Emptied(s: App, model: Entries): App {
    s.(model := model, evictions := if model == s.model then s.evictions else s.evictions + 1)
  }

  /** The completion callback of the pending save, before it saves again. */
  function Completed(s: App): App
    requires s.pending.Some? && s.pending.value in s.saves.requests && s.saves.requests[s.pending.value].phase.Finished?
  {
    var r := s.saves.requests[s.pending.value];
    var clean := !r.phase.failed && r.phase.wrote && r.generation == s.mutations;
    s.(pending := None, dirty := s.dirty && !clean)
  }

  function FlushEnded(s: App): App
    requires s.flushing.Some? && s.flushing.value in s.saves.requests && s.saves.requests[s.flushing.value].phase.Finished?
  {
    var r := s.saves.requests[s.flushing.value];
    var persisted := !r.phase.failed && (r.phase.wrote || s.saves.written >= r.generation);
    s.(flushing := None, dirty := s.dirty && !persisted)
  }

  function Worked(s: App, a: Action): App
    requires Enabled(s.saves, a)
  {
    s.(saves := Apply(s.saves, a), filed := if Replaces(s.saves, a) then Seen(s, a.id) else s.filed)
  }

  ghost function Happened(s: App, e: Event): App
    requires Possible(s, e)
  {
    match e
    case Mutate(model) => Marked(s.(model := model))
    case EmptySnapshot(_, model) => Emptied(s, model)
    case LoadDone(model, marks, id, ok) => Resumed(Loaded(s, model, marks), id, ok)
    case LoadFailed(id, ok) => Resumed(s.(loading := false), id, ok)
    case Save(id, ok) => Saved(s, id, ok)
    case Complete(id, ok) => Resumed(Completed(s), id, ok)
    case Stop => s.(stopping := true)
    case Close => s.(closing := true)
    case FlushStart(id) => Requested(s, id).(flushing := Some(id))
    case FlushEnd => FlushEnded(s)
    case Release => s.(saves := Apply(s.saves, ReleaseOwner))
    case Worker(a) => Worked(s, a)
  }

  // ----- The invariant -----

  /** The model is what empty snapshots have left of `snapshot`, which has seen `seen` of them. */
  ghost predicate LeftOf(s: App, snapshot: Entries, seen: nat) {
    && seen <= s.evictions && (seen == s.evictions ==> s.model == snapshot)
    && (seen < s.evictions ==> |s.model| < |snapshot|)
  }

  /** Nothing is newer than the model, and of what carries its generation the model is left. */
  ghost predicate Current(s: App, generation: nat, snapshot: Entries, seen: nat) {
    generation <= s.mutations && (!s.saturated && generation == s.mutations ==> LeftOf(s, snapshot, seen))
  }

  ghost predicate RequestsCurrent(s: App) {
    forall id :: id in s.saves.requests ==>
      Current(s, s.saves.requests[id].generation, s.saves.requests[id].snapshot, Seen(s, id))
  }

  ghost predicate FileCurrent(s: App) {
    && (s.saves.published != [] ==>
          FileGeneration(s.saves) > 0 && Current(s, FileGeneration(s.saves), File(s.saves), s.filed))
    && (s.saves.published == [] ==> s.filed == 0)
    && (s.saves.published == [] && s.mutations == 0 && s.merged ==> LeftOf(s, s.saves.original, 0))
    && (s.mutations == 0 && !s.merged ==> s.model == map[] && s.evictions == 0)
  }

  ghost predicate CleanTracked(s: App) {
    !s.dirty && !s.loading ==> FileGeneration(s.saves) == s.mutations
  }

  ghost predicate LoadUntouched(s: App) {
    s.loading ==>
      && s.saves.requests == map[] && s.saves.published == [] && s.pending.None? && s.flushing.None? && !s.merged
      && (s.dirty <==> s.mutations > 0)
  }

  ghost predicate SavesTracked(s: App) {
    && (s.pending.Some? ==> s.pending.value in s.saves.requests)
    && (s.flushing.Some? ==>
          s.flushing.value in s.saves.requests && s.saves.requests[s.flushing.value].generation == s.mutations)
    && s.mutations <= U32_MAX
  }

  /** The flag for another save is up only while a completion is still to come, or shutdown. */
  ghost predicate AgainOwed(s: App) {
    s.again ==> s.pending.Some? || s.loading || s.stopping
  }

  ghost predicate Data(s: App) {
    Sound(s.saves) && RequestsCurrent(s) && FileCurrent(s)
  }

  ghost predicate Tracked(s: App) {
    CleanTracked(s) && LoadUntouched(s) && SavesTracked(s)
  }

  ghost predicate Consistent(s: App) {
    Data(s) && Tracked(s) && AgainOwed(s)
  }

  lemma StartIsConsistent(file: Entries)
    ensures Consistent(Start(file))
  {
    InitialIsSound(file);
  }

  /** The data the invariant is about, without the flags of the main thread. */
  predicate SameData(s: App, s': App) {
    && s'.saves == s.saves && s'.model == s.model && s'.mutations == s.mutations && s'.saturated == s.saturated
    && s'.merged == s.merged && s'.evictions == s.evictions && s'.captured == s.captured && s'.filed == s.filed
  }

  lemma DataIgnoresFlags(s: App, s': App)
    requires SameData(s, s') && Data(s)
    ensures Data(s')
  {
    hide Sound;
    assert RequestsCurrent(s');
    hide RequestsCurrent;
  }

  lemma ScheduledIsSound(s: App, id: nat)
    requires Sound(s.saves) && s.saves.owned && id !in s.saves.requests
    ensures Sound(Scheduled(s, id))
    ensures Scheduled(s, id).requests == s.saves.requests[id := Request(s.mutations, s.model, Created)]
    ensures Scheduled(s, id).published == s.saves.published && Scheduled(s, id).original == s.saves.original
  {
    var create := Create(id, Request(s.mutations, s.model, Created));
    StepIsSound(s.saves, create);
    StepIsSound(Apply(s.saves, create), NoteScheduled(s.mutations));
  }

  /** Capturing the model in a request disturbs nothing. */
  lemma RequestedKeepsData(s: App, id: nat)
    requires Data(s) && s.saves.owned && id !in s.saves.requests
    ensures Data(Requested(s, id))
    ensures Scheduled(s, id).requests == s.saves.requests[id := Request(s.mutations, s.model, Created)]
    ensures Scheduled(s, id).published == s.saves.published && Scheduled(s, id).original == s.saves.original
  {
    ScheduledIsSound(s, id);
    hide Sound, Scheduled;
    var s' := Requested(s, id);
    forall j | j in s'.saves.requests
      ensures Current(s', s'.saves.requests[j].generation, s'.saves.requests[j].snapshot, Seen(s', j))
    {
      if j != id {
        assert Current(s, s.saves.requests[j].generation, s.saves.requests[j].snapshot, Seen(s, j));
      }
    }
  }

  /** Saving when the flag for another save may be up for good reason or not. */
  lemma SavedIsConsistent(s: App, id: nat, ok: bool)
    requires Data(s) && Tracked(s) && s.flushing.None? && s.saves.owned && id !in s.saves.requests
    requires AgainOwed(s)
    ensures Consistent(Saved(s, id, ok))
  {
    hide Data, Scheduled, Sound;
    if s.dirty && !s.loading && s.pending.None? && ok {
      RequestedKeepsData(s, id);
      DataIgnoresFlags(Requested(s, id), Saved(s, id, ok));
    } else {
      DataIgnoresFlags(s, Saved(s, id, ok));
    }
  }

  lemma ResumedIsConsistent(s: App, id: nat, ok: bool)
    requires Data(s) && Tracked(s) && s.flushing.None? && s.saves.owned && id !in s.saves.requests
    ensures Consistent(Resumed(s, id, ok))
  {
    DataIgnoresFlags(s, s.(again := false));
    hide Data;
    SavedIsConsistent(s.(again := false), id, ok);
    hide Saved;
  }

  lemma MutateIsConsistent(s: App, model: Entries)
    requires Consistent(s) && s.flushing.None?
    ensures Consistent(Marked(s.(model := model)))
  {
    hide Sound;
  }

  lemma EmptySnapshotKeepsLeft(s: App, protected: nat, model: Entries, snapshot: Entries, seen: nat)
    requires IsTrim(s.model, protected, Excess(|s.model|), model) && LeftOf(s, snapshot, seen)
    ensures LeftOf(Emptied(s, model), snapshot, seen)
  {
    TrimChanges(s.model, protected, model);
    hide IsTrim, Candidates;
  }

  lemma NothingLeftOfNothing(m: Entries, protected: nat, m': Entries)
    requires IsTrim(m, protected, Excess(|m|), m')
    ensures m == map[] ==> m' == m
  {
    if m == map[] {
      assert m'.Keys == {};
    }
  }

  lemma EmptySnapshotKeepsCurrent(s: App, protected: nat, model: Entries, generation: nat, snapshot: Entries, seen: nat)
    requires IsTrim(s.model, protected, Excess(|s.model|), model) && Current(s, generation, snapshot, seen)
    ensures Current(Emptied(s, model), generation, snapshot, seen)
  {
    hide IsTrim, LeftOf;
    if LeftOf(s, snapshot, seen) {
      EmptySnapshotKeepsLeft(s, protected, model, snapshot, seen);
    }
  }

  lemma EmptySnapshotKeepsRequests(s: App, protected: nat, model: Entries)
    requires RequestsCurrent(s) && IsTrim(s.model, protected, Excess(|s.model|), model)
    ensures RequestsCurrent(Emptied(s, model))
  {
    hide IsTrim, Current;
    forall id | id in s.saves.requests
      ensures Current(Emptied(s, model), s.saves.requests[id].generation, s.saves.requests[id].snapshot, Seen(Emptied(s, model), id))
    {
      EmptySnapshotKeepsCurrent(s, protected, model, s.saves.requests[id].generation, s.saves.requests[id].snapshot, Seen(s, id));
    }
  }

  lemma EmptySnapshotKeepsFile(s: App, protected: nat, model: Entries)
    requires FileCurrent(s) && IsTrim(s.model, protected, Excess(|s.model|), model)
    ensures FileCurrent(Emptied(s, model))
  {
    NothingLeftOfNothing(s.model, protected, model);
    hide IsTrim, Current, LeftOf;
    if s.saves.published != [] {
      EmptySnapshotKeepsCurrent(s, protected, model, FileGeneration(s.saves), File(s.saves), s.filed);
    } else if s.mutations == 0 && s.merged {
      EmptySnapshotKeepsLeft(s, protected, model, s.saves.original, 0);
    }
  }

  lemma EmptySnapshotKeepsData(s: App, protected: nat, model: Entries)
    requires Data(s) && IsTrim(s.model, protected, Excess(|s.model|), model)
    ensures Data(Emptied(s, model))
  {
    hide Sound, IsTrim, RequestsCurrent, FileCurrent;
    EmptySnapshotKeepsRequests(s, protected, model);
    EmptySnapshotKeepsFile(s, protected, model);
  }

  lemma EmptySnapshotIsConsistent(s: App, protected: nat, model: Entries)
    requires Consistent(s) && IsTrim(s.model, protected, Excess(|s.model|), model)
    ensures Consistent(Emptied(s, model))
  {
    EmptySnapshotKeepsData(s, protected, model);
    hide Data, IsTrim;
  }

  lemma LoadedKeepsData(s: App, model: Entries, marks: bool)
    requires Consistent(s) && s.loading && s.flushing.None? && (s.model == map[] && !marks ==> model == s.saves.original)
    ensures Data(Loaded(s, model, marks)) && Tracked(Loaded(s, model, marks))
  {
    hide Sound;
  }

  lemma LoadFailedKeepsData(s: App)
    requires Consistent(s) && s.loading
    ensures Data(s.(loading := false)) && Tracked(s.(loading := false))
  {
    DataIgnoresFlags(s, s.(loading := false));
    hide Data;
  }

  lemma CompletedKeepsData(s: App)
    requires Consistent(s) && s.pending.Some? && IsFinished(s, s.pending.value)
    ensures Data(Completed(s)) && Tracked(Completed(s))
  {
    var r := s.saves.requests[s.pending.value];
    assert RequestSound(s.saves, s.pending.value, r);
    FileIsNoNewer(s);
    DataIgnoresFlags(s, Completed(s));
    hide Data;
  }

  lemma FileIsNoNewer(s: App)
    requires Data(s)
    ensures s.saves.written <= FileGeneration(s.saves) <= s.mutations
  {
  }

  lemma FlushStartIsConsistent(s: App, id: nat)
    requires Consistent(s) && Ready(s) && s.dirty && !s.loading && id !in s.saves.requests
    ensures Consistent(Requested(s, id).(flushing := Some(id)))
  {
    RequestedKeepsData(s, id);
    DataIgnoresFlags(Requested(s, id), Requested(s, id).(flushing := Some(id)));
    hide Data, Scheduled;
  }

  lemma FlushEndIsConsistent(s: App)
    requires Consistent(s) && s.flushing.Some? && IsFinished(s, s.flushing.value)
    ensures Consistent(FlushEnded(s))
  {
    assert RequestSound(s.saves, s.flushing.value, s.saves.requests[s.flushing.value]);
    FileIsNoNewer(s);
    DataIgnoresFlags(s, FlushEnded(s));
    hide Data;
  }

  lemma CloseIsConsistent(s: App)
    requires Consistent(s)
    ensures Consistent(s.(stopping := true)) && Consistent(s.(closing := true))
  {
    DataIgnoresFlags(s, s.(stopping := true));
    DataIgnoresFlags(s, s.(closing := true));
    hide Data;
  }

  lemma ReleaseIsConsistent(s: App)
    requires Consistent(s) && s.saves.owned
    ensures Consistent(s.(saves := Apply(s.saves, ReleaseOwner)))
  {
    hide Sound;
    StepIsSound(s.saves, ReleaseOwner);
    assert RequestsCurrent(s.(saves := Apply(s.saves, ReleaseOwner)));
    hide RequestsCurrent;
  }

  lemma ReplacesChangesFile(s: Coordinator, a: Action)
    requires Enabled(s, a)
    ensures Apply(s, a).published != s.published <==> Replaces(s, a)
  {
  }

  lemma WorkerKeepsRequests(s: Coordinator, a: Action)
    requires Enabled(s, a) && (a.Advance? || a.Free?)
    ensures Apply(s, a).requests.Keys == if a.Free? then s.requests.Keys - {a.id} else s.requests.Keys
    ensures forall id :: id in Apply(s, a).requests ==>
      && Apply(s, a).requests[id].generation == s.requests[id].generation
      && Apply(s, a).requests[id].snapshot == s.requests[id].snapshot
    ensures Apply(s, a).original == s.original
  {
  }

  /** What a worker's step does to the file. */
  lemma WorkerAndFile(s: App, a: Action)
    requires Data(s) && CanWork(s, a)
    ensures Worked(s, a).saves.original == s.saves.original
    ensures !Replaces(s.saves, a) ==> Worked(s, a).saves.published == s.saves.published && Worked(s, a).filed == s.filed
    ensures Replaces(s.saves, a) ==>
      && FileGeneration(s.saves) < FileGeneration(Worked(s, a).saves) <= s.mutations
      && Worked(s, a).saves.published != []
      && Current(s, FileGeneration(Worked(s, a).saves), File(Worked(s, a).saves), Worked(s, a).filed)
  {
    hide *;
    DataMeans(s);
    CanWorkMeans(s, a);
    WorkedIs(s, a);
    FileChangesOnlyForward(s.saves, a);
    WorkerKeepsRequests(s.saves, a);
    ReplacesChangesFile(s.saves, a);
    if Replaces(s.saves, a) {
      RequestIsCurrent(s, a.id);
      CurrentStays(s, Worked(s, a), s.saves.requests[a.id].generation, s.saves.requests[a.id].snapshot, Seen(s, a.id));
    }
  }

  lemma DataMeans(s: App)
    requires Data(s)
    ensures Sound(s.saves)
  {
    hide Sound;
  }

  lemma CanWorkMeans(s: App, a: Action)
    requires CanWork(s, a)
    ensures (a.Advance? || a.Free?) && Enabled(s.saves, a)
  {
    hide Enabled;
  }

  lemma WorkedIs(s: App, a: Action)
    requires Enabled(s.saves, a)
    ensures Worked(s, a) == s.(saves := Apply(s.saves, a), filed := if Replaces(s.saves, a) then Seen(s, a.id) else s.filed)
    ensures Replaces(s.saves, a) ==> a.Advance? && a.id in s.saves.requests && Apply(s.saves, a).published != []
  {
    hide Enabled, Seen;
  }

  lemma RequestIsCurrent(s: App, id: nat)
    requires Data(s) && id in s.saves.requests
    ensures Current(s, s.saves.requests[id].generation, s.saves.requests[id].snapshot, Seen(s, id))
    ensures s.saves.requests[id].generation <= s.mutations
  {
    hide Sound, LeftOf, Seen;
  }

  lemma CurrentStays(s: App, s': App, generation: nat, snapshot: Entries, seen: nat)
    requires Current(s, generation, snapshot, seen)
    requires s'.model == s.model && s'.mutations == s.mutations && s'.saturated == s.saturated && s'.evictions == s.evictions
    ensures Current(s', generation, snapshot, seen)
  {
  }

  lemma WorkerKeepsCurrent(s: App, a: Action)
    requires Data(s) && CanWork(s, a)
    ensures RequestsCurrent(Worked(s, a))
  {
    WorkerKeepsRequests(s.saves, a);
    hide Apply, Enabled, Replaces, Sound, FileCurrent;
  }

  lemma WorkerKeepsFile(s: App, a: Action)
    requires Data(s) && CanWork(s, a)
    ensures FileCurrent(Worked(s, a))
  {
    hide Sound, Apply, Enabled, RequestsCurrent, Replaces;
    WorkerAndFile(s, a);
  }

  lemma WorkerKeepsTracking(s: App, a: Action)
    requires Consistent(s) && CanWork(s, a)
    ensures Tracked(Worked(s, a)) && AgainOwed(Worked(s, a))
  {
    WorkerKeepsClean(s, a);
    CanWorkMeans(s, a);
    WorkedIs(s, a);
    WorkerKeepsRequests(s.saves, a);
    hide Apply, Data, Replaces, Enabled, Worked, Seen, CleanTracked;
  }

  lemma WorkerKeepsClean(s: App, a: Action)
    requires Consistent(s) && CanWork(s, a)
    ensures CleanTracked(Worked(s, a)) && (s.loading ==> Worked(s, a).saves.published == [])
  {
    WorkerAndFile(s, a);
    CanWorkMeans(s, a);
    WorkedIs(s, a);
    hide Apply, Data, Replaces, Enabled, Worked, Seen, CanWork, SavesTracked, Current;
  }

  lemma WorkerIsConsistent(s: App, a: Action)
    requires Consistent(s) && CanWork(s, a)
    ensures Consistent(Worked(s, a))
  {
    StepIsSound(s.saves, a);
    WorkerKeepsCurrent(s, a);
    WorkerKeepsFile(s, a);
    WorkerKeepsTracking(s, a);
    hide Sound, Apply, RequestsCurrent, FileCurrent, Tracked, AgainOwed;
  }

  lemma LoadEventIsConsistent(s: App, e: Event)
    requires Consistent(s) && Possible(s, e) && (e.LoadDone? || e.LoadFailed?)
    ensures Consistent(Happened(s, e))
  {
    hide Consistent, Data, Tracked, Resumed, Loaded;
    match e
    case LoadDone(model, marks, id, ok) =>
      LoadedKeepsData(s, model, marks);
      LoadedKeepsRequests(s, model, marks);
      ResumedIsConsistent(Loaded(s, model, marks), id, ok);
    case LoadFailed(id, ok) =>
      LoadFailedKeepsData(s);
      ResumedIsConsistent(s.(loading := false), id, ok);
  }

  lemma CompleteIsConsistent(s: App, id: nat, ok: bool)
    requires Consistent(s) && Possible(s, Complete(id, ok))
    ensures Consistent(Happened(s, Complete(id, ok)))
  {
    hide Consistent, Data, Tracked, Resumed, Completed;
    CompletedKeepsData(s);
    CompletedKeepsRequests(s);
    ResumedIsConsistent(Completed(s), id, ok);
  }

  lemma SavingEventIsConsistent(s: App, e: Event)
    requires Consistent(s) && Possible(s, e) && (e.Save? || e.FlushStart? || e.FlushEnd?)
    ensures Consistent(Happened(s, e))
  {
    assert Data(s) && Tracked(s) && AgainOwed(s);
    hide Consistent, Data, Tracked, AgainOwed, Saved, Requested, FlushEnded;
    match e
    case Save(id, ok) => SavedIsConsistent(s, id, ok);
    case FlushStart(id) => FlushStartIsConsistent(s, id);
    case FlushEnd => FlushEndIsConsistent(s);
  }

  lemma OtherEventIsConsistent(s: App, e: Event)
    requires Consistent(s) && Possible(s, e)
    requires e.Mutate? || e.EmptySnapshot? || e.Stop? || e.Close? || e.Release? || e.Worker?
    ensures Consistent(Happened(s, e))
  {
    hide Consistent, IsTrim, Worked, CanWork, Emptied, Marked, Apply;
    match e
    case Mutate(model) => MutateIsConsistent(s, model);
    case EmptySnapshot(protected, model) => EmptySnapshotIsConsistent(s, protected, model);
    case Stop => CloseIsConsistent(s);
    case Close => CloseIsConsistent(s);
    case Release => ReleaseIsConsistent(s);
    case Worker(a) => WorkerIsConsistent(s, a);
  }

  lemma {:induction false} EventIsConsistent(s: App, e: Event)
    requires Consistent(s) && Possible(s, e)
    ensures Consistent(Happened(s, e))
  {
    hide *;
    match e
    case LoadDone(_, _, _, _) => LoadEventIsConsistent(s, e);
    case LoadFailed(_, _) => LoadEventIsConsistent(s, e);
    case Complete(id, ok) => CompleteIsConsistent(s, id, ok);
    case Save(_, _) => SavingEventIsConsistent(s, e);
    case FlushStart(_) => SavingEventIsConsistent(s, e);
    case FlushEnd => SavingEventIsConsistent(s, e);
    case _ => OtherEventIsConsistent(s, e);
  }

  lemma LoadedKeepsRequests(s: App, model: Entries, marks: bool)
    ensures Loaded(s, model, marks).saves == s.saves && Loaded(s, model, marks).flushing == s.flushing
  {
  }

  lemma CompletedKeepsRequests(s: App)
    requires s.pending.Some? && IsFinished(s, s.pending.value)
    ensures Completed(s).saves == s.saves && Completed(s).flushing == s.flushing
  {
  }

  // ----- Runs -----

  ghost predicate IsHistory(states: seq<App>, events: seq<Event>) {
    && |states| == |events| + 1
    && forall i :: 0 <= i < |events| ==> Possible(states[i], events[i]) && states[i + 1] == Happened(states[i], events[i])
  }

  lemma HistoryLengths(states: seq<App>, events: seq<Event>)
    requires IsHistory(states, events)
    ensures |states| == |events| + 1
  {
  }

  lemma HistoryStep(states: seq<App>, events: seq<Event>, i: nat)
    requires IsHistory(states, events) && i < |events|
    ensures Possible(states[i], events[i]) && states[i + 1] == Happened(states[i], events[i])
  {
    hide Possible, Happened;
  }

  lemma {:induction false} HistoryIsConsistent(states: seq<App>, events: seq<Event>, i: nat)
    requires IsHistory(states, events) && Consistent(states[0]) && i < |states|
    ensures Consistent(states[i])
  {
    hide *;
    HistoryLengths(states, events);
    if i > 0 {
      HistoryStep(states, events, i - 1);
      HistoryIsConsistent(states, events, i - 1);
      EventIsConsistent(states[i - 1], events[i - 1]);
    }
  }

  /** What a clean model has been saved from: the initial load was merged, or something was saved,
      or there was nothing to load. */
  ghost predicate Founded(s: App) {
    s.merged || s.saves.published != [] || s.saves.original == map[]
  }

  /** In every interleaving of the main thread with any number of save workers, while the mutation
      generation has room, a model marked clean is exactly what the file holds if and only if it
      was founded on the file and no empty snapshot has evicted records since the file's snapshot
      was taken. */
  lemma {:induction false} CleanMeansSaved(file: Entries, states: seq<App>, events: seq<Event>, i: nat)
    requires IsHistory(states, events) && states[0] == Start(file) && i < |states|
    requires !states[i].saturated && !states[i].loading && !states[i].dirty
    ensures File(states[i].saves) == states[i].model <==> Founded(states[i]) && states[i].filed == states[i].evictions
  {
    StartIsConsistent(file);
    HistoryIsConsistent(states, events, i);
  }

  /** An empty snapshot is one of those that evict exactly when it finds the table over its limit
      with a record it may evict. */
  lemma EmptySnapshotEvicts(s: App, protected: nat, model: Entries)
    requires Possible(s, EmptySnapshot(protected, model))
    ensures var s' := Happened(s, EmptySnapshot(protected, model));
      && s'.evictions == s.evictions + (if |s.model| <= LIMIT || Candidates(s.model, protected) == {} then 0 else 1)
      && s'.dirty == s.dirty && s'.mutations == s.mutations
  {
    TrimChanges(s.model, protected, model);
  }

  /** No empty snapshot finds the table over its limit with a record it may evict. */
  ghost predicate NeverOver(states: seq<App>, events: seq<Event>) {
    && |states| == |events| + 1
    && forall k :: 0 <= k < |events| && events[k].EmptySnapshot? ==>
         |states[k].model| <= LIMIT || Candidates(states[k].model, events[k].protected) == {}
  }

  ghost predicate NoneEvicted(s: App) {
    s.evictions == 0 && s.filed == 0 && forall id :: id in s.captured ==> s.captured[id] == 0
  }

  lemma WorkerEvictsNothing(s: App, a: Action)
    requires NoneEvicted(s) && Enabled(s.saves, a)
    ensures NoneEvicted(Worked(s, a))
  {
    hide Apply, Replaces;
  }

  lemma RequestEvictsNothing(s: App, id: nat)
    requires NoneEvicted(s) && s.saves.owned && id !in s.saves.requests
    ensures NoneEvicted(Requested(s, id))
  {
    hide Scheduled;
  }

  lemma FlagsAreNoEvictions(s: App, s': App)
    requires NoneEvicted(s) && s'.evictions == s.evictions && s'.filed == s.filed && s'.captured == s.captured
    ensures NoneEvicted(s')
  {
  }

  lemma SavedEvictsNothing(s: App, id: nat, ok: bool)
    requires NoneEvicted(s) && s.saves.owned && id !in s.saves.requests
    ensures NoneEvicted(Saved(s, id, ok))
  {
    hide NoneEvicted, Requested;
    FlagsAreNoEvictions(s, s.(again := true));
    RequestEvictsNothing(s, id);
    FlagsAreNoEvictions(Requested(s, id), Requested(s, id).(pending := Some(id)));
  }

  lemma SaveEvictsNothing(s: App, id: nat, ok: bool)
    requires NoneEvicted(s) && s.saves.owned && id !in s.saves.requests
    ensures NoneEvicted(Saved(s, id, ok)) && NoneEvicted(Resumed(s, id, ok)) && NoneEvicted(Requested(s, id))
  {
    hide NoneEvicted, Requested, Saved;
    SavedEvictsNothing(s, id, ok);
    RequestEvictsNothing(s, id);
    FlagsAreNoEvictions(s, s.(again := false));
    SavedEvictsNothing(s.(again := false), id, ok);
  }

  /** Events that change neither the model nor what was captured. */
  lemma FlagsEvictNothing(s: App, e: Event)
    requires Possible(s, e) && NoneEvicted(s)
    requires e.Mutate? || e.Stop? || e.Close? || e.FlushEnd? || e.Release?
    ensures NoneEvicted(Happened(s, e))
  {
    hide IsTrim, Candidates, Apply, Enabled;
  }

  lemma SavingEvictsNothing(s: App, e: Event)
    requires Possible(s, e) && NoneEvicted(s)
    requires e.Save? || e.FlushStart? || e.Complete?
    ensures NoneEvicted(Happened(s, e))
  {
    hide IsTrim, Candidates, Saved, Resumed, Requested, Worked, Apply, Scheduled;
    match e
    case Save(id, ok) => SaveEvictsNothing(s, id, ok);
    case FlushStart(id) => SaveEvictsNothing(s, id, true);
    case Complete(id, ok) => SaveEvictsNothing(Completed(s), id, ok);
  }

  lemma LoadEvictsNothing(s: App, e: Event)
    requires Possible(s, e) && NoneEvicted(s)
    requires e.LoadDone? || e.LoadFailed?
    ensures NoneEvicted(Happened(s, e))
  {
    hide IsTrim, Candidates, Saved, Resumed, Requested, Worked, Apply, Scheduled;
    match e
    case LoadDone(model, marks, id, ok) => SaveEvictsNothing(Loaded(s, model, marks), id, ok);
    case LoadFailed(id, ok) => SaveEvictsNothing(s.(loading := false), id, ok);
  }

  lemma WorkerEventEvictsNothing(s: App, a: Action)
    requires Possible(s, Worker(a)) && NoneEvicted(s)
    ensures NoneEvicted(Happened(s, Worker(a)))
  {
    hide Worked, Apply, Enabled;
    WorkerEvictsNothing(s, a);
  }

  lemma EmptyEvictsNothing(s: App, protected: nat, model: Entries)
    requires Possible(s, EmptySnapshot(protected, model)) && NoneEvicted(s)
    requires |s.model| <= LIMIT || Candidates(s.model, protected) == {}
    ensures NoneEvicted(Happened(s, EmptySnapshot(protected, model)))
  {
    EmptySnapshotEvicts(s, protected, model);
    hide IsTrim, Candidates;
  }

  lemma {:induction false} NeverOverEvent(s: App, e: Event)
    requires Possible(s, e) && NoneEvicted(s)
    requires e.EmptySnapshot? ==> |s.model| <= LIMIT || Candidates(s.model, e.protected) == {}
    ensures NoneEvicted(Happened(s, e))
  {
    hide *;
    match e
    case EmptySnapshot(protected, model) => EmptyEvictsNothing(s, protected, model);
    case Worker(a) => WorkerEventEvictsNothing(s, a);
    case Save(_, _) => SavingEvictsNothing(s, e);
    case FlushStart(_) => SavingEvictsNothing(s, e);
    case Complete(_, _) => SavingEvictsNothing(s, e);
    case LoadDone(_, _, _, _) => LoadEvictsNothing(s, e);
    case LoadFailed(_, _) => LoadEvictsNothing(s, e);
    case _ => FlagsEvictNothing(s, e);
  }

  lemma NotOverAt(states: seq<App>, events: seq<Event>, i: nat)
    requires NeverOver(states, events) && i < |events| && events[i].EmptySnapshot?
    ensures i < |states| && (|states[i].model| <= LIMIT || Candidates(states[i].model, events[i].protected) == {})
  {
    hide Candidates;
  }

  lemma {:induction false} NeverOverNeverEvicts(states: seq<App>, events: seq<Event>, i: nat)
    requires IsHistory(states, events) && NeverOver(states, events) && i < |states| && NoneEvicted(states[0])
    ensures NoneEvicted(states[i])
  {
    hide *;
    HistoryLengths(states, events);
    if i > 0 {
      HistoryStep(states, events, i - 1);
      if events[i - 1].EmptySnapshot? {
        NotOverAt(states, events, i - 1);
      }
      NeverOverNeverEvicts(states, events, i - 1);
      NeverOverEvent(states[i - 1], events[i - 1]);
    }
  }

  /** In such runs a clean model is what the file holds if and only if it was founded on the file. */
  lemma {:induction false} CleanMeansSavedBelowTheLimit(file: Entries, states: seq<App>, events: seq<Event>, i: nat)
    requires IsHistory(states, events) && states[0] == Start(file) && i < |states|
    requires NeverOver(states, events)
    requires !states[i].saturated && !states[i].loading && !states[i].dirty
    ensures File(states[i].saves) == states[i].model <==> Founded(states[i])
  {
    CleanMeansSaved(file, states, events, i);
    NeverOverNeverEvicts(states, events, i);
  }

  /** A save that was asked for while another save or the load was pending is not forgotten: one
      of the two is still to complete, and its completion saves again; or shutdown has begun, whose
      flush saves whatever is unsaved then. */
  lemma {:induction false} CoalescedSaveIsOwed(file: Entries, states: seq<App>, events: seq<Event>, i: nat)
    requires IsHistory(states, events) && states[0] == Start(file) && i < |states|
    ensures states[i].again ==> states[i].pending.Some? || states[i].loading || states[i].stopping
    ensures states[i].pending.Some? ==> states[i].pending.value in states[i].saves.requests
  {
    StartIsConsistent(file);
    HistoryIsConsistent(states, events, i);
  }

  /** A save of the model as it is has been started as request id. */
  ghost predicate IsStarted(s: App, id: nat) {
    && s.pending == Some(id) && id in s.saves.requests
    && s.saves.requests[id] == Request(s.mutations, s.model, Created) && s.saves.scheduled == s.mutations
  }

  /** The event ends a load or a save; `memory` says whether a new request can be made. */
  predicate Ends(e: Event, id: nat, memory: bool) {
    match e
    case LoadDone(_, _, i, m) => i == id && m == memory
    case LoadFailed(i, m) => i == id && m == memory
    case Complete(i, m) => i == id && m == memory
    case _ => false
  }

  lemma SavedStarts(s: App, id: nat, ok: bool)
    requires s.saves.owned && id !in s.saves.requests
    ensures var t := Saved(s, id, ok);
      if !s.dirty then t == s
      else if s.loading || s.pending.Some? then t == s.(again := true)
      else if ok then t.dirty && t.again == s.again && t.model == s.model && t.mutations == s.mutations && IsStarted(t, id)
      else t == s
  {
  }

  lemma ResumedStarts(s: App, id: nat, ok: bool)
    requires s.saves.owned && id !in s.saves.requests && s.again && !s.stopping && !s.loading && s.pending.None?
    ensures var t := Resumed(s, id, ok);
      && !t.again && t.dirty == s.dirty
      && (if s.dirty && ok then IsStarted(t, id) else t.pending.None?)
  {
    SavedStarts(s.(again := false), id, ok);
    hide Saved, IsStarted;
  }

  lemma EndsIdle(s: App, e: Event, id: nat, memory: bool)
    requires Consistent(s) && Possible(s, e) && Ends(e, id, memory) && s.again && !s.stopping
    ensures var t := Happened(s, e);
      && !t.again && (if t.dirty && memory then IsStarted(t, id) else t.pending.None?)
  {
    hide Data, CleanTracked, SavesTracked, Resumed, Saved, IsStarted;
    match e
    case LoadDone(model, marks, _, ok) => ResumedStarts(Loaded(s, model, marks), id, ok);
    case LoadFailed(_, ok) => ResumedStarts(s.(loading := false), id, ok);
    case Complete(_, ok) => ResumedStarts(Completed(s), id, ok);
  }

  /** The save that is owed is made: in every run the completion of the load or save that it waited
      for starts a save of the model as it is then, unless there is nothing left to save, no memory
      for a request, or shutdown has begun. */
  lemma {:induction false} OwedSaveStarts(file: Entries, states: seq<App>, events: seq<Event>, i: nat, id: nat, memory: bool)
    requires IsHistory(states, events) && states[0] == Start(file) && i < |events|
    requires Ends(events[i], id, memory) && states[i].again && !states[i].stopping
    ensures var t := states[i + 1];
      && !t.again && (if t.dirty && memory then IsStarted(t, id) else t.pending.None?)
  {
    hide *;
    StartIsConsistent(file);
    HistoryLengths(states, events);
    HistoryIsConsistent(states, events, i);
    HistoryStep(states, events, i);
    EndsIdle(states[i], events[i], id, memory);
  }

  /** Asking for a save of a changed model starts one, or is remembered while a load or another save
      is under way; only a lack of memory drops it. */
  lemma {:induction false} SaveIsStartedOrOwed(s: App, id: nat, memory: bool)
    requires Possible(s, Save(id, memory)) && s.dirty
    ensures var t := Happened(s, Save(id, memory));
      && t.dirty && t.model == s.model && t.mutations == s.mutations
      && (if s.loading || s.pending.Some? then t.again && t.pending == s.pending
          else if memory then IsStarted(t, id) else t == s)
  {
    SavedStarts(s, id, memory);
    hide Saved, IsStarted;
  }

  /** A closing, clean model and its file stay as they are. */
  ghost predicate Settled(s: App, s': App) {
    && s'.closing && !s'.dirty && s'.model == s.model && s'.loading == s.loading
    && s'.saves.published == s.saves.published && s'.saves.original == s.saves.original
  }

  lemma {:induction false} ClosedEvent(s: App, e: Event)
    requires Consistent(s) && Possible(s, e) && s.closing && !s.dirty && !s.loading
    ensures Settled(s, Happened(s, e))
  {
    if e.Worker? {
      WorkerAndFile(s, e.step);
      hide Data, Replaces, Apply;
    } else {
      hide Consistent;
    }
  }

  lemma {:induction false} ClosedStaysClean(states: seq<App>, events: seq<Event>, i: nat, j: nat)
    requires IsHistory(states, events) && i <= j < |states| && Consistent(states[0])
    requires states[i].closing && !states[i].dirty && !states[i].loading
    ensures Settled(states[i], states[j])
  {
    hide Happened, Possible, Consistent;
    if i < j {
      ClosedStaysClean(states, events, i, j - 1);
      HistoryIsConsistent(states, events, j - 1);
      ClosedEvent(states[j - 1], events[j - 1]);
    }
  }

  /** Durability of the shutdown flush: once it has left the model clean, the file holds the final
      model for ever, whatever save workers are still under way, if and only if it was founded on
      the file and no empty snapshot has evicted records since the file's snapshot was taken. */
  lemma {:induction false} FlushIsDurable(file: Entries, states: seq<App>, events: seq<Event>, i: nat, j: nat)
    requires IsHistory(states, events) && states[0] == Start(file) && i <= j < |states|
    requires states[i].closing && !states[i].dirty
    requires !states[i].saturated && !states[i].loading
    ensures File(states[j].saves) == states[i].model <==> Founded(states[i]) && states[i].filed == states[i].evictions
  {
    StartIsConsistent(file);
    ClosedStaysClean(states, events, i, j);
    CleanMeansSaved(file, states, events, i);
    hide IsHistory, Founded;
  }

  // ----- The saturating mutation generation -----

  /** Nothing stands in the way of a change followed by a shutdown flush. */
  ghost predicate Quiet(s: App, id: nat) {
    && Consistent(s) && !s.loading && s.flushing.None? && s.saves.owned && !s.stopping && !s.closing
    && s.saves.holder.None? && id !in s.saves.requests
  }

  /** A change of the model and the start of the shutdown flush. */
  ghost function ChangedAndClosing(s: App, model: Entries, id: nat): App
    requires Quiet(s, id)
  {
    Happened(Happened(Happened(Happened(s, Mutate(model)), Stop), Close), FlushStart(id))
  }

  lemma FlushStarts(s: App, model: Entries, id: nat)
    requires Quiet(s, id)
    ensures var t, r := ChangedAndClosing(s, model, id), Request(NextMutation(s.mutations), model, Created);
            && t.flushing == Some(id) && t.dirty && t.model == model && Alone(t.saves, id)
            && t.saves.requests[id] == r && t.saves.scheduled == r.generation
            && t.saves.written == s.saves.written && t.saves.published == s.saves.published
            && t.saves.original == s.saves.original && t.saves.owned && t.closing
  {
    ScheduledIsSound(Happened(Happened(Happened(s, Mutate(model)), Stop), Close), id);
    hide Sound;
  }

  /** The flush runs to its end undisturbed and without failures. */
  ghost function ChangedAndFlushed(s: App, model: Entries, id: nat): App
    requires Quiet(s, id)
  {
    FlushStarts(s, model, id);
    var t := ChangedAndClosing(s, model, id);
    RunAloneEnds(t.saves, id, true, true);
    Happened(t.(saves := RunAlone(t.saves, id, true, true)), FlushEnd)
  }

  lemma FlushEnds(t: App, id: nat, saves: Coordinator)
    requires t.flushing == Some(id) && id in t.saves.requests && EndsIn(t.saves, id, true, true, saves)
    requires t.saves.requests[id].phase.Created? && t.saves.scheduled == t.saves.requests[id].generation
    ensures Possible(t.(saves := saves), FlushEnd)
    ensures var e := Happened(t.(saves := saves), FlushEnd);
            && !e.dirty && e.model == t.model && e.saves == saves && e.closing == t.closing && e.flushing.None?
            && saves.owned == t.saves.owned
            && File(saves) == if t.saves.requests[id].generation <= t.saves.written then File(t.saves)
                              else t.saves.requests[id].snapshot
  {
  }

  /** Such a flush always leaves the model marked clean, and the file then holds the model exactly
      when the greatest generation had not been written before: once it has, the change is lost. */
  lemma {:induction false} FlushWorksUntilSaturation(s: App, model: Entries, id: nat)
    requires Quiet(s, id) && model != File(s.saves)
    ensures var e := ChangedAndFlushed(s, model, id);
            && !e.dirty && e.model == model
            && (File(e.saves) == model <==> s.saves.written != U32_MAX)
  {
    QuietFacts(s, id);
    hide RunAlone, Alone, Quiet, ChangedAndClosing, Sound, Consistent, EndsIn, Happened, Possible;
    FlushStarts(s, model, id);
    var t := ChangedAndClosing(s, model, id);
    RunAloneEnds(t.saves, id, true, true);
    FlushEnds(t, id, RunAlone(t.saves, id, true, true));
  }

  lemma QuietFacts(s: App, id: nat)
    requires Quiet(s, id)
    ensures s.saves.written == FileGeneration(s.saves) <= s.mutations <= U32_MAX
  {
  }
}
