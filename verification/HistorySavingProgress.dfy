/** What loads, saves and the shutdown flush achieve (src/history.c), beside what module HistorySaving
    proves that they keep. */
module HistorySavingProgress {
  import opened Basics
  import opened RecencyOrder
  import opened HistoryStore
  import opened HistoryMerge
  import opened SaveCoordinator
  import opened HistoryModel
  import opened HistorySaving

  /** The end of a load or save starts no save that nobody asked for, and none during shutdown. */
  lemma {:induction false} NoSaveUnasked(file: Entries, states: seq<App>, events: seq<Event>, i: nat, id: nat, memory: bool)
    requires IsHistory(states, events) && states[0] == Start(file) && i < |events|
    requires Ends(events[i], id, memory) && (!states[i].again || states[i].stopping)
    ensures var s, t := states[i], states[i + 1];
      t.pending.None? && t.again == s.again && t.saves == s.saves && !t.loading
  {
    StartIsConsistent(file);
    HistoryLengths(states, events);
    HistoryIsConsistent(states, events, i);
    HistoryStep(states, events, i);
    NoSaveAtEnd(states[i], events[i], id, memory);
  }

  lemma NoSaveAtEnd(s: App, e: Event, id: nat, memory: bool)
    requires Consistent(s) && Possible(s, e) && Ends(e, id, memory) && (!s.again || s.stopping)
    ensures var t := Happened(s, e);
      t.pending.None? && t.again == s.again && t.saves == s.saves && !t.loading
  {
    hide Data, CleanTracked, SavesTracked, Resumed, Loaded, Completed;
    match e
    case LoadDone(model, marks, _, ok) =>
      LoadedFlags(s, model, marks);
      ResumedIdle(Loaded(s, model, marks), id, ok);
    case LoadFailed(_, ok) => ResumedIdle(s.(loading := false), id, ok);
    case Complete(_, ok) =>
      CompletedFlags(s);
      ResumedIdle(Completed(s), id, ok);
  }

  lemma ResumedIdle(s: App, id: nat, ok: bool)
    requires s.saves.owned && id !in s.saves.requests && (!s.again || s.stopping)
    ensures Resumed(s, id, ok) == s
  {
  }

  lemma LoadedFlags(s: App, model: Entries, marks: bool)
    ensures var t := Loaded(s, model, marks);
      && t.saves == s.saves && t.pending == s.pending && t.again == s.again && t.stopping == s.stopping && !t.loading
      && t.mutations == if marks then NextMutation(s.mutations) else s.mutations
  {
  }

  lemma CompletedFlags(s: App)
    requires s.pending.Some? && IsFinished(s, s.pending.value)
    ensures var t := Completed(s);
      && t.saves == s.saves && t.pending.None? && t.again == s.again && t.stopping == s.stopping
      && t.loading == s.loading && t.mutations == s.mutations
  {
  }

  /** The event marks the model dirty. */
  predicate Marks(e: Event) {
    e.Mutate? || (e.LoadDone? && e.marks)
  }

  ghost predicate StaysPending(s: App, t: App, id: nat) {
    && t.pending == Some(id) && id in s.saves.requests && id in t.saves.requests
    && t.saves.requests[id].generation == s.saves.requests[id].generation
  }

  lemma WorkerKeepsPending(s: App, a: Action, id: nat)
    requires CanWork(s, a) && s.pending == Some(id) && id in s.saves.requests
    ensures StaysPending(s, Worked(s, a), id) && Worked(s, a).mutations == s.mutations
  {
    CanWorkMeans(s, a);
    WorkedIs(s, a);
    WorkerKeepsRequests(s.saves, a);
    hide Apply, Enabled, Replaces, Worked, Seen;
  }

  lemma FlushKeepsPending(s: App, other: nat, id: nat)
    requires Sound(s.saves) && s.saves.owned && other !in s.saves.requests && s.pending == Some(id) && id in s.saves.requests
    ensures StaysPending(s, Requested(s, other), id) && Requested(s, other).mutations == s.mutations
  {
    ScheduledIsSound(s, other);
    hide Sound, Scheduled;
  }

  /** A request keeps its generation until its completion, and only what marks the model changes the
      model's own. */
  lemma PendingStays(s: App, e: Event, id: nat)
    requires Consistent(s) && Possible(s, e) && s.pending == Some(id) && !e.Complete?
    ensures StaysPending(s, Happened(s, e), id)
    ensures Happened(s, e).mutations == if Marks(e) then NextMutation(s.mutations) else s.mutations
  {
    PendingIsRequest(s, id);
    SoundAndIdle(s);
    hide Consistent, Sound, Worked, CanWork, Requested, IsTrim, Resumed, NextMutation;
    if e.Worker? {
      WorkerKeepsPending(s, e.step, id);
    } else if e.FlushStart? {
      FlushKeepsPending(s, e.id, id);
      hide StaysPending;
    }
  }

  lemma SoundAndIdle(s: App)
    requires Consistent(s)
    ensures Sound(s.saves) && (s.pending.Some? ==> !s.loading)
  {
    hide Sound;
  }

  lemma {:induction false} PendingSince(states: seq<App>, events: seq<Event>, i: nat, j: nat, id: nat)
    requires IsHistory(states, events) && Consistent(states[0]) && i <= j < |states| && states[i].pending == Some(id)
    requires forall k :: i <= k < j ==> !events[k].Complete?
    ensures StaysPending(states[i], states[j], id)
    ensures states[i].mutations <= states[j].mutations
    ensures states[i].mutations < states[j].mutations <==> states[i].mutations < U32_MAX && exists k :: i <= k < j && Marks(events[k])
  {
    hide *;
    HistoryLengths(states, events);
    HistoryIsConsistent(states, events, i);
    PendingIsRequest(states[i], id);
    if i < j {
      PendingSince(states, events, i, j - 1, id);
      HistoryIsConsistent(states, events, j - 1);
      HistoryStep(states, events, j - 1);
      StillPending(states[i], states[j - 1], id);
      PendingStays(states[j - 1], events[j - 1], id);
      PendingFollows(states[i], states[j - 1], states[j], id);
      GenerationFits(states[j - 1]);
      NextIsMore(states[j - 1].mutations);
    } else {
      PendingFromHere(states[i], id);
    }
  }

  lemma StillPending(s: App, t: App, id: nat)
    requires StaysPending(s, t, id)
    ensures t.pending == Some(id)
  {
  }

  lemma PendingFromHere(s: App, id: nat)
    requires s.pending == Some(id) && id in s.saves.requests
    ensures StaysPending(s, s, id)
  {
  }

  lemma PendingFollows(s: App, t: App, u: App, id: nat)
    requires StaysPending(s, t, id) && StaysPending(t, u, id)
    ensures StaysPending(s, u, id)
  {
  }

  lemma PendingIsRequest(s: App, id: nat)
    requires Consistent(s) && s.pending == Some(id)
    ensures id in s.saves.requests
  {
    hide Data;
  }

  lemma GenerationFits(s: App)
    requires Consistent(s)
    ensures s.mutations <= U32_MAX
  {
    hide Data;
  }

  lemma NextIsMore(n: nat)
    requires n <= U32_MAX
    ensures n <= NextMutation(n) <= U32_MAX && (n < NextMutation(n) <==> n < U32_MAX)
  {
  }

  /** A save, started by event i and completed by event j, leaves the model dirty exactly when it did
      not write its snapshot, or the model was changed since and had a generation left to say so. */
  lemma {:induction false} SaveClears(file: Entries, states: seq<App>, events: seq<Event>, i: nat, j: nat, id: nat)
    requires IsHistory(states, events) && states[0] == Start(file) && i < j < |events|
    requires IsStarted(states[i + 1], id) && events[j].Complete? && forall k :: i < k < j ==> !events[k].Complete?
    ensures states[j].pending == Some(id) && IsFinished(states[j], id)
    ensures
      var phase := states[j].saves.requests[id].phase;
      var changed := states[i + 1].mutations < U32_MAX && exists k :: i < k < j && Marks(events[k]);
      states[j + 1].dirty <==> states[j].dirty && (phase.failed || !phase.wrote || changed)
  {
    hide *;
    StartIsConsistent(file);
    HistoryLengths(states, events);
    StartedMeans(states[i + 1], id);
    PendingSince(states, events, i + 1, j, id);
    PendingMeans(states[i + 1], states[j], id);
    HistoryIsConsistent(states, events, j);
    HistoryStep(states, events, j);
    CompletedClears(states[j], events[j], id);
    if states[i + 1].mutations < U32_MAX {
      if k :| i < k < j && Marks(events[k]) {
        assert i + 1 <= k < j && Marks(events[k]);
      }
    }
  }

  lemma PendingMeans(s: App, t: App, id: nat)
    requires StaysPending(s, t, id)
    ensures t.pending == Some(id) && id in s.saves.requests && id in t.saves.requests
    ensures t.saves.requests[id].generation == s.saves.requests[id].generation
  {
  }

  lemma StartedMeans(s: App, id: nat)
    requires IsStarted(s, id)
    ensures s.pending == Some(id) && id in s.saves.requests && s.saves.requests[id].generation == s.mutations
  {
  }

  lemma CompletedClears(s: App, e: Event, id: nat)
    requires Consistent(s) && Possible(s, e) && e.Complete? && s.pending == Some(id)
    ensures IsFinished(s, id)
    ensures var r := s.saves.requests[id];
      Happened(s, e).dirty <==> s.dirty && (r.phase.failed || !r.phase.wrote || r.generation != s.mutations)
  {
    hide Data, Tracked;
  }

  /** The initial load can end as the merge leaves the model, whatever it held by then. */
  lemma {:induction false} MergeIsPossible(s: App, loaded: Entries, truncated: bool, protected: nat, model: Entries, id: nat, memory: bool)
    requires Ready(s) && !s.closing && s.loading && id !in s.saves.requests
    requires |loaded| <= LIMIT && (!truncated ==> loaded == s.saves.original)
    requires IsTrim(Merged(s.model, loaded), protected, Excess(|Merged(s.model, loaded)|), model)
    ensures Possible(s, LoadDone(model, truncated || model != Merged(s.model, loaded), id, memory))
  {
    MergeIntoEmpty(loaded);
    hide IsTrim;
  }

  /** After an undisturbed flush the coordinator can be released; the file stays. */
  lemma {:induction false} FlushReleases(s: App, model: Entries, id: nat)
    requires Quiet(s, id)
    ensures var e := ChangedAndFlushed(s, model, id);
      && Possible(e, Release) && !Happened(e, Release).saves.owned
      && File(Happened(e, Release).saves) == File(e.saves) && Happened(e, Release).model == model
  {
    hide *;
    FlushIsReady(s, model, id);
    ReleaseLeavesFile(ChangedAndFlushed(s, model, id));
  }

  lemma FlushIsReady(s: App, model: Entries, id: nat)
    requires Quiet(s, id)
    ensures var e := ChangedAndFlushed(s, model, id);
      e.flushing.None? && e.saves.owned && e.closing && e.model == model
  {
    FlushStarts(s, model, id);
    var t := ChangedAndClosing(s, model, id);
    RunAloneEnds(t.saves, id, true, true);
    FlushEnds(t, id, RunAlone(t.saves, id, true, true));
    hide RunAlone, Alone, Quiet, ChangedAndClosing, EndsIn, Happened, Possible;
  }

  lemma ReleaseLeavesFile(e: App)
    requires e.flushing.None? && e.saves.owned && e.closing
    ensures Possible(e, Release)
    ensures var r := Happened(e, Release);
      !r.saves.owned && File(r.saves) == File(e.saves) && r.model == e.model
  {
  }
}
