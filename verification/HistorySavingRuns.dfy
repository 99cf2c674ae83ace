/** Runs of the save protocol (src/history.c) in which a clean model is not what the file holds:
    each of the conditions in module HistorySaving is needed. */
module HistorySavingRuns {
  import opened Basics
  import opened RecencyOrder
  import opened HistoryStore
  import opened SaveCoordinator
  import opened HistoryModel
  import opened HistorySaving

  ghost predicate Reaches(s: App, t: App) {
    exists states, events :: IsHistory(states, events) && states[0] == s && states[|events|] == t
  }

  lemma ReachesItself(s: App)
    ensures Reaches(s, s)
  {
    var events: seq<Event> := [];
    assert IsHistory([s], events) && [s][|events|] == s;
  }

  lemma {:induction false} ReachesNext(s: App, t: App, e: Event)
    requires Reaches(s, t) && Possible(t, e)
    ensures Reaches(s, Happened(t, e))
  {
    var states, events :| IsHistory(states, events) && states[0] == s && states[|events|] == t;
    var longer, more := states + [Happened(t, e)], events + [e];
    hide Possible, Happened, Reaches;
    HistoryGrows(states, events, e);
    assert longer[0] == s && longer[|more|] == Happened(t, e);
    ReachedBy(longer, more);
  }

  lemma ReachedBy(states: seq<App>, events: seq<Event>)
    requires IsHistory(states, events)
    ensures Reaches(states[0], states[|events|])
  {
    hide IsHistory;
  }

  lemma {:induction false} HistoryGrows(states: seq<App>, events: seq<Event>, e: Event)
    requires IsHistory(states, events) && Possible(states[|events|], e)
    ensures IsHistory(states + [Happened(states[|events|], e)], events + [e])
  {
    hide Possible, Happened;
    var longer, more := states + [Happened(states[|events|], e)], events + [e];
    forall i | 0 <= i < |more| ensures Possible(longer[i], more[i]) && longer[i + 1] == Happened(longer[i], more[i]) {
      if i < |events| {
        HistoryStep(states, events, i);
      }
    }
  }

  lemma MutateIs(t: App, m: Entries)
    requires Ready(t) && !t.closing && t.mutations < U32_MAX
    ensures Possible(t, Mutate(m))
    ensures var next := t.(model := m, mutations := t.mutations + 1, dirty := true);
      Happened(t, Mutate(m)) == next && Ready(next)
  {
  }

  /** Any number of changes, as long as the mutation generation has room for them. */
  lemma {:induction false} MutatedOften(s: App, t: App, m: Entries, n: nat)
    requires Reaches(s, t) && Ready(t) && !t.closing && n > 0 && t.mutations + n <= U32_MAX
    ensures Reaches(s, t.(model := m, mutations := t.mutations + n, dirty := true))
    decreases n
  {
    hide *;
    MutateIs(t, m);
    ReachesNext(s, t, Mutate(m));
    var next := t.(model := m, mutations := t.mutations + 1, dirty := true);
    if n > 1 {
      MutatedOften(s, next, m, n - 1);
      assert next.(model := m, mutations := next.mutations + (n - 1), dirty := true) ==
             t.(model := m, mutations := t.mutations + n, dirty := true);
    }
  }

  lemma WorkerIs(t: App, id: nat)
    requires Enabled(t.saves, Advance(id, true)) && id in t.saves.requests
    ensures Possible(t, Worker(Advance(id, true)))
    ensures var next := Happened(t, Worker(Advance(id, true)));
      next == t.(saves := Advanced(t.saves, id, true), filed := next.filed)
  {
    hide Advanced, Enabled;
  }

  lemma AloneMeans(s: Coordinator, id: nat)
    requires Alone(s, id)
    ensures id in s.requests && (s.requests[id].phase.Finished? ==> RunAlone(s, id, true, true) == s)
  {
    hide Sound, Advanced;
  }

  lemma RunAloneGoesOn(s: Coordinator, id: nat)
    requires Alone(s, id) && !s.requests[id].phase.Finished? && Alone(Advanced(s, id, true), id)
    ensures RunAlone(s, id, true, true) == RunAlone(Advanced(s, id, true), id, true, true)
  {
    hide Sound, Advanced;
  }

  /** A request's own steps, one after the other, to its end. */
  lemma {:induction false} WorkedAlone(s: App, t: App, id: nat) returns (filed: nat)
    requires Reaches(s, t) && Alone(t.saves, id)
    ensures Reaches(s, t.(saves := RunAlone(t.saves, id, true, true), filed := filed))
    decreases StepsLeft(t.saves.requests[id].phase)
  {
    hide *;
    AloneMeans(t.saves, id);
    if t.saves.requests[id].phase.Finished? {
      filed := t.filed;
      assert t.(saves := RunAlone(t.saves, id, true, true), filed := filed) == t;
    } else {
      AloneStays(t.saves, id, true);
      WorkerIs(t, id);
      ReachesNext(s, t, Worker(Advance(id, true)));
      var next := Happened(t, Worker(Advance(id, true)));
      RunAloneGoesOn(t.saves, id);
      AloneMeans(next.saves, id);
      filed := WorkedAlone(s, next, id);
      assert next.(saves := RunAlone(next.saves, id, true, true), filed := filed) ==
             t.(saves := RunAlone(t.saves, id, true, true), filed := filed);
    }
  }

  /** Nothing stands in the way of a save. */
  ghost predicate CanSave(t: App, id: nat) {
    && Consistent(t) && Ready(t) && !t.stopping && !t.closing && !t.loading && !t.again && t.pending.None?
    && t.saves.holder.None? && id !in t.saves.requests && t.dirty && FileGeneration(t.saves) < t.mutations
  }

  /** After an undisturbed save: the file holds the model, with the model's generation. */
  ghost predicate IsSaved(t: App, e: App) {
    && Consistent(e) && Ready(e) && !e.stopping && !e.closing && !e.loading && !e.again && e.pending.None? && e.saves.holder.None?
    && !e.dirty && e.saturated == t.saturated && e.model == t.model && e.mutations == t.mutations && e.merged == t.merged
    && File(e.saves) == t.model && e.saves.published != [] && e.saves.written == t.mutations
    && e.saves.original == t.saves.original
  }

  lemma {:induction false} SaveStarts(t: App, id: nat)
    requires CanSave(t, id)
    ensures t.saves.owned && id !in t.saves.requests
    ensures var u := Requested(t, id).(pending := Some(id));
      && u.saves.requests == t.saves.requests[id := Request(t.mutations, t.model, Created)]
      && Possible(t, Save(id, true)) && Happened(t, Save(id, true)) == u && Consistent(u) && Alone(u.saves, id)
      && u.saves.requests[id] == Request(t.mutations, t.model, Created) && u.saves.scheduled == t.mutations
      && u.saves.written == FileGeneration(t.saves) && u.saves.published == t.saves.published
      && u.saves.original == t.saves.original && u.saves.owned
  {
    EventIsConsistent(t, Save(id, true));
    FileIsCurrent(t);
  }

  lemma FileIsCurrent(t: App)
    requires Consistent(t) && t.saves.holder.None?
    ensures t.saves.written == FileGeneration(t.saves)
  {
  }

  lemma {:induction false} ReachesConsistent(s: App, t: App)
    requires Reaches(s, t) && Consistent(s)
    ensures Consistent(t)
  {
    var states, events :| IsHistory(states, events) && states[0] == s && states[|events|] == t;
    hide Consistent;
    HistoryIsConsistent(states, events, |events|);
  }

  /** The worker's end of an undisturbed save. */
  lemma SaveEnds(u: App, id: nat, saves: Coordinator)
    requires id in u.saves.requests && u.saves.requests[id] == Request(u.mutations, u.model, Created)
    requires u.saves.scheduled == u.mutations && u.saves.written < u.mutations && EndsIn(u.saves, id, true, true, saves)
    ensures saves.requests == u.saves.requests[id := Request(u.mutations, u.model, Finished(false, true))]
    ensures File(saves) == u.model && saves.published != [] && saves.written == u.mutations && saves.holder.None?
    ensures saves.original == u.saves.original && saves.owned == u.saves.owned
  {
  }

  /** The completion callback of such a save finds its own generation written. */
  lemma SaveCompletes(v: App, id: nat, other: nat)
    requires Ready(v) && !v.stopping && !v.closing && v.pending == Some(id) && !v.again && id in v.saves.requests && other !in v.saves.requests
    requires v.saves.requests[id] == Request(v.mutations, v.model, Finished(false, true))
    ensures Possible(v, Complete(other, true))
    ensures Happened(v, Complete(other, true)) == v.(pending := None, dirty := false)
  {
  }

  /** From the worker's end to the main thread's. */
  lemma {:induction false} SaveCloses(t: App, u: App, id: nat, saves: Coordinator, filed: nat, other: nat)
    requires CanSave(t, id) && u == Requested(t, id).(pending := Some(id)) && other !in t.saves.requests && other != id
    requires u.saves.requests == t.saves.requests[id := Request(t.mutations, t.model, Created)]
    requires u.saves.scheduled == t.mutations && u.saves.written == FileGeneration(t.saves)
    requires u.saves.original == t.saves.original && u.saves.owned && EndsIn(u.saves, id, true, true, saves)
    ensures var v := u.(saves := saves, filed := filed);
      && Possible(v, Complete(other, true)) && Happened(v, Complete(other, true)) == v.(pending := None, dirty := false)
    ensures var e := u.(saves := saves, filed := filed).(pending := None, dirty := false);
      (Consistent(e) ==> IsSaved(t, e)) && e.saves.requests.Keys == t.saves.requests.Keys + {id}
  {
    var v := u.(saves := saves, filed := filed);
    hide Consistent, Possible, Happened, EndsIn, Scheduled;
    SaveEnds(u, id, saves);
    SaveCompletes(v, id, other);
  }

  lemma {:induction false} SavedAlone(s: App, t: App, id: nat, other: nat) returns (e: App)
    requires Consistent(s) && Reaches(s, t) && CanSave(t, id) && other !in t.saves.requests && other != id
    ensures Reaches(s, e) && IsSaved(t, e) && e.saves.requests.Keys == t.saves.requests.Keys + {id}
  {
    SaveStarts(t, id);
    hide *;
    ReachesNext(s, t, Save(id, true));
    var u := Requested(t, id).(pending := Some(id));
    var filed := WorkedAlone(s, u, id);
    RunAloneEnds(u.saves, id, true, true);
    SaveCloses(t, u, id, RunAlone(u.saves, id, true, true), filed, other);
    var v := u.(saves := RunAlone(u.saves, id, true, true), filed := filed);
    ReachesNext(s, v, Complete(other, true));
    e := v.(pending := None, dirty := false);
    ReachesConsistent(s, e);
  }

  // ----- The three ways of being clean and not saved -----

  /** A failed initial load of a file with records leaves an empty model that is marked clean. */
  lemma {:induction false} FailedLoadLooksClean(file: Entries, id: nat) returns (e: App)
    requires file != map[]
    ensures Reaches(Start(file), e) && !e.dirty && !e.loading && !e.saturated && !Founded(e)
    ensures File(e.saves) != e.model
  {
    ReachesItself(Start(file));
    ReachesNext(Start(file), Start(file), LoadFailed(id, true));
    e := Start(file).(loading := false);
    assert Happened(Start(file), LoadFailed(id, true)) == e;
  }

  /** The first start, without a file, and one change. */
  lemma {:induction false} FirstChange(m: Entries) returns (t: App)
    ensures Reaches(Start(map[]), t) && CanSave(t, 0) && t.model == m && t.saves.requests == map[] && !t.saturated
    ensures t.saves.original == map[] && t.mutations == 1
  {
    var start := Start(map[]);
    ReachesItself(start);
    ReachesNext(start, start, LoadFailed(0, true));
    var loaded := start.(loading := false);
    assert Happened(start, LoadFailed(0, true)) == loaded;
    ReachesNext(start, loaded, Mutate(m));
    t := Marked(loaded.(model := m));
    assert Happened(loaded, Mutate(m)) == t;
    StartIsConsistent(map[]);
    ReachesConsistent(start, t);
    hide Consistent, Reaches;
  }

  /** A saved model that is over its limit, with a record that may go: the next empty snapshot
      evicts records and leaves the model marked clean. */
  lemma {:induction false} EmptySnapshotLooksClean(m: Entries, protected: nat) returns (e: App)
    requires Keyed(m) && |m| > LIMIT && Candidates(m, protected) != {}
    ensures Reaches(Start(map[]), e) && !e.dirty && !e.loading && !e.saturated && Founded(e) && e.filed != e.evictions
    ensures File(e.saves) == m && |e.model| < |m|
  {
    var start := Start(map[]);
    var t := FirstChange(m);
    StartIsConsistent(map[]);
    var saved := SavedAlone(start, t, 0, 1);
    var left := TrimExists(m, protected, Excess(|m|));
    TrimChanges(m, protected, left);
    hide IsTrim, Candidates, Reaches, Consistent;
    assert Possible(saved, EmptySnapshot(protected, left));
    ReachesNext(start, saved, EmptySnapshot(protected, left));
    e := Emptied(saved, left);
    SavedIsSeen(start, saved);
  }

  lemma SavedIsSeen(s: App, e: App)
    requires Consistent(e) && !e.dirty && !e.loading && !e.saturated && e.saves.published != [] && File(e.saves) == e.model
    ensures e.filed == e.evictions
  {
  }

  /** An application's record, live in generation 1. */
  function RecordOf(key: string): (e: Entry)
    ensures e.key == key && e.live == 1
  {
    Entry(key, "", "", "", 0, 0, 0, 0, 0, 0, 0, 0, 0).(live := 1)
  }

  /** The records of n applications. */
  function Records(n: nat): (r: Entries)
    ensures |r| == n && forall k :: k in r ==> |k| < n && r[k] == RecordOf(k)
  {
    if n == 0 then map[]
    else
      var key, others := Repeated(n - 1), Records(n - 1);
      assert others[key := RecordOf(key)].Keys == others.Keys + {key} && key !in others;
      others[key := RecordOf(key)]
  }

  function Repeated(n: nat): (r: string)
    ensures |r| == n
  {
    if n == 0 then "" else Repeated(n - 1) + "a"
  }

  /** Such models exist: a snapshot with one application too many, after which no process is left. */
  lemma RecordsOverTheLimit()
    ensures Keyed(Records(LIMIT + 1)) && |Records(LIMIT + 1)| > LIMIT && Candidates(Records(LIMIT + 1), 2) != {}
  {
    var m := Records(LIMIT + 1);
    hide Records, RecordOf;
    assert m.Keys != {};
    var k :| k in m;
    assert m[k] == RecordOf(k);
    LiveInFirst(k);
    assert k in Candidates(m, 2);
    forall j | j in m ensures m[j].key == j {
      LiveInFirst(j);
    }
  }

  lemma LiveInFirst(key: string)
    ensures RecordOf(key).key == key && RecordOf(key).live == 1
  {
  }

  /** Such a run: one application too many is saved, and the next snapshot is empty. */
  lemma {:induction false} TrimmedModelLooksClean() returns (e: App)
    ensures Reaches(Start(map[]), e) && !e.dirty && !e.loading && !e.saturated
    ensures File(e.saves) == Records(LIMIT + 1) && |e.model| < |File(e.saves)|
  {
    hide *;
    RecordsOverTheLimit();
    e := EmptySnapshotLooksClean(Records(LIMIT + 1), 2);
  }

  lemma {:induction false} FullIsReached(s: App, t: App, m: Entries)
    requires Consistent(s) && Reaches(s, t) && CanSave(t, 0) && t.mutations < U32_MAX && t.saves.requests == map[]
    requires FileGeneration(t.saves) < U32_MAX
    ensures var full := t.(model := m, mutations := U32_MAX, dirty := true);
      Reaches(s, full) && CanSave(full, 0)
  {
    MutatedOften(s, t, m, U32_MAX - t.mutations);
    var full := t.(model := m, mutations := U32_MAX, dirty := true);
    assert full == t.(model := m, mutations := t.mutations + (U32_MAX - t.mutations), dirty := true);
    ReachesConsistent(s, full);
    hide Consistent, Reaches;
  }

  /** A change and the shutdown flush that follows it, run to its end. */
  lemma {:induction false} FlushedAlone(s: App, t: App, model: Entries, id: nat) returns (e: App)
    requires Consistent(s) && Reaches(s, t) && Quiet(t, id)
    ensures Reaches(s, e) && e.closing && !e.dirty && e.model == model
    ensures File(e.saves) == if NextMutation(t.mutations) <= t.saves.written then File(t.saves) else model
  {
    hide Reaches, Consistent, Alone, RunAlone, EndsIn, Sound;
    FlushStarts(t, model, id);
    var changed := Happened(t, Mutate(model));
    var stopped := Happened(changed, Stop);
    var closed := Happened(stopped, Close);
    var u := ChangedAndClosing(t, model, id);
    ReachesNext(s, t, Mutate(model));
    ReachesNext(s, changed, Stop);
    ReachesNext(s, stopped, Close);
    ReachesNext(s, closed, FlushStart(id));
    hide Possible, Happened, Quiet, ChangedAndClosing;
    RunAloneEnds(u.saves, id, true, true);
    var filed := WorkedAlone(s, u, id);
    var v := u.(filed := filed);
    FlushEnds(v, id, RunAlone(u.saves, id, true, true));
    var worked := v.(saves := RunAlone(u.saves, id, true, true));
    assert worked == u.(saves := RunAlone(u.saves, id, true, true), filed := filed);
    ReachesNext(s, worked, FlushEnd);
    e := Happened(worked, FlushEnd);
  }

  /** After as many changes as the mutation generation can count, and one save, a further change
      is lost: the shutdown flush ends clean, and the file does not hold the model. */
  lemma {:induction false} LastChangeIsLost(m: Entries, model: Entries) returns (e: App)
    requires model != m
    ensures Reaches(Start(map[]), e) && e.closing && !e.dirty && e.model == model && File(e.saves) == m
  {
    var start := Start(map[]);
    var t := FirstChange(m);
    StartIsConsistent(map[]);
    FullIsReached(start, t, m);
    var full := t.(model := m, mutations := U32_MAX, dirty := true);
    var saved := SavedAlone(start, full, 0, 1);
    hide Consistent, Reaches;
    e := FlushedAlone(start, saved, model, 2);
  }
}
