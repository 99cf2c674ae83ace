/** Merging the persisted history into a model that has already been ingesting
    (history_merge_loaded in src/history.c). */
module HistoryMerge {
  import opened Basics
  import opened RecencyOrder
  import opened HistoryStore
  import opened HistoryIngest

  /** The cap on merged durations: UINT64_MAX seconds, in nanoseconds. */
  const DURATION_LIMIT: nat := U64_MAX * 1_000_000_000

  function MergedEntry(current: Entry, loaded: Entry): Entry {
    current.(
      cpu := Min(DURATION_LIMIT, current.cpu + loaded.cpu),
      active := Min(DURATION_LIMIT, current.active + loaded.active),
      read := SatAdd(current.read, loaded.read),
      write := SatAdd(current.write, loaded.write),
      peak := Max(current.peak, loaded.peak),
      firstSeen := if loaded.firstSeen > 0 && (current.firstSeen <= 0 || loaded.firstSeen < current.firstSeen)
                   then loaded.firstSeen else current.firstSeen,
      lastSeen := Max(current.lastSeen, loaded.lastSeen))
  }

  /** The model after the merge and before the retention bound is applied. */
  function Merged(entries: Entries, loaded: Entries): Entries {
    map k | k in entries.Keys + loaded.Keys ::
      if k in entries && k in loaded then MergedEntry(entries[k], loaded[k])
      else if k in entries then entries[k] else loaded[k]
  }

  /** Records as the loader creates them. */
  ghost predicate FreshlyLoaded(loaded: Entries) {
    Keyed(loaded) && forall k :: k in loaded ==> loaded[k].live == 0 && loaded[k].current == 0
  }

  /** Merging into an empty model restores the loaded history unchanged. */
  lemma MergeIntoEmpty(loaded: Entries)
    ensures Merged(map[], loaded) == loaded
  {
    assert Merged(map[], loaded).Keys == loaded.Keys;
  }

  /** The time of first use is the earliest that is known; 0 and less stand for none. */
  predicate IsEarliestKnown(first: int, a: int, b: int) {
    if a > 0 && b > 0 then first <= a && first <= b && (first == a || first == b)
    else if b > 0 then first == b else first == a
  }

  /** A merged record keeps the name and memory of the current one, and has the earliest first and
      the latest last use of both. */
  lemma {:induction false} MergedTimes(entries: Entries, loaded: Entries, k: string)
    requires k in entries && k in loaded
    ensures k in Merged(entries, loaded)
    ensures var e, a, b := Merged(entries, loaded)[k], entries[k], loaded[k];
      && IsEarliestKnown(e.firstSeen, a.firstSeen, b.firstSeen)
      && e.lastSeen >= a.lastSeen && e.lastSeen >= b.lastSeen && (e.lastSeen == a.lastSeen || e.lastSeen == b.lastSeen)
      && e.key == a.key && e.name == a.name && e.user == a.user && e.identity == a.identity
      && e.current == a.current && e.live == a.live
  {
  }

  lemma MergedKeepsKey(current: Entry, loaded: Entry)
    ensures MergedEntry(current, loaded).key == current.key
  {
  }

  lemma MergeNothing(entries: Entries)
    ensures Merged(entries, map[]) == entries
  {
    assert Merged(entries, map[]).Keys == entries.Keys;
  }

  /** The merge proceeds record by record. */
  lemma MergedOneMore(entries: Entries, loaded: Entries, k: string, e: Entry)
    requires k !in loaded
    ensures k in Merged(entries, loaded) <==> k in entries
    ensures k in entries ==> Merged(entries, loaded)[k] == entries[k]
    ensures Merged(entries, loaded[k := e]) ==
            Merged(entries, loaded)[k := if k in entries then MergedEntry(entries[k], e) else e]
  {
    assert Merged(entries, loaded[k := e]).Keys == Merged(entries, loaded).Keys + {k};
  }

  function AbsorbAll(s: Store, snaps: seq<Snapshot>): Store {
    if snaps == [] then s else Absorbed(AbsorbAll(s, snaps[..|snaps| - 1]), snaps[|snaps| - 1])
  }

  /** A run whose identities all fit evicts nothing. */
  lemma {:induction false} EvictsNothing(states: seq<Store>, snaps: seq<Snapshot>)
    requires IsRun(states, snaps)
    requires |AbsorbAll(states[0], snaps).entries| <= LIMIT
    ensures states[|snaps|] == AbsorbAll(states[0], snaps)
  {
    if snaps != [] {
      var n := |snaps| - 1;
      var before, after := AbsorbAll(states[0], snaps[..n]), AbsorbAll(states[0], snaps);
      var begun := before.(generation := NextGeneration(before.generation));
      ObserveAllBasics(begun, snaps[n].processes, snaps[n].elapsed, snaps[n].now);
      SubsetSize(before.entries.Keys, after.entries.Keys);
      EvictsNothing(states[..n + 1], snaps[..n]);
      assert Ingested(states[n], snaps[n], states[n + 1]);
      NothingTrimmed(after.entries, after.generation, states[n + 1].entries);
    }
  }

  /** `b` carries everything in `a` and in the loaded record `l`. */
  ghost predicate Joined(a: Entry, l: Entry, b: Entry) {
    && b.live == a.live && b.current == a.current
    && b.cpu == a.cpu + l.cpu && b.active == a.active + l.active
    && b.read == SatAdd(a.read, l.read) && b.write == SatAdd(a.write, l.write)
    && b.peak == Max(a.peak, l.peak)
  }

  /** How a record of the store that loaded first relates to the store `a` that loads later. */
  ghost predicate Agrees(a: Entries, loaded: Entries, k: string, b: Entry) {
    if k !in a then k in loaded && b == loaded[k]
    else if k !in loaded then b == a[k]
    else Joined(a[k], loaded[k], b)
  }

  ghost predicate Simulates(a: Store, b: Store, loaded: Entries) {
    && a.samples == b.samples && a.generation == b.generation
    && b.entries.Keys == a.entries.Keys + loaded.Keys
    && forall k :: k in b.entries ==> Agrees(a.entries, loaded, k, b.entries[k])
  }

  lemma CreditJoined(a: Entry, l: Entry, b: Entry, generation: nat, elapsed: nat, rss: U64,
                     used: (U64, U64, U64), busy: bool, now: int)
    requires Joined(a, l, b)
    ensures Joined(Credited(Touched(a, generation, elapsed, rss), used, busy, now), l,
                   Credited(Touched(b, generation, elapsed, rss), used, busy, now))
  {
  }

  /** The application of the row: whichever record it has on either side, the two stay joined. */
  lemma RowAgrees(a: Store, b: Store, loaded: Entries, p: Process, elapsed: nat, now: int)
    requires Simulates(a, b, loaded) && FreshlyLoaded(loaded) && a.generation != 0
    ensures Agrees(Observe(a, p, elapsed, now).entries, loaded, p.app, Observe(b, p, elapsed, now).entries[p.app])
  {
    var ea, eb := EntryFor(a.entries, p, now), EntryFor(b.entries, p, now);
    assert p.app in b.entries ==> Agrees(a.entries, loaded, p.app, b.entries[p.app]);
    if p.app in loaded {
      CreditJoined(ea, loaded[p.app], eb, a.generation, elapsed, p.rss, Consumed(a.samples, p), p.busy, now);
    } else {
      assert ea == eb;
    }
  }

  lemma ObserveSimulates(a: Store, b: Store, loaded: Entries, p: Process, elapsed: nat, now: int)
    requires Simulates(a, b, loaded) && FreshlyLoaded(loaded) && a.generation != 0
    ensures Simulates(Observe(a, p, elapsed, now), Observe(b, p, elapsed, now), loaded)
  {
    RowAgrees(a, b, loaded, p, elapsed, now);
    hide Touched, Credited, Joined, Consumed, EntryFor, FreshlyLoaded;
    var a', b' := Observe(a, p, elapsed, now), Observe(b, p, elapsed, now);
    assert b'.entries.Keys == a'.entries.Keys + loaded.Keys;
    forall k | k in b'.entries ensures Agrees(a'.entries, loaded, k, b'.entries[k]) {
      assert k != p.app ==> Agrees(a.entries, loaded, k, b.entries[k]);
    }
  }

  lemma {:induction false} ObserveAllSimulates(a: Store, b: Store, loaded: Entries, ps: seq<Process>, elapsed: nat, now: int)
    requires Simulates(a, b, loaded) && FreshlyLoaded(loaded) && a.generation != 0
    ensures Simulates(ObserveAll(a, ps, elapsed, now), ObserveAll(b, ps, elapsed, now), loaded)
  {
    if ps != [] {
      var n := |ps| - 1;
      ObserveAllSimulates(a, b, loaded, ps[..n], elapsed, now);
      ObserveAllBasics(a, ps[..n], elapsed, now);
      ObserveSimulates(ObserveAll(a, ps[..n], elapsed, now), ObserveAll(b, ps[..n], elapsed, now), loaded, ps[n], elapsed, now);
    }
  }

  lemma AbsorbedSimulates(a: Store, b: Store, loaded: Entries, snap: Snapshot)
    requires Simulates(a, b, loaded) && FreshlyLoaded(loaded) && a.generation + 1 < U32_MODULUS
    ensures Absorbed(a, snap).generation == a.generation + 1
    ensures Simulates(Absorbed(a, snap), Absorbed(b, snap), loaded)
  {
    hide Agrees, Observe, FreshlyLoaded;
    var g := a.generation + 1;
    ObserveAllSimulates(a.(generation := g), b.(generation := g), loaded, snap.processes, snap.elapsed, snap.now);
    ObserveAllBasics(a.(generation := g), snap.processes, snap.elapsed, snap.now);
  }

  /** An empty model whose snapshot generation goes on, as at the start or after a reset. */
  function AfterReset(generation: nat): Store {
    Store(map[], map[], generation)
  }

  lemma {:induction false} AbsorbAllSimulates(loaded: Entries, generation: nat, snaps: seq<Snapshot>)
    requires FreshlyLoaded(loaded) && generation + |snaps| < U32_MODULUS
    ensures AbsorbAll(AfterReset(generation), snaps).generation == generation + |snaps|
    ensures Simulates(AbsorbAll(AfterReset(generation), snaps), AbsorbAll(AfterReset(generation).(entries := loaded), snaps), loaded)
  {
    if snaps != [] {
      hide Simulates, Absorbed;
      var n := |snaps| - 1;
      AbsorbAllSimulates(loaded, generation, snaps[..n]);
      AbsorbedSimulates(AbsorbAll(AfterReset(generation), snaps[..n]),
                        AbsorbAll(AfterReset(generation).(entries := loaded), snaps[..n]), loaded, snaps[n]);
    }
  }

  ghost predicate SameTotals(a: Entry, b: Entry) {
    && a.read == b.read && a.write == b.write && a.peak == b.peak
    && a.cpu == b.cpu && a.active == b.active
  }

  /** The merge of two records does not reach the cap on durations. */
  predicate WithinCap(a: Entry, l: Entry) {
    a.cpu + l.cpu <= DURATION_LIMIT && a.active + l.active <= DURATION_LIMIT
  }

  /** The records of application k after a late load and after an early one. */
  ghost predicate LoadOrderAgrees(late: Entries, loaded: Entries, k: string, merged: Entry, kept: Entry) {
    && merged.read == kept.read && merged.write == kept.write && merged.peak == kept.peak
    && (SameTotals(merged, kept) <==> (k in late && k in loaded ==> WithinCap(late[k], loaded[k])))
  }

  lemma SimulationTotals(a: Store, b: Store, loaded: Entries)
    requires Simulates(a, b, loaded)
    ensures Merged(a.entries, loaded).Keys == b.entries.Keys
    ensures forall k :: k in b.entries ==>
      LoadOrderAgrees(a.entries, loaded, k, Merged(a.entries, loaded)[k], b.entries[k])
  {
    var merged := Merged(a.entries, loaded);
    assert merged.Keys == b.entries.Keys;
    forall k | k in b.entries ensures LoadOrderAgrees(a.entries, loaded, k, merged[k], b.entries[k]) {
      assert Agrees(a.entries, loaded, k, b.entries[k]);
    }
  }

  /** Loading late loses nothing. For a run from an empty model that evicts nothing, ingesting first
      and merging the file afterwards gives the same applications as loading first and then
      ingesting, with the same bytes and peak memory; all totals agree exactly when the merged
      durations stay within their cap. */
  lemma {:induction false} MergeCommutesWithIngest(early: seq<Store>, late: seq<Store>, snaps: seq<Snapshot>,
                                                   loaded: Entries, generation: nat)
    requires FreshlyLoaded(loaded) && generation + |snaps| < U32_MODULUS
    requires IsRun(late, snaps) && late[0] == AfterReset(generation)
    requires IsRun(early, snaps) && early[0] == AfterReset(generation).(entries := loaded)
    requires |AbsorbAll(early[0], snaps).entries| <= LIMIT
    ensures Merged(late[|snaps|].entries, loaded).Keys == early[|snaps|].entries.Keys
    ensures forall k :: k in early[|snaps|].entries ==>
      LoadOrderAgrees(late[|snaps|].entries, loaded, k, Merged(late[|snaps|].entries, loaded)[k], early[|snaps|].entries[k])
  {
    AbsorbAllSimulates(loaded, generation, snaps);
    var a, b := AbsorbAll(AfterReset(generation), snaps), AbsorbAll(AfterReset(generation).(entries := loaded), snaps);
    SubsetSize(a.entries.Keys, b.entries.Keys);
    hide AbsorbAll, IsRun, LoadOrderAgrees;
    EvictsNothing(late, snaps);
    EvictsNothing(early, snaps);
    SimulationTotals(a, b, loaded);
  }

  // ----- A reset while the load is pending -----

  /** `m` is what the model holds once a load that may be pending has been merged and the retention
      bound applied. */
  ghost predicate AfterLoad(s: Store, pending: Option<Entries>, m: Entries) {
    match pending
    case None => m == s.entries
    case Some(loaded) => IsTrim(Merged(s.entries, loaded), s.generation, Excess(|Merged(s.entries, loaded)|), m)
  }

  /** A loaded record's totals are part of what the model shows for its application. */
  ghost predicate Includes(m: Entries, own: Entries, k: string, l: Entry) {
    k in m &&
    if k in own then
      && m[k].read == SatAdd(own[k].read, l.read) && m[k].write == SatAdd(own[k].write, l.write)
      && m[k].cpu == Min(DURATION_LIMIT, own[k].cpu + l.cpu) && m[k].active == Min(DURATION_LIMIT, own[k].active + l.active)
      && m[k].peak == Max(own[k].peak, l.peak)
    else m[k] == l
  }

  /** A reset made while the load is pending is undone. Whatever was ingested between the reset and
      the merge, afterwards every loaded record is back, its totals added to those of the run, and
      the model has the totals it would have if the file had been loaded in place of the reset. */
  lemma {:induction false} ResetDuringLoadIsUndone(late: seq<Store>, early: seq<Store>, snaps: seq<Snapshot>,
                                                   loaded: Entries, generation: nat, m: Entries)
    requires FreshlyLoaded(loaded) && generation + |snaps| < U32_MODULUS
    requires IsRun(late, snaps) && late[0] == AfterReset(generation)
    requires IsRun(early, snaps) && early[0] == AfterReset(generation).(entries := loaded)
    requires |AbsorbAll(early[0], snaps).entries| <= LIMIT
    requires var merged := Merged(late[|snaps|].entries, loaded);
      IsTrim(merged, late[|snaps|].generation, Excess(|merged|), m)
    ensures forall k :: k in loaded ==> Includes(m, late[|snaps|].entries, k, loaded[k])
    ensures m.Keys == early[|snaps|].entries.Keys
    ensures forall k :: k in m ==> LoadOrderAgrees(late[|snaps|].entries, loaded, k, m[k], early[|snaps|].entries[k])
  {
    var merged := Merged(late[|snaps|].entries, loaded);
    forall k | k in loaded ensures Includes(merged, late[|snaps|].entries, k, loaded[k]) {
      MergedIncludes(late[|snaps|].entries, loaded, k);
    }
    hide *;
    MergeCommutesWithIngest(early, late, snaps, loaded, generation);
    EvictsNothing(early, snaps);
    assert |merged.Keys| == |early[|snaps|].entries.Keys|;
    WithinLimit(|merged|);
    NothingTrimmed(merged, late[|snaps|].generation, m);
  }

  lemma WithinLimit(n: nat)
    ensures n <= LIMIT ==> Excess(n) == 0
  {
  }

  lemma MergedIncludes(own: Entries, loaded: Entries, k: string)
    requires k in loaded
    ensures Includes(Merged(own, loaded), own, k, loaded[k])
  {
  }

  /** The model keeps what was ingested since the reset, and nothing else, in every run. */
  ghost predicate ResetLasts(pending: Option<Entries>, generation: nat) {
    forall states: seq<Store>, snaps: seq<Snapshot>, m: Entries ::
      IsRun(states, snaps) && states[0] == AfterReset(generation) && AfterLoad(states[|snaps|], pending, m) ==>
        m == states[|snaps|].entries
  }

  /** A reset lasts if and only if no load is pending or the loaded history is empty. */
  lemma {:induction false} ResetLastsUnlessLoading(pending: Option<Entries>, generation: nat)
    requires pending.Some? ==> Keyed(pending.value)
    ensures ResetLasts(pending, generation) <==> pending.None? || pending.value == map[]
  {
    if pending.None? || pending.value == map[] {
      forall states: seq<Store>, snaps: seq<Snapshot>, m: Entries
        | IsRun(states, snaps) && states[0] == AfterReset(generation) && AfterLoad(states[|snaps|], pending, m)
        ensures m == states[|snaps|].entries
      {
        RunIsTrimmed(states, snaps, m, pending);
      }
    } else {
      LoadReturns(pending.value, generation);
    }
  }

  /** After a run the bound has nothing more to do. */
  lemma {:induction false} RunIsTrimmed(states: seq<Store>, snaps: seq<Snapshot>, m: Entries, pending: Option<Entries>)
    requires IsRun(states, snaps) && states[0].entries == map[] && AfterLoad(states[|snaps|], pending, m)
    requires pending.None? || pending.value == map[]
    ensures m == states[|snaps|].entries
  {
    var n := |snaps|;
    MergeNothing(states[n].entries);
    if n == 0 {
      if pending.Some? {
        NothingTrimmed(states[0].entries, states[0].generation, m);
      }
    } else {
      assert Ingested(states[n - 1], snaps[n - 1], states[n]);
      var seen := Absorbed(states[n - 1], snaps[n - 1]);
      hide Merged, IsTrim, Absorbed, IsRun;
      if pending.Some? {
        TrimTwice(seen.entries, seen.generation, states[n].entries, m);
      }
    }
  }

  /** After a reset with nothing ingested before the merge, loaded records are there again. */
  lemma {:induction false} LoadReturns(loaded: Entries, generation: nat)
    requires Keyed(loaded) && loaded != map[]
    ensures !ResetLasts(Some(loaded), generation)
  {
    hide *;
    var start, snaps: seq<Snapshot> := AfterReset(generation), [];
    var m := TrimExists(loaded, generation, Excess(|loaded|));
    TrimLeavesSome(loaded, generation, m);
    LoadedAtOnce(generation, loaded, m);
    if ResetLasts(Some(loaded), generation) {
      LastsFor(Some(loaded), generation, [start], snaps, m);
    }
  }

  lemma TrimLeavesSome(m: Entries, protected: nat, m': Entries)
    requires m != map[] && IsTrim(m, protected, Excess(|m|), m')
    ensures m' != map[]
  {
    TrimKeepsTheRightRecords(m, protected, m');
    hide IsTrim, Candidates;
  }

  lemma LoadedAtOnce(generation: nat, loaded: Entries, m: Entries)
    requires IsTrim(loaded, generation, Excess(|loaded|), m)
    ensures var start, snaps: seq<Snapshot> := AfterReset(generation), [];
      IsRun([start], snaps) && start.entries == map[] && AfterLoad(start, Some(loaded), m)
  {
    MergeIntoEmpty(loaded);
    hide IsTrim, Merged;
  }

  lemma LastsFor(pending: Option<Entries>, generation: nat, states: seq<Store>, snaps: seq<Snapshot>, m: Entries)
    requires ResetLasts(pending, generation)
    requires IsRun(states, snaps) && states[0] == AfterReset(generation) && AfterLoad(states[|snaps|], pending, m)
    ensures m == states[|snaps|].entries
  {
    hide IsRun, AfterLoad, AfterReset;
  }
}
