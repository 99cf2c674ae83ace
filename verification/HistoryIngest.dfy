/** Delta accounting of App History (lsm_app_history_ingest in src/history.c): each process
    snapshot credits an application with what its processes consumed since they were last seen. */
module HistoryIngest {
  import opened Basics
  import opened RecencyOrder
  import opened HistoryStore

  /** One process row. `app` is its history key, `busy` that its CPU share exceeds the idle threshold. */
  datatype Process = Process(
    pid: nat, instance: nat, app: string, identity: string, name: string, user: string,
    cpu: U64, read: U64, write: U64, rss: U64, busy: bool)

  datatype ProcessKey = ProcessKey(pid: nat, instance: nat)

  datatype Sample = Sample(cpu: U64, read: U64, write: U64, generation: nat)

  type Samples = map<ProcessKey, Sample>

  datatype Store = Store(entries: Entries, samples: Samples, generation: nat)

  datatype Snapshot = Snapshot(processes: seq<Process>, elapsed: nat, now: int)

  const EMPTY: Store := Store(map[], map[], 0)

  function KeyOf(p: Process): ProcessKey {
    ProcessKey(p.pid, p.instance)
  }

  function SampleOf(p: Process, generation: nat): Sample {
    Sample(p.cpu, p.read, p.write, generation)
  }

  /** The generation is a 32-bit counter. */
  function NextGeneration(generation: nat): nat {
    (generation + 1) % U32_MODULUS
  }

  predicate Stale(sample: Sample, generation: nat) {
    (sample.generation + 2) % U32_MODULUS < generation
  }

  function Growth(before: U64, after: U64): U64 {
    if after >= before then after - before else 0
  }

  /** What a process consumed since the sample held for it; nothing when there is none. */
  function Consumed(samples: Samples, p: Process): (U64, U64, U64) {
    if KeyOf(p) in samples then
      var s := samples[KeyOf(p)];
      (Growth(s.cpu, p.cpu), Growth(s.read, p.read), Growth(s.write, p.write))
    else (0, 0, 0)
  }

  function NewEntry(p: Process, now: int): Entry {
    Entry(p.app, p.name, p.user, p.identity, 0, 0, 0, 0, 0, 0, 0, now, now)
  }

  /** The application's memory and active time after one of its processes was seen. */
  function Touched(e: Entry, generation: nat, elapsed: nat, rss: U64): Entry {
    var begun := if e.live != generation
                 then e.(live := generation, current := 0, active := e.active + elapsed) else e;
    var current := SatAdd(begun.current, rss);
    begun.(current := current, peak := Max(begun.peak, current))
  }

  function Credited(e: Entry, used: (U64, U64, U64), busy: bool, now: int): Entry {
    e.(cpu := e.cpu + used.0,
       read := SatAdd(e.read, used.1),
       write := SatAdd(e.write, used.2),
       lastSeen := if used.0 > 0 || used.1 > 0 || used.2 > 0 || busy then now else e.lastSeen)
  }

  function EntryFor(entries: Entries, p: Process, now: int): Entry {
    if p.app in entries then entries[p.app] else NewEntry(p, now)
  }

  /** One row of a snapshot. */
  function Observe(s: Store, p: Process, elapsed: nat, now: int): Store {
    var touched := Touched(EntryFor(s.entries, p, now), s.generation, elapsed, p.rss);
    var entry := Credited(touched, Consumed(s.samples, p), p.busy, now);
    s.(entries := s.entries[p.app := entry],
       samples := s.samples[KeyOf(p) := SampleOf(p, s.generation)])
  }

  function ObserveAll(s: Store, ps: seq<Process>, elapsed: nat, now: int): Store {
    if ps == [] then s
    else Observe(ObserveAll(s, ps[..|ps| - 1], elapsed, now), ps[|ps| - 1], elapsed, now)
  }

  function Pruned(samples: Samples, generation: nat): Samples {
    map k | k in samples && !Stale(samples[k], generation) :: samples[k]
  }

  /** The store after all rows of a snapshot and before the retention bound is applied. */
  function Absorbed(s: Store, snap: Snapshot): Store {
    var g := NextGeneration(s.generation);
    var seen := ObserveAll(s.(generation := g), snap.processes, snap.elapsed, snap.now);
    seen.(samples := Pruned(seen.samples, g))
  }

  ghost predicate Ingested(s: Store, snap: Snapshot, s': Store) {
    var seen := Absorbed(s, snap);
    && s'.samples == seen.samples && s'.generation == seen.generation
    && IsTrim(seen.entries, seen.generation, Excess(|seen.entries|), s'.entries)
  }

  lemma {:induction false} ObserveAllBasics(s: Store, ps: seq<Process>, elapsed: nat, now: int)
    ensures ObserveAll(s, ps, elapsed, now).generation == s.generation
    ensures Keyed(s.entries) ==> Keyed(ObserveAll(s, ps, elapsed, now).entries)
    ensures s.entries.Keys <= ObserveAll(s, ps, elapsed, now).entries.Keys
  {
    if ps != [] {
      ObserveAllBasics(s, ps[..|ps| - 1], elapsed, now);
    }
  }

  /** An empty snapshot observes nothing, but the retention bound is applied all the same: it
      leaves the records alone exactly when they are within the limit or all protected. */
  lemma {:induction false} EmptySnapshotTrims(s: Store, elapsed: nat, now: int, s': Store)
    requires Ingested(s, Snapshot([], elapsed, now), s')
    ensures IsTrim(s.entries, NextGeneration(s.generation), Excess(|s.entries|), s'.entries)
    ensures s'.entries == s.entries <==>
      |s.entries| <= LIMIT || Candidates(s.entries, NextGeneration(s.generation)) == {}
  {
    TrimChanges(s.entries, NextGeneration(s.generation), s'.entries);
  }

  // ----- The independent account: every observation ever made, in order -----

  datatype Observation = Observation(generation: nat, process: Process)

  datatype Metric = Cpu | Read | Write

  function Reading(p: Process, metric: Metric): U64 {
    match metric case Cpu => p.cpu case Read => p.read case Write => p.write
  }

  function Counter(e: Entry, metric: Metric): nat {
    match metric case Cpu => e.cpu case Read => e.read case Write => e.write
  }

  /** The rows of one snapshot, stamped with its generation. */
  function Stamped(ps: seq<Process>, generation: nat): (r: seq<Observation>)
    ensures |r| == |ps|
    ensures forall i :: 0 <= i < |ps| ==> r[i] == Observation(generation, ps[i])
  {
    if ps == [] then [] else Stamped(ps[..|ps| - 1], generation) + [Observation(generation, ps[|ps| - 1])]
  }

  /** All observations of a run that starts at generation 0. */
  function Stream(snaps: seq<Snapshot>): seq<Observation> {
    if snaps == [] then []
    else Stream(snaps[..|snaps| - 1]) + Stamped(snaps[|snaps| - 1].processes, |snaps|)
  }

  /** The last observation of a process instance. */
  function Latest(stream: seq<Observation>, key: ProcessKey): Option<Observation> {
    if stream == [] then None
    else if KeyOf(stream[|stream| - 1].process) == key then Some(stream[|stream| - 1])
    else Latest(stream[..|stream| - 1], key)
  }

  /** What observation `o`, made after `stream`, is worth: its growth over the previous
      observation of the same process instance, when that is at most three generations old. */
  function Worth(stream: seq<Observation>, o: Observation, metric: Metric): nat {
    match Latest(stream, KeyOf(o.process))
    case None => 0
    case Some(before) =>
      var was, now := Reading(before.process, metric), Reading(o.process, metric);
      if o.generation - before.generation <= 3 && now > was then now - was else 0
  }

  /** The worth of all observations of one application. */
  function Total(stream: seq<Observation>, app: string, metric: Metric): nat {
    if stream == [] then 0
    else
      var n := |stream| - 1;
      Total(stream[..n], app, metric) +
      if stream[n].process.app == app then Worth(stream[..n], stream[n], metric) else 0
  }

  function Held(entries: Entries, app: string, metric: Metric): nat {
    if app in entries then Counter(entries[app], metric) else 0
  }

  // ----- Runs -----

  ghost predicate IsRun(states: seq<Store>, snaps: seq<Snapshot>) {
    && |states| == |snaps| + 1
    && forall i :: 0 <= i < |snaps| ==> Ingested(states[i], snaps[i], states[i + 1])
  }

  /** What the evicted records of an application held when they were evicted. */
  ghost function Evicted(states: seq<Store>, snaps: seq<Snapshot>, app: string, metric: Metric): nat
    requires IsRun(states, snaps)
  {
    if snaps == [] then 0
    else
      var n := |snaps| - 1;
      Evicted(states[..n + 1], snaps[..n], app, metric) +
      if app in states[n + 1].entries then 0 else Held(Absorbed(states[n], snaps[n]).entries, app, metric)
  }

  /** The samples are exactly the latest observations not older than `age` generations. */
  ghost predicate Remembers(samples: Samples, stream: seq<Observation>, generation: nat, age: nat) {
    forall k ::
      && (k in samples <==> Latest(stream, k).Some? && Latest(stream, k).value.generation + age >= generation)
      && (k in samples ==> samples[k] == SampleOf(Latest(stream, k).value.process, Latest(stream, k).value.generation))
  }

  ghost predicate MadeBy(stream: seq<Observation>, generation: nat) {
    forall i :: 0 <= i < |stream| ==> stream[i].generation <= generation
  }

  ghost predicate BelowCap(total: nat, metric: Metric) {
    metric.Cpu? || total <= U64_MAX
  }

  lemma {:induction false} LatestIsMade(stream: seq<Observation>, key: ProcessKey, generation: nat)
    requires MadeBy(stream, generation)
    ensures Latest(stream, key).Some? ==> Latest(stream, key).value.generation <= generation
  {
    if stream != [] {
      LatestIsMade(stream[..|stream| - 1], key, generation);
    }
  }

  /** One more row keeps the samples in step with the stream. */
  lemma ObserveRemembers(s: Store, stream: seq<Observation>, p: Process, elapsed: nat, now: int)
    requires Remembers(s.samples, stream, s.generation, 3)
    ensures Remembers(Observe(s, p, elapsed, now).samples, stream + [Observation(s.generation, p)], s.generation, 3)
  {
    var o := Observation(s.generation, p);
    var longer := stream + [o];
    assert longer[..|longer| - 1] == stream;
    forall k ensures Latest(longer, k) == if KeyOf(p) == k then Some(o) else Latest(stream, k) {}
  }

  /** One more row credits its application with what the row is worth, and no other. */
  lemma ObserveCredits(s: Store, stream: seq<Observation>, p: Process, elapsed: nat, now: int, app: string, metric: Metric)
    requires Remembers(s.samples, stream, s.generation, 3) && MadeBy(stream, s.generation)
    requires BelowCap(Held(s.entries, app, metric) + Worth(stream, Observation(s.generation, p), metric), metric)
    ensures Held(Observe(s, p, elapsed, now).entries, app, metric) ==
            Held(s.entries, app, metric) + if p.app == app then Worth(stream, Observation(s.generation, p), metric) else 0
  {
    LatestIsMade(stream, KeyOf(p), s.generation);
  }

  /** A whole snapshot: the samples follow the stream and each application gains its rows' worth. */
  lemma {:induction false} ObserveAllAccounts(s: Store, stream: seq<Observation>, ps: seq<Process>, elapsed: nat, now: int,
                                              app: string, metric: Metric)
    requires Remembers(s.samples, stream, s.generation, 3) && MadeBy(stream, s.generation)
    requires Held(s.entries, app, metric) <= Total(stream, app, metric)
    requires BelowCap(Total(stream + Stamped(ps, s.generation), app, metric), metric)
    ensures MadeBy(stream + Stamped(ps, s.generation), s.generation)
    ensures Remembers(ObserveAll(s, ps, elapsed, now).samples, stream + Stamped(ps, s.generation), s.generation, 3)
    ensures Held(ObserveAll(s, ps, elapsed, now).entries, app, metric) - Held(s.entries, app, metric) ==
            Total(stream + Stamped(ps, s.generation), app, metric) - Total(stream, app, metric)
  {
    var g := s.generation;
    if ps == [] {
      assert stream + Stamped(ps, g) == stream;
    } else {
      var n := |ps| - 1;
      var before, after := stream + Stamped(ps[..n], g), stream + Stamped(ps, g);
      var o := Observation(g, ps[n]);
      assert after == before + [o] && after[..|after| - 1] == before;
      ObserveAllAccounts(s, stream, ps[..n], elapsed, now, app, metric);
      var mid := ObserveAll(s, ps[..n], elapsed, now);
      ObserveAllBasics(s, ps[..n], elapsed, now);
      ObserveRemembers(mid, before, ps[n], elapsed, now);
      if ps[n].app == app {
        ObserveCredits(mid, before, ps[n], elapsed, now, app, metric);
      }
    }
  }

  lemma PrunedRemembers(samples: Samples, stream: seq<Observation>, generation: nat)
    requires Remembers(samples, stream, generation, 3) && MadeBy(stream, generation)
    requires generation + 2 < U32_MODULUS
    ensures Remembers(Pruned(samples, generation), stream, generation, 2)
  {
    forall k ensures Latest(stream, k).Some? ==> Latest(stream, k).value.generation <= generation {
      LatestIsMade(stream, k, generation);
    }
  }

  lemma RemembersNext(samples: Samples, stream: seq<Observation>, generation: nat)
    requires Remembers(samples, stream, generation, 2)
    ensures Remembers(samples, stream, generation + 1, 3)
  {
  }

  /** One snapshot, before its trim. */
  lemma AbsorbAccounts(s: Store, stream: seq<Observation>, snap: Snapshot, app: string, metric: Metric)
    requires s.generation + 3 < U32_MODULUS
    requires MadeBy(stream, s.generation) && Remembers(s.samples, stream, s.generation, 2)
    requires Held(s.entries, app, metric) <= Total(stream, app, metric)
    requires BelowCap(Total(stream + Stamped(snap.processes, s.generation + 1), app, metric), metric)
    ensures Absorbed(s, snap).generation == s.generation + 1
    ensures MadeBy(stream + Stamped(snap.processes, s.generation + 1), s.generation + 1)
    ensures Remembers(Absorbed(s, snap).samples, stream + Stamped(snap.processes, s.generation + 1), s.generation + 1, 2)
    ensures Held(Absorbed(s, snap).entries, app, metric) - Held(s.entries, app, metric) ==
            Total(stream + Stamped(snap.processes, s.generation + 1), app, metric) - Total(stream, app, metric)
  {
    hide Remembers, Total, ObserveAll, Stamped, Held;
    var g := s.generation + 1;
    var begun := s.(generation := g);
    RemembersNext(s.samples, stream, s.generation);
    ObserveAllAccounts(begun, stream, snap.processes, snap.elapsed, snap.now, app, metric);
    ObserveAllBasics(begun, snap.processes, snap.elapsed, snap.now);
    PrunedRemembers(ObserveAll(begun, snap.processes, snap.elapsed, snap.now).samples,
                    stream + Stamped(snap.processes, g), g);
  }

  /** A trim leaves a record's counters alone or evicts it whole. */
  lemma TrimSplits(s: Store, snap: Snapshot, s': Store, app: string, metric: Metric)
    requires Ingested(s, snap, s')
    ensures s'.samples == Absorbed(s, snap).samples && s'.generation == Absorbed(s, snap).generation
    ensures Held(s'.entries, app, metric) ==
            if app in s'.entries then Held(Absorbed(s, snap).entries, app, metric) else 0
  {
  }

  lemma NothingObserved(app: string, metric: Metric)
    ensures Remembers(map[], [], 0, 2) && Held(map[], app, metric) == Total([], app, metric) == 0
  {
  }

  /** Conservation: after every run, what an application's retained record holds plus what its
      evicted records held is exactly what its processes were observed to consume. The samples
      are then exactly the observations of the last three generations. */
  lemma {:induction false} IngestConserves(states: seq<Store>, snaps: seq<Snapshot>, app: string, metric: Metric)
    requires IsRun(states, snaps) && states[0] == EMPTY
    requires |snaps| < U32_MODULUS - 2
    requires BelowCap(Total(Stream(snaps), app, metric), metric)
    ensures states[|snaps|].generation == |snaps|
    ensures MadeBy(Stream(snaps), |snaps|)
    ensures Remembers(states[|snaps|].samples, Stream(snaps), |snaps|, 2)
    ensures Held(states[|snaps|].entries, app, metric) + Evicted(states, snaps, app, metric) ==
            Total(Stream(snaps), app, metric)
  {
    hide Remembers, Total, Absorbed, IsTrim, Ingested, Held;
    var n := |snaps| - 1;
    if n < 0 {
      NothingObserved(app, metric);
    } else {
      var stream := Stream(snaps[..n]);
      TotalGrows(stream, Stamped(snaps[n].processes, |snaps|), app, metric);
      IngestConserves(states[..n + 1], snaps[..n], app, metric);
      AbsorbAccounts(states[n], stream, snaps[n], app, metric);
      TrimSplits(states[n], snaps[n], states[n + 1], app, metric);
    }
  }

  lemma {:induction false} TotalGrows(stream: seq<Observation>, more: seq<Observation>, app: string, metric: Metric)
    ensures Total(stream, app, metric) <= Total(stream + more, app, metric)
  {
    if more == [] {
      assert stream + more == stream;
    } else {
      var all := stream + more;
      assert all[..|all| - 1] == stream + more[..|more| - 1];
      TotalGrows(stream, more[..|more| - 1], app, metric);
    }
  }

  lemma {:induction false} NeverObserved(stream: seq<Observation>, p: Process)
    requires forall o :: o in stream ==> o.process.pid != p.pid || o.process.instance != p.instance
    ensures Latest(stream, KeyOf(p)).None?
  {
    if stream != [] {
      var n := |stream| - 1;
      assert stream[n] in stream;
      NeverObserved(stream[..n], p);
    }
  }

  /** A process instance never observed before is credited with nothing in any run, whatever
      other instance had its pid; its counters only become the baseline of its later rows. */
  lemma {:induction false} ReusedPidHasNoBaseline(states: seq<Store>, snaps: seq<Snapshot>, p: Process)
    requires IsRun(states, snaps) && states[0] == EMPTY
    requires |snaps| < U32_MODULUS - 2
    requires forall o :: o in Stream(snaps) ==> o.process.pid != p.pid || o.process.instance != p.instance
    ensures Consumed(states[|snaps|].samples, p) == (0, 0, 0)
  {
    IngestConserves(states, snaps, p.app, Cpu);
    NeverObserved(Stream(snaps), p);
  }
}
