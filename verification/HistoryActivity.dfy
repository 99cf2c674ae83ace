/** What App History says about active time, memory and times of use (lsm_app_history_ingest in
    src/history.c), from the observed rows and the clock alone, for every retained record since it
    was created. */
module HistoryActivity {
  import opened Basics
  import opened RecencyOrder
  import opened HistoryStore
  import opened HistoryIngest
  import opened HistoryModel

  // ----- One snapshot -----

  ghost predicate HasRow(ps: seq<Process>, app: string) {
    exists i :: 0 <= i < |ps| && ps[i].app == app
  }

  /** The memory of an application's rows together. */
  function RssSum(ps: seq<Process>, app: string): nat {
    if ps == [] then 0
    else RssSum(ps[..|ps| - 1], app) + if ps[|ps| - 1].app == app then ps[|ps| - 1].rss else 0
  }

  function Memory(ps: seq<Process>, app: string): nat {
    if RssSum(ps, app) <= U64_MAX then RssSum(ps, app) else U64_MAX
  }

  ghost predicate Grew(stream: seq<Observation>, o: Observation) {
    Worth(stream, o, Cpu) > 0 || Worth(stream, o, Read) > 0 || Worth(stream, o, Write) > 0
  }

  /** Row i is one of the application that was busy or has consumed something. */
  ghost predicate UsedAt(stream: seq<Observation>, ps: seq<Process>, generation: nat, app: string, i: int) {
    && 0 <= i < |ps| && ps[i].app == app
    && (ps[i].busy || Grew(stream + Stamped(ps[..i], generation), Observation(generation, ps[i])))
  }

  ghost predicate Used(stream: seq<Observation>, ps: seq<Process>, generation: nat, app: string) {
    exists i :: UsedAt(stream, ps, generation, app, i)
  }

  // ----- A whole run -----

  /** The time between the snapshots that show the application and those before them. */
  ghost function ActiveTime(snaps: seq<Snapshot>, app: string, from: nat): nat {
    if |snaps| <= from then 0
    else
      var n := |snaps| - 1;
      ActiveTime(snaps[..n], app, from) + if HasRow(snaps[n].processes, app) then snaps[n].elapsed else 0
  }

  /** The memory in the last snapshot that shows the application. */
  ghost function LastMemory(snaps: seq<Snapshot>, app: string, from: nat): nat {
    if |snaps| <= from then 0
    else
      var n := |snaps| - 1;
      if HasRow(snaps[n].processes, app) then Memory(snaps[n].processes, app) else LastMemory(snaps[..n], app, from)
  }

  /** The greatest memory in any snapshot. */
  ghost function PeakMemory(snaps: seq<Snapshot>, app: string, from: nat): nat {
    if |snaps| <= from then 0
    else
      var n := |snaps| - 1;
      var earlier, now := PeakMemory(snaps[..n], app, from), Memory(snaps[n].processes, app);
      if earlier < now then now else earlier
  }

  /** The time of the last use, that of the first snapshot when it was not used after it. */
  ghost function LastUse(snaps: seq<Snapshot>, app: string, from: nat): int
    requires from < |snaps|
  {
    var n := |snaps| - 1;
    if n == from || Used(Stream(snaps[..n]), snaps[n].processes, n + 1, app) then snaps[n].now
    else LastUse(snaps[..n], app, from)
  }

  // ----- One row -----

  /** Row i is the first one of the application. */
  ghost predicate IsFirst(ps: seq<Process>, app: string, i: int) {
    0 <= i < |ps| && ps[i].app == app && forall j :: 0 <= j < i ==> ps[j].app != app
  }

  /** The record is filed under the application and names what the row names. */
  predicate NamedBy(e: Entry, p: Process) {
    e.key == p.app && e.name == p.name && e.user == p.user && e.identity == p.identity
  }

  predicate SameNames(e: Entry, b: Entry) {
    e.key == b.key && e.name == b.name && e.user == b.user && e.identity == b.identity
  }

  /** What a record `b` has become after rows of its application with this memory. */
  ghost predicate Became(b: Entry, e: Entry, generation: nat, elapsed: nat, now: int, rss: nat, used: bool) {
    && e.live == generation && e.active == b.active + elapsed && e.firstSeen == b.firstSeen && SameNames(e, b)
    && e.current == (if rss <= U64_MAX then rss else U64_MAX)
    && e.peak == (if b.peak < e.current then e.current else b.peak)
    && e.lastSeen == (if used then now else b.lastSeen)
  }

  /** A record, or what a new one starts from. */
  ghost predicate IsBase(entries: Entries, app: string, b: Entry, generation: nat, now: int, ps: seq<Process>) {
    && b.live != generation
    && if app in entries then b == entries[app]
       else b.active == b.peak == 0 && b.firstSeen == b.lastSeen == now && forall i :: IsFirst(ps, app, i) ==> NamedBy(b, ps[i])
  }

  lemma ConsumedIsGrowth(samples: Samples, stream: seq<Observation>, p: Process, generation: nat)
    requires Remembers(samples, stream, generation, 3) && MadeBy(stream, generation)
    ensures var used := Consumed(samples, p);
      (used.0 > 0 || used.1 > 0 || used.2 > 0) <==> Grew(stream, Observation(generation, p))
  {
    LatestIsMade(stream, KeyOf(p), generation);
  }

  lemma RowOfOther(s: Store, p: Process, elapsed: nat, now: int, app: string)
    requires p.app != app
    ensures var t := Observe(s, p, elapsed, now).entries;
      (app in t <==> app in s.entries) && (app in t ==> t[app] == s.entries[app])
  {
    hide Touched, Credited, Consumed;
  }

  /** The first row of an application in a snapshot. */
  lemma FirstRow(s: Store, p: Process, elapsed: nat, now: int, b: Entry, grew: bool)
    requires b.live != s.generation && s.generation != 0
    requires if p.app in s.entries then b == s.entries[p.app]
             else b.active == b.peak == 0 && b.firstSeen == b.lastSeen == now && NamedBy(b, p)
    requires var used := Consumed(s.samples, p); grew <==> used.0 > 0 || used.1 > 0 || used.2 > 0
    ensures var t := Observe(s, p, elapsed, now).entries;
      p.app in t && Became(b, t[p.app], s.generation, elapsed, now, p.rss, p.busy || grew)
  {
    hide Consumed;
  }

  /** A further row. */
  lemma NextRow(s: Store, p: Process, elapsed: nat, now: int, b: Entry, rss: nat, used: bool, grew: bool)
    requires p.app in s.entries && Became(b, s.entries[p.app], s.generation, elapsed, now, rss, used)
    requires var used := Consumed(s.samples, p); grew <==> used.0 > 0 || used.1 > 0 || used.2 > 0
    ensures var t := Observe(s, p, elapsed, now).entries;
      p.app in t && Became(b, t[p.app], s.generation, elapsed, now, rss + p.rss, used || p.busy || grew)
  {
    hide Consumed;
  }

  // ----- All rows of a snapshot -----

  lemma HasRowOneMore(ps: seq<Process>, app: string)
    requires ps != []
    ensures var n := |ps| - 1; HasRow(ps, app) <==> HasRow(ps[..n], app) || ps[n].app == app
  {
    var n := |ps| - 1;
    if HasRow(ps[..n], app) {
      var i :| 0 <= i < n && ps[..n][i].app == app;
      assert ps[i].app == app;
    }
    if HasRow(ps, app) {
      var i :| 0 <= i < |ps| && ps[i].app == app;
      assert i < n ==> ps[..n][i].app == app;
    }
  }

  lemma UsedOneMore(stream: seq<Observation>, ps: seq<Process>, generation: nat, app: string)
    requires ps != []
    ensures var n := |ps| - 1;
      Used(stream, ps, generation, app) <==> Used(stream, ps[..n], generation, app) || UsedAt(stream, ps, generation, app, n)
  {
    var n := |ps| - 1;
    hide Grew, Stamped;
    forall i ensures i < n ==> (UsedAt(stream, ps[..n], generation, app, i) <==> UsedAt(stream, ps, generation, app, i)) {
      if 0 <= i < n {
        assert ps[..n][..i] == ps[..i];
      }
    }
    hide UsedAt;
    if Used(stream, ps, generation, app) {
      var i :| UsedAt(stream, ps, generation, app, i);
      UsedIsRow(stream, ps, generation, app, i);
    }
    if i :| UsedAt(stream, ps[..n], generation, app, i) {
      UsedIsRow(stream, ps[..n], generation, app, i);
    }
  }

  lemma UsedIsRow(stream: seq<Observation>, ps: seq<Process>, generation: nat, app: string, i: int)
    requires UsedAt(stream, ps, generation, app, i)
    ensures 0 <= i < |ps| && ps[i].app == app
  {
    hide Grew;
  }

  lemma {:induction false} NoRowsNoMemory(ps: seq<Process>, app: string)
    requires !HasRow(ps, app)
    ensures RssSum(ps, app) == 0
  {
    if ps != [] {
      HasRowOneMore(ps, app);
      NoRowsNoMemory(ps[..|ps| - 1], app);
    }
  }

  lemma NoRowsNoUse(stream: seq<Observation>, ps: seq<Process>, generation: nat, app: string)
    requires !HasRow(ps, app)
    ensures !Used(stream, ps, generation, app)
  {
    hide Grew;
  }

  lemma {:induction false} RowsRemember(s: Store, stream: seq<Observation>, ps: seq<Process>, elapsed: nat, now: int)
    requires Remembers(s.samples, stream, s.generation, 3) && MadeBy(stream, s.generation)
    ensures MadeBy(stream + Stamped(ps, s.generation), s.generation)
    ensures Remembers(ObserveAll(s, ps, elapsed, now).samples, stream + Stamped(ps, s.generation), s.generation, 3)
  {
    var g := s.generation;
    if ps == [] {
      assert stream + Stamped(ps, g) == stream;
    } else {
      var n := |ps| - 1;
      RowsRemember(s, stream, ps[..n], elapsed, now);
      ObserveAllBasics(s, ps[..n], elapsed, now);
      ObserveRemembers(ObserveAll(s, ps[..n], elapsed, now), stream + Stamped(ps[..n], g), ps[n], elapsed, now);
      assert stream + Stamped(ps, g) == stream + Stamped(ps[..n], g) + [Observation(g, ps[n])];
      hide Remembers, Observe;
    }
  }

  /** What rows of a snapshot make of the record of one application. */
  ghost predicate Touches(s: Store, t: Entries, stream: seq<Observation>, ps: seq<Process>, elapsed: nat, now: int, app: string, b: Entry) {
    if HasRow(ps, app)
    then app in t && Became(b, t[app], s.generation, elapsed, now, RssSum(ps, app), Used(stream, ps, s.generation, app))
    else (app in t <==> app in s.entries) && (app in t ==> t[app] == s.entries[app])
  }

  lemma {:induction false} RowsTouch(s: Store, stream: seq<Observation>, ps: seq<Process>, elapsed: nat, now: int, app: string, b: Entry)
    requires Remembers(s.samples, stream, s.generation, 3) && MadeBy(stream, s.generation) && s.generation != 0
    requires IsBase(s.entries, app, b, s.generation, now, ps)
    ensures Touches(s, ObserveAll(s, ps, elapsed, now).entries, stream, ps, elapsed, now, app, b)
  {
    hide *;
    if ps == [] {
      NoRowTouches(s, stream, elapsed, now, app, b);
    } else {
      var n := |ps| - 1;
      var mid := ObserveAll(s, ps[..n], elapsed, now);
      BaseOfFront(s.entries, app, b, s.generation, now, ps);
      RowsTouch(s, stream, ps[..n], elapsed, now, app, b);
      RowsRemember(s, stream, ps[..n], elapsed, now);
      ObserveAllBasics(s, ps[..n], elapsed, now);
      ConsumedIsGrowth(mid.samples, stream + Stamped(ps[..n], s.generation), ps[n], s.generation);
      OneRowMore(s, mid, stream, ps, elapsed, now, app, b);
      ObserveAllUnfolds(s, ps, elapsed, now);
    }
  }

  lemma BaseOfFront(entries: Entries, app: string, b: Entry, generation: nat, now: int, ps: seq<Process>)
    requires ps != [] && IsBase(entries, app, b, generation, now, ps)
    ensures IsBase(entries, app, b, generation, now, ps[..|ps| - 1])
  {
    hide NamedBy;
    var front := ps[..|ps| - 1];
    forall i | IsFirst(front, app, i) ensures IsFirst(ps, app, i) && front[i] == ps[i] {
      assert forall j :: 0 <= j < |front| ==> front[j] == ps[j];
    }
  }

  lemma LastIsFirst(entries: Entries, app: string, b: Entry, generation: nat, now: int, ps: seq<Process>)
    requires ps != [] && IsBase(entries, app, b, generation, now, ps)
    requires ps[|ps| - 1].app == app && !HasRow(ps[..|ps| - 1], app)
    ensures b.live != generation
    ensures if app in entries then b == entries[app]
            else b.active == b.peak == 0 && b.firstSeen == b.lastSeen == now && NamedBy(b, ps[|ps| - 1])
  {
    var n := |ps| - 1;
    hide NamedBy;
    forall j | 0 <= j < n ensures ps[j].app != app {
      assert ps[..n][j] == ps[j];
    }
    assert IsFirst(ps, app, n);
  }

  lemma NoRowTouches(s: Store, stream: seq<Observation>, elapsed: nat, now: int, app: string, b: Entry)
    ensures Touches(s, ObserveAll(s, [], elapsed, now).entries, stream, [], elapsed, now, app, b)
  {
    hide Became, Used;
  }

  lemma ObserveAllUnfolds(s: Store, ps: seq<Process>, elapsed: nat, now: int)
    requires ps != []
    ensures ObserveAll(s, ps, elapsed, now) ==
      Observe(ObserveAll(s, ps[..|ps| - 1], elapsed, now), ps[|ps| - 1], elapsed, now)
  {
    hide Observe;
  }

  lemma OneRowMore(s: Store, mid: Store, stream: seq<Observation>, ps: seq<Process>, elapsed: nat, now: int, app: string, b: Entry)
    requires ps != [] && mid.generation == s.generation != 0 && IsBase(s.entries, app, b, s.generation, now, ps)
    requires Touches(s, mid.entries, stream, ps[..|ps| - 1], elapsed, now, app, b)
    requires var used, n := Consumed(mid.samples, ps[|ps| - 1]), |ps| - 1;
      (used.0 > 0 || used.1 > 0 || used.2 > 0) <==>
      Grew(stream + Stamped(ps[..n], s.generation), Observation(s.generation, ps[n]))
    ensures Touches(s, Observe(mid, ps[|ps| - 1], elapsed, now).entries, stream, ps, elapsed, now, app, b)
  {
    var n := |ps| - 1;
    var grew := Grew(stream + Stamped(ps[..n], s.generation), Observation(s.generation, ps[n]));
    HasRowOneMore(ps, app);
    UsedOneMore(stream, ps, s.generation, app);
    assert ps[..n] == ps[..|ps| - 1];
    assert UsedAt(stream, ps, s.generation, app, n) <==> ps[n].app == app && (ps[n].busy || grew);
    assert RssSum(ps, app) == RssSum(ps[..n], app) + if ps[n].app == app then ps[n].rss else 0;
    hide Observe, HasRow, Used, UsedAt, Grew, Consumed, Became, RssSum, Stamped;
    if ps[n].app != app {
      RowOfOther(mid, ps[n], elapsed, now, app);
    } else if HasRow(ps[..n], app) {
      NextRow(mid, ps[n], elapsed, now, b, RssSum(ps[..n], app), Used(stream, ps[..n], s.generation, app), grew);
    } else {
      NoRowsNoMemory(ps[..n], app);
      NoRowsNoUse(stream, ps[..n], s.generation, app);
      LastIsFirst(s.entries, app, b, s.generation, now, ps);
      FirstRow(mid, ps[n], elapsed, now, b, grew);
    }
  }

  // ----- Runs -----

  /** The record of an application was created by snapshot `from` and never evicted since. */
  ghost predicate KeptSince(states: seq<Store>, app: string, from: nat) {
    && from < |states| && app !in states[from].entries
    && forall k :: from < k < |states| ==> app in states[k].entries
  }

  /** What a retained record says about its application. */
  ghost predicate Tells(e: Entry, snaps: seq<Snapshot>, app: string, from: nat)
    requires from < |snaps|
  {
    && e.active == ActiveTime(snaps, app, from)
    && e.current == LastMemory(snaps, app, from) && e.peak == PeakMemory(snaps, app, from)
    && e.firstSeen == snaps[from].now && e.lastSeen == LastUse(snaps, app, from)
    && HasRow(snaps[from].processes, app)
    && forall i :: IsFirst(snaps[from].processes, app, i) ==> NamedBy(e, snaps[from].processes[i])
  }

  /** One snapshot and its trim. */
  lemma SnapshotTouches(s: Store, stream: seq<Observation>, snap: Snapshot, s': Store, app: string, b: Entry)
    requires Ingested(s, snap, s') && s.generation + 3 < U32_MODULUS
    requires Remembers(s.samples, stream, s.generation, 2) && MadeBy(stream, s.generation)
    requires IsBase(s.entries, app, b, s.generation + 1, snap.now, snap.processes) && app in s'.entries
    ensures Touches(s.(generation := s.generation + 1), s'.entries, stream, snap.processes, snap.elapsed, snap.now, app, b)
  {
    var begun := s.(generation := s.generation + 1);
    RemembersNext(s.samples, stream, s.generation);
    RowsTouch(begun, stream, snap.processes, snap.elapsed, snap.now, app, b);
    TrimLeaves(s, snap, s', app);
    hide Remembers, ObserveAll, HasRow, Became, Used, RssSum, Ingested, IsBase;
  }

  lemma TrimLeaves(s: Store, snap: Snapshot, s': Store, app: string)
    requires Ingested(s, snap, s') && app in s'.entries && s.generation + 3 < U32_MODULUS
    ensures var t := ObserveAll(s.(generation := s.generation + 1), snap.processes, snap.elapsed, snap.now).entries;
      app in t && t[app] == s'.entries[app]
  {
    hide ObserveAll, Candidates;
  }

  lemma {:induction false} FirstExists(ps: seq<Process>, app: string) returns (i: nat)
    ensures HasRow(ps, app) ==> IsFirst(ps, app, i)
  {
    i := 0;
    if ps != [] {
      var n := |ps| - 1;
      HasRowOneMore(ps, app);
      if HasRow(ps[..n], app) {
        i := FirstExists(ps[..n], app);
        assert forall j :: 0 <= j < n ==> ps[..n][j] == ps[j];
      } else {
        forall j | 0 <= j < n ensures ps[j].app != app {
          assert ps[..n][j] == ps[j];
        }
        i := n;
      }
    }
  }

  /** The record that the first row of an application creates. */
  ghost predicate IsCreated(b: Entry, app: string, snap: Snapshot) {
    && b.live == b.active == b.peak == 0 && b.firstSeen == b.lastSeen == snap.now
    && forall i :: IsFirst(snap.processes, app, i) ==> NamedBy(b, snap.processes[i])
  }

  lemma CreatedRecord(app: string, snap: Snapshot) returns (b: Entry)
    ensures IsCreated(b, app, snap)
  {
    b := Entry(app, "", "", "", 0, 0, 0, 0, 0, 0, 0, snap.now, snap.now);
    var i := FirstExists(snap.processes, app);
    if HasRow(snap.processes, app) {
      var p := snap.processes[i];
      b := Entry(app, p.name, p.user, p.identity, 0, 0, 0, 0, 0, 0, 0, snap.now, snap.now);
      forall j | IsFirst(snap.processes, app, j) ensures j == i {
      }
    }
  }

  lemma ToldAtFirst(s: Store, t: Entries, snaps: seq<Snapshot>, app: string, b: Entry)
    requires snaps != [] && s.generation == |snaps| && app !in s.entries && app in t && IsCreated(b, app, snaps[|snaps| - 1])
    requires var n := |snaps| - 1;
      Touches(s, t, Stream(snaps[..n]), snaps[n].processes, snaps[n].elapsed, snaps[n].now, app, b)
    ensures Tells(t[app], snaps, app, |snaps| - 1) && t[app].live <= |snaps|
  {
    var n := |snaps| - 1;
    assert ActiveTime(snaps[..n], app, n) == LastMemory(snaps[..n], app, n) == PeakMemory(snaps[..n], app, n) == 0;
    hide HasRow, Used, RssSum, Stream;
    assert HasRow(snaps[n].processes, app);
  }

  lemma ToldNext(s: Store, t: Entries, snaps: seq<Snapshot>, app: string, from: nat)
    requires from + 1 < |snaps| && s.generation == |snaps| && app in s.entries && app in t
    requires Tells(s.entries[app], snaps[..|snaps| - 1], app, from) && s.entries[app].live < |snaps|
    requires var n := |snaps| - 1;
      Touches(s, t, Stream(snaps[..n]), snaps[n].processes, snaps[n].elapsed, snaps[n].now, app, s.entries[app])
    ensures Tells(t[app], snaps, app, from) && t[app].live <= |snaps|
  {
    var n := |snaps| - 1;
    assert !HasRow(snaps[n].processes, app) ==> Memory(snaps[n].processes, app) == 0 && !Used(Stream(snaps[..n]), snaps[n].processes, n + 1, app) by {
      if !HasRow(snaps[n].processes, app) {
        NoRowsNoMemory(snaps[n].processes, app);
        NoRowsNoUse(Stream(snaps[..n]), snaps[n].processes, n + 1, app);
      }
    }
    hide HasRow, Used, RssSum, Stream;
  }

  /** In every run the retained record of an application tells, since it was created: as active time
      the pauses before the snapshots that show it; its memory in the last of these and the most it
      had in any; and when it was first seen and last used, that is, seen busy or with growth. It is
      named as in the row that created it. */
  lemma {:induction false} RecordsTell(states: seq<Store>, snaps: seq<Snapshot>, app: string, from: nat)
    requires IsRun(states, snaps) && states[0] == EMPTY && |snaps| < U32_MODULUS - 2
    requires KeptSince(states, app, from) && from < |snaps|
    ensures app in states[|snaps|].entries
    ensures Tells(states[|snaps|].entries[app], snaps, app, from) && states[|snaps|].entries[app].live <= |snaps|
  {
    hide *;
    var n := |snaps| - 1;
    RunFacts(states, snaps);
    KeptFacts(states, app, from, n);
    IngestConserves(states[..n + 1], snaps[..n], app, Cpu) by {
      CpuHasNoCap(Total(Stream(snaps[..n]), app, Cpu));
    }
    var stream, s, snap := Stream(snaps[..n]), states[n], snaps[n];
    if n == from {
      var b := CreatedRecord(app, snap);
      CreatedIsBase(s.entries, app, b, n + 1, snap);
      SnapshotTouches(s, stream, snap, states[n + 1], app, b);
      ToldAtFirst(s.(generation := n + 1), states[n + 1].entries, snaps, app, b);
    } else {
      RecordsTell(states[..n + 1], snaps[..n], app, from);
      KeptIsBase(s.entries, app, n + 1, snap);
      SnapshotTouches(s, stream, snap, states[n + 1], app, s.entries[app]);
      ToldNext(s.(generation := n + 1), states[n + 1].entries, snaps, app, from);
    }
  }

  lemma RunFacts(states: seq<Store>, snaps: seq<Snapshot>)
    requires IsRun(states, snaps)
    ensures |states| == |snaps| + 1
    ensures snaps != [] ==> var n := |snaps| - 1;
      IsRun(states[..n + 1], snaps[..n]) && Ingested(states[n], snaps[n], states[n + 1])
  {
    hide Ingested;
  }

  lemma KeptFacts(states: seq<Store>, app: string, from: nat, n: nat)
    requires KeptSince(states, app, from) && from <= n && |states| == n + 2
    ensures app in states[n + 1].entries
    ensures if n == from then app !in states[n].entries else app in states[n].entries && KeptSince(states[..n + 1], app, from)
  {
  }

  lemma CpuHasNoCap(total: nat)
    ensures BelowCap(total, Cpu)
  {
  }

  lemma CreatedIsBase(entries: Entries, app: string, b: Entry, generation: nat, snap: Snapshot)
    requires app !in entries && generation > 0 && IsCreated(b, app, snap)
    ensures IsBase(entries, app, b, generation, snap.now, snap.processes)
  {
    hide NamedBy, IsFirst;
  }

  lemma KeptIsBase(entries: Entries, app: string, generation: nat, snap: Snapshot)
    requires app in entries && entries[app].live < generation
    ensures IsBase(entries, app, entries[app], generation, snap.now, snap.processes)
  {
  }

  // ----- Active time by the clock -----

  /** The time of the snapshot before snapshot i, 0 when there was none. */
  function TimeBefore(times: seq<nat>, i: nat): nat
    requires i < |times|
  {
    if i == 0 then 0 else times[i - 1]
  }

  /** The snapshots were taken at these clock times, one after the other, by a model that had taken
      none before. */
  ghost predicate TakenAt(snaps: seq<Snapshot>, times: seq<nat>) {
    && |times| == |snaps|
    && forall i :: 0 <= i < |snaps| ==> snaps[i].elapsed == Elapsed(TimeBefore(times, i), times[i])
  }

  /** The pause before snapshot i counts: there was one before, the clock did not go back, and the
      pause was at most a minute. */
  predicate Counts(times: seq<nat>, i: nat) {
    0 < i < |times| && 0 < times[i - 1] <= times[i] <= times[i - 1] + 60_000_000_000
  }

  ghost function CountedTime(snaps: seq<Snapshot>, times: seq<nat>, app: string, from: nat): nat
    requires |times| == |snaps|
  {
    if |snaps| <= from then 0
    else
      var n := |snaps| - 1;
      CountedTime(snaps[..n], times[..n], app, from) +
      if HasRow(snaps[n].processes, app) && Counts(times, n) then times[n] - times[n - 1] else 0
  }

  lemma ElapsedCounts(snaps: seq<Snapshot>, times: seq<nat>, i: nat)
    requires TakenAt(snaps, times) && i < |snaps|
    ensures snaps[i].elapsed == if Counts(times, i) then times[i] - times[i - 1] else 0
  {
  }

  lemma TakenAtFront(snaps: seq<Snapshot>, times: seq<nat>)
    requires TakenAt(snaps, times) && snaps != []
    ensures |times| == |snaps| && TakenAt(snaps[..|snaps| - 1], times[..|snaps| - 1])
  {
    hide Elapsed;
    var n := |snaps| - 1;
    forall i | 0 <= i < n
      ensures snaps[..n][i].elapsed == Elapsed(TimeBefore(times[..n], i), times[..n][i])
    {
      assert snaps[i].elapsed == Elapsed(TimeBefore(times, i), times[i]);
    }
  }

  /** Active time adds up the pauses that count. */
  lemma {:induction false} ActiveTimeCounts(snaps: seq<Snapshot>, times: seq<nat>, app: string, from: nat)
    requires TakenAt(snaps, times)
    ensures ActiveTime(snaps, app, from) == CountedTime(snaps, times, app, from)
  {
    if |snaps| > from {
      var n := |snaps| - 1;
      TakenAtFront(snaps, times);
      ActiveTimeCounts(snaps[..n], times[..n], app, from);
      ElapsedCounts(snaps, times, n);
      hide TakenAt, HasRow;
    }
  }

  /** An application that every snapshot from its second one on shows, at most a minute apart, has
      been active from its first snapshot to its last, and in addition for the pause before the first. */
  lemma {:induction false} PresentIsActive(snaps: seq<Snapshot>, times: seq<nat>, app: string, from: nat)
    requires TakenAt(snaps, times) && from < |snaps|
    requires forall i :: from <= i < |snaps| ==> HasRow(snaps[i].processes, app)
    requires forall i :: from < i < |snaps| ==> Counts(times, i)
    ensures times[from] + ActiveTime(snaps, app, from) == times[|snaps| - 1] + snaps[from].elapsed
  {
    var n := |snaps| - 1;
    hide TakenAt, Counts, HasRow;
    if n > from {
      TakenAtFront(snaps, times);
      PresentIsActive(snaps[..n], times[..n], app, from) by {
        forall i | from < i < n ensures Counts(times[..n], i) {
          assert Counts(times, i);
          CountsInFront(times, n, i);
        }
      }
      ElapsedCounts(snaps, times, n);
    } else {
      assert snaps[..n] == snaps[..from];
    }
  }

  lemma CountsInFront(times: seq<nat>, n: nat, i: nat)
    requires i < n <= |times|
    ensures Counts(times[..n], i) <==> Counts(times, i)
  {
  }
}
