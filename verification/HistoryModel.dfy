/** The mutable App History model (src/history.c): its hash tables, its entry count and its
    dirty flag, with every operation tied to the accounting, retention and merge above it. */
module HistoryModel {
  import opened Basics
  import opened RecencyOrder
  import opened HistoryStore
  import opened HistoryIngest
  import opened HistoryMerge

  /** The longest pause, in nanoseconds, that still counts as active time. */
  const MAX_ELAPSED: nat := 60_000_000_000

  function Elapsed(lastSample: nat, now: nat): nat {
    if lastSample == 0 || now < lastSample || now - lastSample > MAX_ELAPSED then 0 else now - lastSample
  }

  class Model {
    var entries: Entries
    var samples: Samples
    var entryCount: nat
    var generation: nat
    var lastSample: nat
    var mutations: nat
    var dirty: bool

    ghost predicate Valid()
      reads this
    {
      Keyed(entries) && entryCount == |entries|
    }

    function Accounts(): Store
      reads this
    {
      Store(entries, samples, generation)
    }

    constructor ()
      ensures Valid() && Accounts() == EMPTY && lastSample == 0 && mutations == 0 && !dirty
    {
      entries, samples := map[], map[];
      entryCount, generation, lastSample, mutations := 0, 0, 0, 0;
      dirty := false;
    }

    /** The key of the least recently used unprotected record, if there is one. */
    method OldestKey(protected: nat) returns (oldest: Option<string>)
      requires Valid()
      ensures oldest.None? <==> Candidates(entries, protected) == {}
      ensures oldest.Some? ==> IsOldest(entries, protected, oldest.value)
    {
      oldest := None;
      var todo := entries.Keys;
      while todo != {}
        invariant todo <= entries.Keys
        invariant oldest.None? <==> Candidates(entries, protected) <= todo
        invariant oldest.Some? ==> oldest.value in Candidates(entries, protected) && oldest.value !in todo
        invariant oldest.Some? ==> forall j :: j in Candidates(entries, protected) && j !in todo && j != oldest.value ==>
          Older(entries[oldest.value], entries[j])
      {
        var key :| key in todo;
        var was := todo;
        todo := todo - {key};
        if !(protected != 0 && entries[key].live == protected) {
          if oldest.None? {
            oldest := Some(key);
          } else {
            var best := oldest.value;
            OlderIsTotal(entries[key], entries[best]);
            if Older(entries[key], entries[best]) {
              forall j | j in Candidates(entries, protected) && j !in todo && j != key
                ensures Older(entries[key], entries[j])
              {
                if j != best {
                  OlderIsTransitive(entries[key], entries[best], entries[j]);
                }
              }
              oldest := Some(key);
            }
          }
        }
      }
    }

    /** Evicts the least recently used unprotected record. */
    method RemoveOldest(protected: nat) returns (removed: bool)
      requires Valid()
      modifies this`entries, this`entryCount
      ensures Valid()
      ensures removed <==> Candidates(old(entries), protected) != {}
      ensures removed ==> |entries| == |old(entries)| - 1
      ensures removed ==> exists k :: IsOldest(old(entries), protected, k) && entries == old(entries) - {k}
      ensures !removed ==> entries == old(entries)
    {
      var oldest := OldestKey(protected);
      if oldest.None? {
        return false;
      }
      assert entries.Keys == (entries - {oldest.value}).Keys + {oldest.value};
      entries := entries - {oldest.value};
      entryCount := entryCount - 1;
      return true;
    }

    /** Applies the retention bound. With memory for a candidate array it sorts once; without,
        it removes the oldest record again and again. The outcome is the same. */
    method TrimToLimit(protected: nat, hasMemory: bool) returns (changed: bool)
      requires Valid()
      modifies this`entries, this`entryCount
      ensures Valid()
      ensures IsTrim(old(entries), protected, Excess(|old(entries)|), entries)
      ensures changed <==> entries != old(entries)
      ensures forall r, k :: r in old(entries) && r !in entries && k in entries && (protected == 0 || entries[k].live != protected) ==>
        old(entries)[r].lastSeen <= entries[k].lastSeen
    {
      ghost var before := entries;
      if entryCount <= LIMIT {
        changed := false;
      } else if hasMemory {
        changed := TrimSorted(protected, entryCount - LIMIT);
      } else {
        changed := TrimRepeatedly(protected);
      }
      hide IsTrim;
      TrimKeepsLatest(before, protected, Excess(|before|), entries);
    }

    method TrimSorted(protected: nat, excess: nat) returns (changed: bool)
      requires Valid()
      modifies this`entries, this`entryCount
      ensures Valid()
      ensures IsTrim(old(entries), protected, excess, entries)
      ensures changed <==> entries != old(entries)
    {
      hide IsTrim, IsCandidateList, Ascending, DistinctKeys, WithoutFirst, Candidates, SortByRecency, Keyed;
      ghost var before := entries;
      var candidates := CollectCandidates(protected);
      SortedCandidates(before, protected, candidates);
      candidates := SortByRecency(candidates);
      SortedPrefixIsTrim(before, protected, candidates, excess);
      var removeCount := if excess < |candidates| then excess else |candidates|;
      var removed := 0;
      NothingEvicted(before, candidates);
      for index := 0 to removeCount
        invariant entryCount == |before| && removed == index
        invariant |entries| == |before| - index
        invariant entries == WithoutFirst(before, candidates, index)
      {
        EvictNext(before, protected, candidates, index);
        entries := entries - {candidates[index].key};
        removed := removed + 1;
      }
      entryCount := Max(0, entryCount - removed);
      changed := removed > 0;
    }

    method TrimRepeatedly(protected: nat) returns (changed: bool)
      requires Valid()
      modifies this`entries, this`entryCount
      ensures Valid()
      ensures IsTrim(old(entries), protected, Excess(|old(entries)|), entries)
      ensures changed <==> entries != old(entries)
    {
      changed := false;
      ghost var before := entries;
      ghost var evicted := 0;
      assert IsTrim(before, protected, 0, entries);
      hide IsTrim, Candidates, IsOldest;
      while entryCount > LIMIT
        invariant Valid() && |entries| == |before| - evicted
        invariant evicted <= Excess(|before|) && evicted <= |Candidates(before, protected)|
        invariant IsTrim(before, protected, evicted, entries)
        invariant changed <==> evicted > 0
        decreases entryCount
      {
        ghost var here := entries;
        var removed := RemoveOldest(protected);
        CandidatesLeft(before, protected, evicted, here);
        if !removed {
          break;
        }
        ghost var k :| IsOldest(here, protected, k) && entries == here - {k};
        TrimOneMore(before, protected, evicted, here, k);
        evicted := evicted + 1;
        changed := true;
      }
      TrimEnough(before, protected, evicted, Excess(|before|), entries);
      if evicted == 0 {
        NothingTrimmed(before, protected, entries);
      }
    }

    method CollectCandidates(protected: nat) returns (candidates: seq<Entry>)
      requires Valid()
      ensures DistinctKeys(candidates) && IsCandidateList(entries, protected, candidates)
    {
      candidates := [];
      var todo := entries.Keys;
      while todo != {}
        invariant todo <= entries.Keys && DistinctKeys(candidates)
        invariant forall e :: e in candidates ==> e.key in Candidates(entries, protected) - todo && entries[e.key] == e
        invariant forall k :: k in Candidates(entries, protected) - todo ==> entries[k] in candidates
      {
        var key :| key in todo;
        todo := todo - {key};
        if !(protected != 0 && entries[key].live == protected) {
          candidates := candidates + [entries[key]];
        }
      }
    }

    method MarkDirty()
      modifies this`mutations, this`dirty
      ensures dirty && mutations == NextMutation(old(mutations))
    {
      if mutations < U32_MAX {
        mutations := mutations + 1;
      }
      dirty := true;
    }

    /** Accounts for one process snapshot. */
    method Ingest(processes: seq<Process>, nowMonotonic: nat, nowEpoch: int, hasMemory: bool)
      requires Valid()
      modifies this
      ensures Valid()
      ensures Ingested(old(Accounts()), Snapshot(processes, Elapsed(old(lastSample), nowMonotonic), nowEpoch), Accounts())
      ensures lastSample == nowMonotonic
      ensures if processes == [] then dirty == old(dirty) && mutations == old(mutations)
              else dirty && mutations == NextMutation(old(mutations))
    {
      hide IsTrim, ObserveAll, Keyed;
      generation := (generation + 1) % U32_MODULUS;
      var elapsed := Elapsed(lastSample, nowMonotonic);
      lastSample := nowMonotonic;
      ObserveRows(processes, elapsed, nowEpoch);
      samples := map k | k in samples && !Stale(samples[k], generation) :: samples[k];
      assert Accounts() == Absorbed(old(Accounts()), Snapshot(processes, elapsed, nowEpoch));
      var _ := TrimToLimit(generation, hasMemory);
      if processes != [] {
        MarkDirty();
      }
    }

    method ObserveRows(processes: seq<Process>, elapsed: nat, now: int)
      requires Valid()
      modifies this`entries, this`samples, this`entryCount
      ensures Valid() && Accounts() == ObserveAll(old(Accounts()), processes, elapsed, now)
    {
      hide Observe, Keyed;
      for i := 0 to |processes|
        invariant Valid() && generation == old(generation)
        invariant Accounts() == ObserveAll(old(Accounts()), processes[..i], elapsed, now)
      {
        assert processes[..i + 1][..i] == processes[..i];
        ObserveRow(processes[i], elapsed, now);
      }
      assert processes[..|processes|] == processes;
    }

    /** One row of the snapshot. */
    method ObserveRow(p: Process, elapsed: nat, now: int)
      requires Valid()
      modifies this`entries, this`samples, this`entryCount
      ensures Valid()
      ensures Accounts() == Observe(old(Accounts()), p, elapsed, now)
    {
      hide Touched, Credited, Consumed;
      if p.app !in entries {
        entries := entries[p.app := NewEntry(p, now)];
        entryCount := entryCount + 1;
      }
      var entry := TouchEntry(entries[p.app], elapsed, p.rss);
      entry := CreditEntry(entry, p, now);
      samples := samples[KeyOf(p) := Sample(p.cpu, p.read, p.write, generation)];
      entries := entries[p.app := entry];
    }

    method TouchEntry(e: Entry, elapsed: nat, rss: U64) returns (entry: Entry)
      ensures entry == Touched(e, generation, elapsed, rss) && entry.key == e.key
    {
      entry := e;
      if entry.live != generation {
        entry := entry.(live := generation, current := 0, active := entry.active + elapsed);
      }
      entry := entry.(current := SatAdd(entry.current, rss));
      if entry.current > entry.peak {
        entry := entry.(peak := entry.current);
      }
    }

    method CreditEntry(e: Entry, p: Process, now: int) returns (entry: Entry)
      ensures entry == Credited(e, Consumed(samples, p), p.busy, now) && entry.key == e.key
    {
      var cpuDelta: U64, readDelta: U64, writeDelta: U64 := 0, 0, 0;
      if KeyOf(p) in samples {
        var before := samples[KeyOf(p)];
        if p.cpu >= before.cpu { cpuDelta := p.cpu - before.cpu; }
        if p.read >= before.read { readDelta := p.read - before.read; }
        if p.write >= before.write { writeDelta := p.write - before.write; }
      }
      entry := e.(cpu := e.cpu + cpuDelta, read := SatAdd(e.read, readDelta), write := SatAdd(e.write, writeDelta));
      if cpuDelta > 0 || readDelta > 0 || writeDelta > 0 || p.busy {
        entry := entry.(lastSeen := now);
      }
    }

    /** Adds the persisted history once its asynchronous load has finished. */
    method MergeLoaded(loaded: Entries, truncated: bool, hasMemory: bool)
      requires Valid() && Keyed(loaded)
      modifies this`entries, this`entryCount, this`mutations, this`dirty
      ensures Valid()
      ensures IsTrim(Merged(old(entries), loaded), generation, Excess(|Merged(old(entries), loaded)|), entries)
      ensures if truncated || entries != Merged(old(entries), loaded)
              then dirty && mutations == NextMutation(old(mutations))
              else dirty == old(dirty) && mutations == old(mutations)
    {
      hide Merged, IsTrim;
      MergeEach(loaded);
      var trimmed := TrimToLimit(generation, hasMemory);
      if truncated || trimmed {
        MarkDirty();
      }
    }

    method MergeEach(loaded: Entries)
      requires Valid() && Keyed(loaded)
      modifies this`entries, this`entryCount
      ensures Valid() && entries == Merged(old(entries), loaded)
    {
      hide Merged, MergedEntry;
      ghost var before := entries;
      MergeNothing(before);
      var todo := loaded.Keys;
      ghost var done: Entries := map[];
      while todo != {}
        invariant todo <= loaded.Keys && Valid()
        invariant done.Keys == loaded.Keys - todo && forall k :: k in done ==> done[k] == loaded[k]
        invariant entries == Merged(before, done)
      {
        var key :| key in todo;
        MergedOneMore(before, done, key, loaded[key]);
        todo := todo - {key};
        done := done[key := loaded[key]];
        if key !in entries {
          entries := entries[key := loaded[key]];
          entryCount := entryCount + 1;
        } else {
          MergedKeepsKey(entries[key], loaded[key]);
          entries := entries[key := MergedEntry(entries[key], loaded[key])];
        }
      }
      assert done == loaded;
    }

    /** The user's reset of all history. */
    method Reset()
      modifies this`entries, this`samples, this`entryCount, this`mutations, this`dirty
      ensures Valid() && entries == map[] && samples == map[]
      ensures dirty && mutations == NextMutation(old(mutations))
    {
      entries, samples, entryCount := map[], map[], 0;
      MarkDirty();
    }

    /** One well-formed row of the persisted file; true when a row was lost to the bound. */
    method LoadRecord(entry: Entry) returns (truncated: bool)
      requires Valid()
      modifies this`entries, this`entryCount
      ensures Valid() && LoadStep(old(entries), entry, entries, truncated)
    {
      truncated := false;
      var existed := entry.key in entries;
      if !existed && entryCount >= LIMIT {
        var oldest := OldestKey(0);
        assert Candidates(entries, 0) == entries.Keys;
        if oldest.Some? {
          OlderIsTotal(entry, entries[oldest.value]);
        }
        if oldest.None? || RecencyCompare(entry, entries[oldest.value]) <= 0 {
          assert entries == Replaced(entries, oldest.value, entry);
          return true;
        }
        ghost var here := entries;
        var removed := RemoveOldest(0);
        ghost var k :| IsOldest(here, 0, k) && entries == here - {k};
        assert k == oldest.value by {
          if k != oldest.value {
            OlderIsTotal(here[k], here[oldest.value]);
          }
        }
        truncated := true;
      }
      assert existed ==> entries[entry.key := entry].Keys == entries.Keys;
      entries := entries[entry.key := entry];
      if !existed {
        entryCount := entryCount + 1;
      }
    }

    /** Streams the rows of a file: of rows with different keys it keeps the newest ones,
        and it reports a loss exactly when one was dropped. */
    method LoadRecords(records: seq<Entry>) returns (truncated: bool)
      requires Valid() && entries == map[] && DistinctKeys(records)
      modifies this`entries, this`entryCount
      ensures Valid() && KeepsNewest(records, entries)
      ensures truncated <==> exists e :: e in records && e.key !in entries
      ensures forall e, k :: e in records && e.key !in entries && k in entries ==> e.lastSeen <= entries[k].lastSeen
    {
      truncated := false;
      assert KeepsNewest(records[..0], entries);
      hide KeepsNewest, LoadStep, DistinctKeys;
      for i := 0 to |records|
        invariant Valid() && KeepsNewest(records[..i], entries)
        invariant truncated <==> i > LIMIT
      {
        PrefixIsDistinct(records, i);
        ghost var before := entries;
        var lost := LoadRecord(records[i]);
        LoadStepKeepsNewest(records[..i], before, records[i], entries, lost);
        truncated := truncated || lost;
      }
      assert records[..|records|] == records;
      DroppedWhenOver(records, entries);
      NewestAreLatest(records, entries);
    }
  }

  function NextMutation(mutations: nat): nat {
    if mutations < U32_MAX then mutations + 1 else mutations
  }
}
