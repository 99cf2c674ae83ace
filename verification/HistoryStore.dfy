/** Bounded retention of App History (src/history.c): which records a trim
    evicts and which records the streaming loader keeps. */
module HistoryStore {
  import opened Basics
  import opened RecencyOrder

  const LIMIT: nat := 4096

  /** The records a trim may evict: all but those live in a non-zero protected generation. */
  ghost function Candidates(m: Entries, protected: nat): set<string> {
    set k | k in m && (protected == 0 || m[k].live != protected)
  }

  function Excess(n: nat): nat {
    if n <= LIMIT then 0 else n - LIMIT
  }

  ghost predicate SubMap(m: Entries, m': Entries) {
    m'.Keys <= m.Keys && forall k :: k in m' ==> m'[k] == m[k]
  }

  /** `m'` is what is left of `m` after evicting the n oldest unprotected records, or all
      of the unprotected ones when there are fewer. */
  ghost predicate IsTrim(m: Entries, protected: nat, n: nat, m': Entries) {
    && SubMap(m, m')
    && m.Keys - m'.Keys <= Candidates(m, protected)
    && |m.Keys - m'.Keys| == Min(n, |Candidates(m, protected)|)
    && forall r, k :: r in m.Keys - m'.Keys && k in m' && k in Candidates(m, protected) ==> Older(m[r], m[k])
  }

  ghost predicate IsOldest(m: Entries, protected: nat, k: string) {
    && k in Candidates(m, protected)
    && forall j :: j in Candidates(m, protected) && j != k ==> Older(m[k], m[j])
  }

  lemma NoExchange(m: Entries, protected: nat, n: nat, a: Entries, b: Entries, x: string, y: string)
    requires Keyed(m) && IsTrim(m, protected, n, a) && IsTrim(m, protected, n, b)
    requires x in m.Keys - a.Keys && x in b
    ensures !(y in m.Keys - b.Keys && y in a)
  {
    if y in m.Keys - b.Keys && y in a {
      OlderIsTotal(m[x], m[y]);
    }
  }

  /** A trim has one outcome only, so its two implementations evict the same records. */
  lemma {:induction false} TrimIsUnique(m: Entries, protected: nat, n: nat, a: Entries, b: Entries)
    requires Keyed(m)
    requires IsTrim(m, protected, n, a) && IsTrim(m, protected, n, b)
    ensures a == b
  {
    hide *;
    var ra, rb := m.Keys - a.Keys, m.Keys - b.Keys;
    TrimMeans(m, protected, n, a);
    TrimMeans(m, protected, n, b);
    if x :| x in ra && x !in rb {
      forall y | y in rb ensures y in ra {
        NoExchange(m, protected, n, a, b, x, y);
      }
    }
    assert ra <= rb || rb <= ra;
    SubsetSize(if ra <= rb then ra else rb, if ra <= rb then rb else ra);
  }

  lemma CandidatesAreIn(m: Entries, protected: nat)
    ensures Candidates(m, protected) <= m.Keys
  {
  }

  lemma TrimFolds(m: Entries, protected: nat, n: nat, m': Entries)
    requires m'.Keys <= m.Keys && forall k :: k in m' ==> m'[k] == m[k]
    requires m.Keys - m'.Keys <= Candidates(m, protected) && |m.Keys - m'.Keys| == Min(n, |Candidates(m, protected)|)
    requires forall r, k :: r in m.Keys - m'.Keys && k in m' && k in Candidates(m, protected) ==> Older(m[r], m[k])
    ensures IsTrim(m, protected, n, m')
  {
    hide Older, Min, Candidates;
  }

  lemma TrimIs(m: Entries, protected: nat, n: nat, gone: set<string>)
    requires gone <= Candidates(m, protected) <= m.Keys && |gone| == Min(n, |Candidates(m, protected)|)
    requires forall r, k :: r in gone && k in m && k !in gone && k in Candidates(m, protected) ==> Older(m[r], m[k])
    ensures IsTrim(m, protected, n, m - gone)
  {
    hide *;
    assert m.Keys - (m - gone).Keys == gone;
    TrimFolds(m, protected, n, m - gone);
  }


  /** Evicting one more record: the oldest of those left. */
  lemma TrimOneMore(m: Entries, protected: nat, n: nat, a: Entries, k: string)
    requires Keyed(m)
    requires IsTrim(m, protected, n, a) && n < |Candidates(m, protected)|
    requires IsOldest(a, protected, k)
    ensures IsTrim(m, protected, n + 1, a - {k})
  {
    hide *;
    var gone := m.Keys - a.Keys;
    CandidatesAreIn(m, protected);
    TrimMeans(m, protected, n, a);
    CandidatesOfPart(m, protected, a);
    OldestMeans(a, protected, k);
    MinIs(n, |Candidates(m, protected)|);
    MinIs(n + 1, |Candidates(m, protected)|);
    WithoutOneMore(m, a, k);
    forall r, j | r in gone + {k} && j in m && j !in gone + {k} && j in Candidates(m, protected) ensures Older(m[r], m[j]) {
      assert j in a;
    }
    TrimIs(m, protected, n + 1, gone + {k});
  }

  lemma WithoutOneMore(m: Entries, a: Entries, k: string)
    requires a.Keys <= m.Keys && k in a && forall j :: j in a ==> a[j] == m[j]
    ensures m - (m.Keys - a.Keys + {k}) == a - {k} && |m.Keys - a.Keys + {k}| == |m.Keys - a.Keys| + 1
  {
    assert (m - (m.Keys - a.Keys + {k})).Keys == (a - {k}).Keys;
  }

  lemma MinIs(a: nat, b: nat)
    ensures Min(a, b) == if a < b then a else b
  {
  }

  lemma TrimMeans(m: Entries, protected: nat, n: nat, a: Entries)
    requires IsTrim(m, protected, n, a)
    ensures a.Keys <= m.Keys && a == m - (m.Keys - a.Keys) && forall k :: k in a ==> a[k] == m[k]
    ensures m.Keys - a.Keys <= Candidates(m, protected) && |m.Keys - a.Keys| == Min(n, |Candidates(m, protected)|)
    ensures forall r, k :: r in m.Keys - a.Keys && k in a && k in Candidates(m, protected) ==> Older(m[r], m[k])
  {
    hide Older, Min, Candidates;
  }

  lemma CandidatesOfPart(m: Entries, protected: nat, a: Entries)
    requires a.Keys <= m.Keys && forall k :: k in a ==> a[k] == m[k]
    ensures forall k :: k in a ==> (k in Candidates(m, protected) <==> k in Candidates(a, protected))
  {
  }

  lemma OldestMeans(a: Entries, protected: nat, k: string)
    requires IsOldest(a, protected, k)
    ensures k in a && k in Candidates(a, protected)
    ensures forall j :: j in Candidates(a, protected) && j != k ==> j in a && Older(a[k], a[j])
  {
    hide Older;
  }

  lemma NothingTrimmed(m: Entries, protected: nat, m': Entries)
    requires IsTrim(m, protected, 0, m')
    ensures m' == m
  {
    assert m.Keys - m'.Keys == {};
  }

  /** Applying the bound changes a table exactly when it is over the limit and has a record that
      may go; it then gets smaller. */
  lemma TrimChanges(m: Entries, protected: nat, m': Entries)
    requires IsTrim(m, protected, Excess(|m|), m')
    ensures m' == m <==> |m| <= LIMIT || Candidates(m, protected) == {}
    ensures m' != m ==> |m'| < |m|
  {
    var gone := m.Keys - m'.Keys;
    assert m.Keys == gone + m'.Keys;
    assert |m.Keys| == |gone| + |m'.Keys|;
    assert gone == {} ==> m'.Keys == m.Keys;
  }

  /** A trim that was to evict more records than there are candidates for evicts those. */
  lemma TrimEnough(m: Entries, protected: nat, n: nat, excess: nat, m': Entries)
    requires IsTrim(m, protected, n, m') && n <= excess
    requires n == excess || n == |Candidates(m, protected)|
    ensures IsTrim(m, protected, excess, m')
  {
  }

  /** Protected records survive, a trim leaves the limit or only protected records, and a
      record it keeps without protection is newer than every record it drops. */
  lemma TrimKeepsTheRightRecords(m: Entries, protected: nat, m': Entries)
    requires IsTrim(m, protected, Excess(|m|), m')
    ensures forall k :: k in m && protected != 0 && m[k].live == protected ==> k in m' && m'[k] == m[k]
    ensures |m'| == if |m| - |Candidates(m, protected)| <= LIMIT then Min(|m|, LIMIT) else |m| - |Candidates(m, protected)|
    ensures forall r, k :: r in m && r !in m' && k in m' && (protected == 0 || m'[k].live != protected) ==> Older(m[r], m[k])
  {
    var gone := m.Keys - m'.Keys;
    assert m.Keys == gone + m'.Keys;
    assert |m.Keys| == |gone| + |m'.Keys|;
    SubsetSize(Candidates(m, protected), m.Keys);
    forall k | k in m && protected != 0 && m[k].live == protected ensures k in m' {
      assert k !in Candidates(m, protected);
    }
  }

  /** The `n` greatest of a stream of records with different keys: everything kept comes
      from the stream, as many are kept as fit, and each dropped one is older than each kept one. */
  ghost predicate KeepsNewest(records: seq<Entry>, m: Entries) {
    && Keyed(m)
    && (forall k :: k in m ==> m[k] in records)
    && |m| == Min(|records|, LIMIT)
    && forall e, k :: e in records && e.key !in m && k in m ==> Older(e, m[k])
  }

  /** A full table after meeting a new record: its oldest record makes room for a newer one. */
  ghost function Replaced(m: Entries, k: string, e: Entry): Entries
    requires k in m
  {
    if Older(m[k], e) then (m - {k})[e.key := e] else m
  }

  /** What one well-formed record does to the loader's table; true when a record was lost. */
  ghost predicate LoadStep(m: Entries, e: Entry, m': Entries, truncated: bool) {
    if e.key in m || |m| < LIMIT then m' == m[e.key := e] && !truncated
    else truncated && exists k :: IsOldest(m, 0, k) && m' == Replaced(m, k, e)
  }

  lemma NewKey(records: seq<Entry>, m: Entries, e: Entry)
    requires DistinctKeys(records + [e])
    requires KeepsNewest(records, m)
    ensures DistinctKeys(records) && e.key !in m
  {
    var all := records + [e];
    forall i | 0 <= i < |records| ensures records[i] == all[i] && records[i].key != e.key {
      assert all[i].key != all[|records|].key;
    }
  }

  lemma PrefixIsDistinct(records: seq<Entry>, i: nat)
    requires DistinctKeys(records) && i < |records|
    ensures DistinctKeys(records[..i] + [records[i]]) && records[..i + 1] == records[..i] + [records[i]]
  {
    assert records[..i + 1] == records[..i] + [records[i]];
  }

  lemma NewestMeans(records: seq<Entry>, m: Entries)
    requires KeepsNewest(records, m)
    ensures Keyed(m) && (forall k :: k in m ==> m[k] in records) && |m| == (if |records| < LIMIT then |records| else LIMIT)
    ensures forall e, k :: e in records && e.key !in m && k in m ==> Older(e, m[k])
  {
    hide Keyed, Older;
  }

  lemma NewestFolds(records: seq<Entry>, m: Entries)
    requires Keyed(m) && (forall k :: k in m ==> m[k] in records) && |m| == (if |records| < LIMIT then |records| else LIMIT)
    requires forall e, k :: e in records && e.key !in m && k in m ==> Older(e, m[k])
    ensures KeepsNewest(records, m)
  {
    hide Keyed, Older;
  }

  lemma KeyedWith(m: Entries, gone: set<string>, e: Entry)
    requires Keyed(m)
    ensures Keyed((m - gone)[e.key := e])
  {
  }

  lemma LoadWithRoom(records: seq<Entry>, m: Entries, e: Entry)
    requires DistinctKeys(records + [e])
    requires KeepsNewest(records, m) && |m| < LIMIT
    ensures KeepsNewest(records + [e], m[e.key := e])
  {
    hide *;
    NewKey(records, m, e);
    NewestMeans(records, m);
    AllKept(records, m);
    var m' := m[e.key := e];
    KeyedWithOne(m, e);
    WithOneMore(records, m, e);
    NewestFolds(records + [e], m');
  }

  lemma KeyedWithOne(m: Entries, e: Entry)
    requires Keyed(m)
    ensures Keyed(m[e.key := e])
  {
  }

  lemma WithOneMore(records: seq<Entry>, m: Entries, e: Entry)
    requires e.key !in m && (forall k :: k in m ==> m[k] in records) && forall x :: x in records ==> x.key in m
    ensures var m' := m[e.key := e];
      && |m'| == |m| + 1 && (forall k :: k in m' ==> m'[k] in records + [e]) && forall x :: x in records + [e] ==> x.key in m'
  {
    assert m[e.key := e].Keys == m.Keys + {e.key};
  }

  lemma LoadNewer(records: seq<Entry>, m: Entries, e: Entry, k: string)
    requires e.key !in m && DistinctKeys(records)
    requires KeepsNewest(records, m) && |m| == LIMIT
    requires IsOldest(m, 0, k) && Older(m[k], e)
    ensures KeepsNewest(records + [e], (m - {k})[e.key := e])
  {
    hide *;
    NewestMeans(records, m);
    OldestMeans(m, 0, k);
    var m' := (m - {k})[e.key := e];
    assert m'.Keys == m.Keys - {k} + {e.key};
    KeyedWith(m, {k}, e);
    forall x, j | x in records + [e] && x.key !in m' && j in m' ensures Older(x, m'[j]) {
      assert x in records;
      DroppedIsOlder(records, m, e, k, x, j);
    }
    forall j | j in m' ensures m'[j] in records + [e] {
      assert j != e.key ==> m'[j] == m[j] && m[j] in records;
    }
    NewestFolds(records + [e], m');
  }

  lemma DroppedIsOlder(records: seq<Entry>, m: Entries, e: Entry, k: string, x: Entry, j: string)
    requires e.key !in m && DistinctKeys(records) && KeepsNewest(records, m)
    requires IsOldest(m, 0, k) && Older(m[k], e)
    requires x in records && (x.key == k || x.key !in m) && (j == e.key || (j in m && j != k))
    ensures Older(x, if j == e.key then e else m[j])
  {
    assert j != e.key ==> j in Candidates(m, 0);
    if x.key == k {
      SameKeySameRecord(records, x, m[k]);
    } else if j == e.key {
      OlderIsTransitive(x, m[k], e);
    }
  }

  lemma LoadOlder(records: seq<Entry>, m: Entries, e: Entry, k: string)
    requires e.key !in m
    requires KeepsNewest(records, m) && |m| == LIMIT
    requires IsOldest(m, 0, k) && !Older(m[k], e)
    ensures KeepsNewest(records + [e], m)
  {
    OlderIsTotal(m[k], e);
    forall j | j in m ensures Older(e, m[j]) {
      assert j in Candidates(m, 0);
      if j != k {
        OlderIsTransitive(e, m[k], m[j]);
      }
    }
  }

  lemma LoadStepKeepsNewest(records: seq<Entry>, m: Entries, e: Entry, m': Entries, truncated: bool)
    requires DistinctKeys(records + [e])
    requires KeepsNewest(records, m)
    requires LoadStep(m, e, m', truncated)
    ensures KeepsNewest(records + [e], m')
    ensures truncated <==> |records| >= LIMIT
  {
    NewKey(records, m, e);
    if |m| < LIMIT {
      LoadWithRoom(records, m, e);
    } else {
      var k :| IsOldest(m, 0, k) && m' == Replaced(m, k, e);
      if Older(m[k], e) {
        LoadNewer(records, m, e, k);
      } else {
        LoadOlder(records, m, e, k);
      }
    }
  }

  lemma SameKeySameRecord(records: seq<Entry>, a: Entry, b: Entry)
    requires a in records && b in records && a.key == b.key
    requires forall i, j :: 0 <= i < j < |records| ==> records[i].key != records[j].key
    ensures a == b
  {
  }

  /** Below the limit nothing has been dropped. */
  lemma AllKept(records: seq<Entry>, m: Entries)
    requires DistinctKeys(records) && KeepsNewest(records, m) && |records| <= LIMIT
    ensures m.Keys == KeysOf(records)
    ensures forall e :: e in records ==> e.key in m && m[e.key] == e
  {
    KeySetSize(records);
    SubsetSize(m.Keys, KeysOf(records));
    forall e | e in records ensures e.key in m && m[e.key] == e {
      assert e.key in KeysOf(records);
      SameKeySameRecord(records, e, m[e.key]);
    }
  }

  /** Over the limit something has been dropped. */
  lemma DroppedWhenOver(records: seq<Entry>, m: Entries)
    requires DistinctKeys(records) && KeepsNewest(records, m)
    ensures |records| > LIMIT <==> exists e :: e in records && e.key !in m
  {
    if |records| <= LIMIT {
      AllKept(records, m);
    } else if forall e :: e in records ==> e.key in m {
      KeySetSize(records);
      assert KeysOf(records) <= m.Keys;
      SubsetSize(KeysOf(records), m.Keys);
      assert false;
    }
  }

  ghost function KeysOf(s: seq<Entry>): set<string> {
    set e | e in s :: e.key
  }

  ghost function WithoutFirst(m: Entries, candidates: seq<Entry>, n: nat): Entries
    requires n <= |candidates|
  {
    m - KeysOf(candidates[..n])
  }

  /** `candidates` lists the unprotected records, each once. */
  ghost predicate IsCandidateList(m: Entries, protected: nat, candidates: seq<Entry>) {
    && (forall e :: e in candidates ==> e.key in Candidates(m, protected) && m[e.key] == e)
    && (forall k :: k in Candidates(m, protected) ==> m[k] in candidates)
  }

  lemma CandidateListSize(m: Entries, protected: nat, candidates: seq<Entry>)
    requires Keyed(m) && DistinctKeys(candidates) && IsCandidateList(m, protected, candidates)
    ensures KeysOf(candidates) == Candidates(m, protected)
    ensures |candidates| == |Candidates(m, protected)|
  {
    KeySetSize(candidates);
  }

  lemma AscendingIsDistinct(s: seq<Entry>)
    requires Ascending(s) && forall e, f :: e in s && f in s && e.key == f.key ==> e == f
    ensures DistinctKeys(s)
  {
    forall i, j | 0 <= i < j < |s| ensures s[i].key != s[j].key {
      OlderIsTotal(s[i], s[j]);
    }
  }

  lemma PrefixIsOlder(m: Entries, protected: nat, candidates: seq<Entry>, n: nat, r: string, k: string)
    requires Keyed(m) && Ascending(candidates) && IsCandidateList(m, protected, candidates) && n <= |candidates|
    requires r in KeysOf(candidates[..n]) && k in Candidates(m, protected) && k !in KeysOf(candidates[..n])
    ensures Older(m[r], m[k])
  {
    var i :| 0 <= i < n && candidates[i].key == r;
    var j :| 0 <= j < |candidates| && candidates[j] == m[k];
    assert forall x :: 0 <= x < n ==> candidates[x] in candidates[..n];
  }

  lemma PrefixFacts(m: Entries, candidates: seq<Entry>, n: nat)
    requires Keyed(m) && DistinctKeys(candidates) && n <= |candidates|
    ensures |KeysOf(candidates[..n])| == n && KeysOf(candidates[..n]) <= KeysOf(candidates)
    ensures WithoutFirst(m, candidates, n) == m - KeysOf(candidates[..n]) && Keyed(m - KeysOf(candidates[..n]))
  {
    KeySetSize(candidates[..n]);
  }

  /** Evicting a prefix of the sorted candidates is a trim. */
  lemma SortedPrefixIsTrim(m: Entries, protected: nat, candidates: seq<Entry>, excess: nat)
    requires Keyed(m) && DistinctKeys(candidates) && Ascending(candidates) && IsCandidateList(m, protected, candidates)
    ensures IsTrim(m, protected, excess, WithoutFirst(m, candidates, Min(excess, |candidates|)))
    ensures Keyed(WithoutFirst(m, candidates, Min(excess, |candidates|)))
  {
    hide *;
    var n := Min(excess, |candidates|);
    MinIs(excess, |candidates|);
    CandidateListSize(m, protected, candidates);
    CandidatesAreIn(m, protected);
    PrefixFacts(m, candidates, n);
    var gone := KeysOf(candidates[..n]);
    forall r, k | r in gone && k in m && k !in gone && k in Candidates(m, protected) ensures Older(m[r], m[k]) {
      PrefixIsOlder(m, protected, candidates, n, r, k);
    }
    TrimIs(m, protected, excess, gone);
  }

  /** Sorting the candidate list. */
  lemma SortedCandidates(m: Entries, protected: nat, candidates: seq<Entry>)
    requires Keyed(m) && DistinctKeys(candidates) && IsCandidateList(m, protected, candidates)
    ensures var s := SortByRecency(candidates);
            DistinctKeys(s) && Ascending(s) && IsCandidateList(m, protected, s)
  {
    AscendingIsDistinct(SortByRecency(candidates));
  }

  lemma RemoveOne(m: Entries, gone: set<string>, key: string)
    requires key in m && key !in gone
    ensures |m - gone - {key}| == |m - gone| - 1
    ensures m - (gone + {key}) == m - gone - {key}
  {
    assert (m - gone).Keys == (m - gone - {key}).Keys + {key};
  }

  /** Evicting the sorted candidates one after the other. */
  lemma EvictNext(m: Entries, protected: nat, candidates: seq<Entry>, i: nat)
    requires DistinctKeys(candidates) && IsCandidateList(m, protected, candidates) && i < |candidates|
    ensures var left, key := WithoutFirst(m, candidates, i), candidates[i].key;
            key in left && |left - {key}| == |left| - 1 && WithoutFirst(m, candidates, i + 1) == left - {key}
  {
    var key := candidates[i].key;
    assert candidates[..i + 1] == candidates[..i] + [candidates[i]];
    assert KeysOf(candidates[..i + 1]) == KeysOf(candidates[..i]) + {key};
    assert candidates[i] in candidates && key in m;
    assert key !in KeysOf(candidates[..i]);
    RemoveOne(m, KeysOf(candidates[..i]), key);
  }

  lemma NothingEvicted(m: Entries, candidates: seq<Entry>)
    ensures WithoutFirst(m, candidates, 0) == m
  {
    assert KeysOf(candidates[..0]) == {};
  }

  lemma KeySetSize(s: seq<Entry>)
    requires DistinctKeys(s)
    ensures |KeysOf(s)| == |s|
  {
    var keys := seq(|s|, i requires 0 <= i < |s| => s[i].key);
    DistinctSize(keys);
    assert KeysOf(s) == set k | k in keys by {
      forall k | k in keys ensures exists e :: e in s && e.key == k {
        var i :| 0 <= i < |keys| && keys[i] == k;
        assert s[i] in s;
      }
      forall e | e in s ensures e.key in keys {
        var i :| 0 <= i < |s| && s[i] == e;
        assert keys[i] == e.key;
      }
    }
  }

  /** After evicting fewer than all candidates, some are left; their age order is unchanged. */
  lemma CandidatesLeft(m: Entries, protected: nat, n: nat, m': Entries)
    requires IsTrim(m, protected, n, m') && n <= |Candidates(m, protected)|
    ensures Candidates(m', protected) == {} <==> n == |Candidates(m, protected)|
  {
    var gone := m.Keys - m'.Keys;
    assert Candidates(m, protected) == gone + Candidates(m', protected);
    assert gone !! Candidates(m', protected);
  }

  lemma {:induction false} OldestOf(m: Entries, s: set<string>) returns (k: string)
    requires Keyed(m) && s <= m.Keys && s != {}
    ensures k in s && forall j :: j in s && j != k ==> Older(m[k], m[j])
    decreases |s|
  {
    var x :| x in s;
    var rest := s - {x};
    assert forall j :: j in s <==> j == x || j in rest;
    if rest == {} {
      k := x;
    } else {
      var r := OldestOf(m, rest);
      hide Older;
      OlderIsTotal(m[x], m[r]);
      k := if Older(m[r], m[x]) then r else x;
      forall j | j in s && j != k ensures Older(m[k], m[j]) {
        if k == x && j != r {
          OlderIsTransitive(m[x], m[r], m[j]);
        }
      }
    }
  }

  /** What a trim keeps without protection was used no earlier than anything it drops. */
  lemma {:induction false} TrimKeepsLatest(m: Entries, protected: nat, n: nat, m': Entries)
    requires IsTrim(m, protected, n, m')
    ensures forall r, k :: r in m && r !in m' && k in m' && (protected == 0 || m'[k].live != protected) ==>
      m[r].lastSeen <= m'[k].lastSeen
  {
    forall r, k | r in m && r !in m' && k in m' && (protected == 0 || m'[k].live != protected)
      ensures m[r].lastSeen <= m'[k].lastSeen
    {
      assert k in Candidates(m, protected);
      OlderMeans(m[r], m[k]);
    }
  }

  /** What the loader keeps was used no earlier than anything it drops. */
  lemma {:induction false} NewestAreLatest(records: seq<Entry>, m: Entries)
    requires KeepsNewest(records, m)
    ensures forall e, k :: e in records && e.key !in m && k in m ==> e.lastSeen <= m[k].lastSeen
  {
    forall e, k | e in records && e.key !in m && k in m ensures e.lastSeen <= m[k].lastSeen {
      OlderMeans(e, m[k]);
    }
  }

  /** Applying the bound twice is applying it once. */
  lemma {:induction false} TrimTwice(m: Entries, protected: nat, m': Entries, m'': Entries)
    requires IsTrim(m, protected, Excess(|m|), m') && IsTrim(m', protected, Excess(|m'|), m'')
    ensures m'' == m'
  {
    TrimKeepsTheRightRecords(m, protected, m');
    if |m| - |Candidates(m, protected)| > LIMIT {
      var gone := m.Keys - m'.Keys;
      assert |gone| == |Candidates(m, protected)|;
      SubsetSize(gone, Candidates(m, protected));
      assert Candidates(m', protected) <= Candidates(m, protected) - gone;
    }
    TrimChanges(m', protected, m'');
  }

  /** Every table has a trim. */
  lemma TrimIsNone(m: Entries, protected: nat)
    ensures IsTrim(m, protected, 0, m)
  {
    assert m.Keys - m.Keys == {};
    hide Older;
  }

  lemma TrimIsKeyed(m: Entries, protected: nat, n: nat, m': Entries)
    requires Keyed(m) && IsTrim(m, protected, n, m')
    ensures Keyed(m')
  {
    hide Older, Candidates, Min;
  }

  lemma TrimSaturates(m: Entries, protected: nat, n: nat, m': Entries)
    requires IsTrim(m, protected, n, m') && n >= |Candidates(m, protected)|
    ensures IsTrim(m, protected, n + 1, m')
  {
    hide Older, Candidates;
  }

  lemma OldestFolds(m: Entries, protected: nat, k: string)
    requires k in Candidates(m, protected) && forall j :: j in Candidates(m, protected) && j != k ==> j in m && k in m && Older(m[k], m[j])
    ensures IsOldest(m, protected, k)
  {
    hide Older;
  }

  lemma {:induction false} TrimExists(m: Entries, protected: nat, n: nat) returns (m': Entries)
    requires Keyed(m)
    ensures IsTrim(m, protected, n, m')
  {
    hide *;
    if n == 0 {
      m' := m;
      TrimIsNone(m, protected);
    } else {
      m' := TrimExists(m, protected, n - 1);
      if n - 1 < |Candidates(m, protected)| {
        CandidatesLeft(m, protected, n - 1, m');
        CandidatesAreIn(m', protected);
        TrimIsKeyed(m, protected, n - 1, m');
        var k := OldestOf(m', Candidates(m', protected));
        OldestFolds(m', protected, k);
        TrimOneMore(m, protected, n - 1, m', k);
        m' := m' - {k};
      } else {
        TrimSaturates(m, protected, n - 1, m');
      }
    }
  }
}
