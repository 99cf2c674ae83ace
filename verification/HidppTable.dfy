/** The cached battery readings of Logitech devices (src/logitech_hidpp.c). A worker queries one
    device at a time without holding the lock, so the table may be replaced before the answer. */
module HidppTable {
  import opened Basics

  const MAX_DEVICES: nat := 16
  const PATH_SIZE: nat := 512
  const REFRESH: nat := 10_000
  const RETRY: nat := 30_000

  datatype Feature = Feature(id: nat, index: nat)

  /** Readings are opaque here; 0 is the reset one. Times are milliseconds. */
  datatype Slot = Slot(path: string, feature: Feature, reading: nat, nextQuery: nat, valid: bool)

  const UNKNOWN: Feature := Feature(0, 0)
  const EMPTY: Slot := Slot("", UNKNOWN, 0, 0, false)

  /** What fits the path buffer of a slot. */
  function Stored(path: string): (r: string)
    ensures |r| < PATH_SIZE && (|path| < PATH_SIZE ==> r == path) && (path != "" ==> r != "")
  {
    if |path| < PATH_SIZE then path else path[..PATH_SIZE - 1]
  }

  function FreshSlot(path: string): Slot {
    Slot(Stored(path), UNKNOWN, 0, 0, false)
  }

  function FindSlot(slots: seq<Slot>, path: string): (r: Option<nat>)
    ensures r.Some? ==> r.value < |slots| && slots[r.value].path == path && forall i :: 0 <= i < r.value ==> slots[i].path != path
    ensures r.None? ==> forall i :: 0 <= i < |slots| ==> slots[i].path != path
  {
    if slots == [] then None else
    var n := |slots| - 1;
    var earlier := FindSlot(slots[..n], path);
    if earlier.None? && slots[n].path == path then Some(n) else earlier
  }

  // ----- Replacing the set of devices -----

  function Survivor(table: seq<Slot>, path: string): Slot {
    var i := FindSlot(table, path);
    if i.Some? then table[i.value] else FreshSlot(path)
  }

  /** The new table; None when it does not fit. */
  function Updated(table: seq<Slot>, paths: seq<string>): (r: Option<seq<Slot>>)
    ensures r.Some? ==> |r.value| <= MAX_DEVICES && |r.value| <= |paths|
  {
    if paths == [] then Some([]) else
    var n := |paths| - 1;
    match Updated(table, paths[..n])
    case None => None
    case Some(u) =>
      var path := paths[n];
      if path == "" || FindSlot(u, path).Some? then Some(u)
      else if |u| >= MAX_DEVICES then None
      else Some(u + [Survivor(table, path)])
  }

  ghost predicate DistinctPaths(slots: seq<Slot>) {
    forall i, j :: 0 <= i < j < |slots| ==> slots[i].path != slots[j].path
  }

  ghost predicate Short(paths: seq<string>) {
    forall i :: 0 <= i < |paths| ==> |paths[i]| < PATH_SIZE
  }

  /** Some path of the list is kept in this form. */
  ghost predicate Lists(paths: seq<string>, stored: string) {
    exists i :: 0 <= i < |paths| && paths[i] != "" && Stored(paths[i]) == stored
  }

  lemma {:induction false} ListsOneMore(paths: seq<string>, stored: string)
    requires paths != []
    ensures Lists(paths, stored) <==>
      Lists(paths[..|paths| - 1], stored) || (paths[|paths| - 1] != "" && Stored(paths[|paths| - 1]) == stored)
  {
    var n := |paths| - 1;
    if Lists(paths, stored) {
      var i :| 0 <= i < |paths| && paths[i] != "" && Stored(paths[i]) == stored;
      if i < n {
        assert paths[..n][i] == paths[i];
      }
    }
    if Lists(paths[..n], stored) {
      var i :| 0 <= i < n && paths[..n][i] != "" && Stored(paths[..n][i]) == stored;
      assert paths[i] == paths[..n][i];
    }
  }

  lemma {:induction false} FindOneMore(slots: seq<Slot>, slot: Slot, path: string)
    ensures FindSlot(slots + [slot], path) ==
      if FindSlot(slots, path).Some? then FindSlot(slots, path) else if slot.path == path then Some(|slots|) else None
  {
    assert (slots + [slot])[..|slots|] == slots;
  }

  lemma {:induction false} SurvivorPath(table: seq<Slot>, path: string)
    requires forall i :: 0 <= i < |table| ==> |table[i].path| < PATH_SIZE
    ensures Survivor(table, path).path == Stored(path)
    ensures |path| >= PATH_SIZE ==> Survivor(table, path) == FreshSlot(path)
  {
  }

  lemma {:induction false} UpdatedFitBuffers(table: seq<Slot>, paths: seq<string>)
    requires Updated(table, paths).Some? && forall i :: 0 <= i < |table| ==> |table[i].path| < PATH_SIZE
    ensures forall i :: 0 <= i < |Updated(table, paths).value| ==> 0 < |Updated(table, paths).value[i].path| < PATH_SIZE
  {
    if paths != [] {
      UpdatedFitBuffers(table, paths[..|paths| - 1]);
      SurvivorPath(table, paths[|paths| - 1]);
    }
  }

  /** The new table holds the stored forms of the listed paths, and no others. */
  lemma {:induction false} UpdatedPaths(table: seq<Slot>, paths: seq<string>, stored: string)
    requires Updated(table, paths).Some? && forall i :: 0 <= i < |table| ==> |table[i].path| < PATH_SIZE
    ensures FindSlot(Updated(table, paths).value, stored).Some? <==> Lists(paths, stored)
  {
    if paths != [] {
      var n := |paths| - 1;
      UpdatedPaths(table, paths[..n], stored);
      ListsOneMore(paths, stored);
      SurvivorPath(table, paths[n]);
      UpdatedFitBuffers(table, paths[..n]);
      var u := Updated(table, paths[..n]).value;
      FindOneMore(u, Survivor(table, paths[n]), stored);
      hide Survivor, FindSlot, Stored, Lists;
    }
  }

  /** Path j is too long for its buffer and is stored in the form of the earlier path i. */
  ghost predicate CutTo(paths: seq<string>, i: int, j: int) {
    0 <= i < j < |paths| && paths[i] != "" && |paths[j]| >= PATH_SIZE && Stored(paths[i]) == Stored(paths[j])
  }

  ghost predicate Collides(paths: seq<string>) {
    exists i, j :: CutTo(paths, i, j)
  }

  lemma {:induction false} CollidesOneMore(paths: seq<string>)
    requires paths != []
    ensures var n := |paths| - 1;
      Collides(paths) <==> Collides(paths[..n]) || (|paths[n]| >= PATH_SIZE && Lists(paths[..n], Stored(paths[n])))
  {
    var n := |paths| - 1;
    var front := paths[..n];
    if i, j :| CutTo(paths, i, j) {
      assert front[i] == paths[i];
      if j < n {
        assert CutTo(front, i, j);
      }
    }
    if i, j :| CutTo(front, i, j) {
      assert CutTo(paths, i, j);
    }
    if |paths[n]| >= PATH_SIZE && Lists(front, Stored(paths[n])) {
      var i :| 0 <= i < n && front[i] != "" && Stored(front[i]) == Stored(paths[n]);
      assert CutTo(paths, i, n);
    }
  }

  /** Slots have different paths exactly when no listed path was cut to the form of an earlier one;
      so they always have when every path fits its buffer. */
  lemma {:induction false} DistinctUnlessCut(table: seq<Slot>, paths: seq<string>)
    requires Updated(table, paths).Some? && forall i :: 0 <= i < |table| ==> |table[i].path| < PATH_SIZE
    ensures DistinctPaths(Updated(table, paths).value) <==> !Collides(paths)
  {
    if paths != [] {
      var n := |paths| - 1;
      var u, path := Updated(table, paths[..n]).value, paths[n];
      DistinctUnlessCut(table, paths[..n]);
      CollidesOneMore(paths);
      UpdatedPaths(table, paths[..n], Stored(path));
      SurvivorPath(table, path);
      UpdatedFitBuffers(table, paths[..n]);
      DistinctOneMore(u, Survivor(table, path));
      assert FindSlot(u, path).Some? ==> |path| < PATH_SIZE;
      hide Survivor, Collides, Lists, FindSlot, DistinctPaths, Stored;
    }
  }

  /** A witness: a path too long for its buffer that is listed twice is stored twice. */
  lemma {:induction false} LongPathIsStoredTwice(path: string)
    requires |path| >= PATH_SIZE
    ensures Updated([], [path, path]).Some? && !DistinctPaths(Updated([], [path, path]).value)
  {
    var one, two := [path], [path, path];
    assert one[..0] == [] && two[..1] == one;
    assert FindSlot([], path).None?;
    FindOneMore([], FreshSlot(path), path);
    assert [] + [FreshSlot(path)] == [FreshSlot(path)];
    assert Updated([], []) == Some([]);
    assert Updated([], one) == Some([FreshSlot(path)]);
    var u := Updated([], two).value;
    assert u == [FreshSlot(path)] + [FreshSlot(path)];
    assert u[0].path == u[1].path;
  }

  lemma {:induction false} DistinctOneMore(slots: seq<Slot>, slot: Slot)
    ensures DistinctPaths(slots + [slot]) <==> DistinctPaths(slots) && FindSlot(slots, slot.path).None?
  {
    var longer := slots + [slot];
    if DistinctPaths(longer) {
      forall i, j | 0 <= i < j < |slots| ensures slots[i].path != slots[j].path {
        assert longer[i].path != longer[j].path;
      }
      forall i | 0 <= i < |slots| ensures slots[i].path != slot.path {
        assert longer[i].path != longer[|slots|].path;
      }
    }
  }

  /** A listed path's slot is the one it had, reading and all, or a fresh one. */
  lemma {:induction false} SurvivorsAreKept(table: seq<Slot>, paths: seq<string>, i: nat)
    requires Updated(table, paths).Some? && i < |Updated(table, paths).value|
    ensures var slot := Updated(table, paths).value[i];
      exists k :: 0 <= k < |paths| && paths[k] != "" && slot == Survivor(table, paths[k])
  {
    var n := |paths| - 1;
    var u := Updated(table, paths[..n]).value;
    if i < |u| {
      SurvivorsAreKept(table, paths[..n], i);
      var k :| 0 <= k < n && paths[..n][k] != "" && u[i] == Survivor(table, paths[..n][k]);
      assert paths[k] != "" && u[i] == Survivor(table, paths[k]);
    } else {
      assert paths[n] != "" && Updated(table, paths).value[i] == Survivor(table, paths[n]);
    }
  }

  /** The different paths of a list. */
  ghost function PathSet(paths: seq<string>): set<string> {
    set i | 0 <= i < |paths| && paths[i] != "" :: paths[i]
  }

  /** When every path fits its buffer the table is refused exactly for more than 16 of them. */
  lemma {:induction false} RefusedWhenTooMany(table: seq<Slot>, paths: seq<string>)
    requires Short(paths) && forall i :: 0 <= i < |table| ==> |table[i].path| < PATH_SIZE
    ensures Updated(table, paths).Some? <==> |PathSet(paths)| <= MAX_DEVICES
    ensures Updated(table, paths).Some? ==> |Updated(table, paths).value| == |PathSet(paths)|
  {
    if paths == [] {
      assert PathSet(paths) == {};
    } else {
      var n := |paths| - 1;
      var front, path := paths[..n], paths[n];
      RefusedWhenTooMany(table, front);
      PathSetOneMore(paths);
      if Updated(table, front).Some? && path != "" {
        UpdatedPaths(table, front, path);
        InPathSet(front, path);
      } else if Updated(table, front).None? {
        SubsetSize(PathSet(front), PathSet(paths));
      }
      hide PathSet, FindSlot, Survivor, Lists;
    }
  }

  lemma {:induction false} PathSetOneMore(paths: seq<string>)
    requires paths != []
    ensures PathSet(paths) == PathSet(paths[..|paths| - 1]) + if paths[|paths| - 1] == "" then {} else {paths[|paths| - 1]}
  {
    var n := |paths| - 1;
    forall p ensures p in PathSet(paths) <==> p in PathSet(paths[..n]) || (p == paths[n] && p != "") {
      if p in PathSet(paths[..n]) {
        var i :| 0 <= i < n && paths[..n][i] != "" && paths[..n][i] == p;
        assert paths[i] == p;
      }
      if p in PathSet(paths) {
        var i :| 0 <= i < |paths| && paths[i] != "" && paths[i] == p;
        if i < n {
          assert paths[..n][i] == p;
        }
      }
    }
  }

  lemma {:induction false} InPathSet(paths: seq<string>, path: string)
    requires Short(paths) && path != ""
    ensures path in PathSet(paths) <==> Lists(paths, path)
  {
    if path in PathSet(paths) {
      var i :| 0 <= i < |paths| && paths[i] != "" && paths[i] == path;
      assert Stored(paths[i]) == path;
    }
    if Lists(paths, path) {
      var i :| 0 <= i < |paths| && paths[i] != "" && Stored(paths[i]) == path;
      assert paths[i] == path;
    }
  }
}
