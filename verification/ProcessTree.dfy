/** The parent relation of a process snapshot (src/details_page.c): any graph in which a process
    has at most one parent, cycles included, and what follows from walking it. */
module ProcessTree {
  import opened Basics

  datatype Row = Row(pid: nat, ppid: nat)

  /** Pid to row; a later row with the same pid replaces an earlier one, pid 0 and pids beyond
      32 bits are never entered. */
  function PidIndex(rows: seq<Row>): (r: map<nat, nat>)
    ensures forall pid :: pid in r ==> r[pid] < |rows| && rows[r[pid]].pid == pid && 0 < pid <= U32_MAX
  {
    if rows == [] then map[]
    else
      var n := |rows| - 1;
      var earlier := PidIndex(rows[..n]);
      if 0 < rows[n].pid <= U32_MAX && n < U32_MAX then earlier[rows[n].pid := n] else earlier
  }

  /** Row i can be found by its pid: the pid is usable and the row number fits the table. */
  predicate Findable(rows: seq<Row>, i: int) {
    0 <= i < |rows| && i < U32_MAX && 0 < rows[i].pid <= U32_MAX
  }

  /** Row i is the last one with this pid that can be found. */
  ghost predicate IsLastWith(rows: seq<Row>, pid: nat, i: int) {
    && Findable(rows, i) && rows[i].pid == pid
    && forall j :: Findable(rows, j) && rows[j].pid == pid ==> j <= i
  }

  /** Every usable pid is in the table, with its last row. */
  lemma {:induction false} PidIndexIsComplete(rows: seq<Row>, pid: nat)
    ensures pid in PidIndex(rows) <==> exists i :: Findable(rows, i) && rows[i].pid == pid
    ensures pid in PidIndex(rows) ==> IsLastWith(rows, pid, PidIndex(rows)[pid])
  {
    if rows != [] {
      var n := |rows| - 1;
      var front := rows[..n];
      PidIndexIsComplete(front, pid);
      FindableFront(rows);
      if i :| Findable(front, i) && front[i].pid == pid {
        assert Findable(rows, i) && rows[i].pid == pid;
      }
      if i :| Findable(rows, i) && rows[i].pid == pid {
        assert i < n ==> Findable(front, i) && front[i].pid == pid;
      }
    }
  }

  lemma FindableFront(rows: seq<Row>)
    requires rows != []
    ensures forall i :: Findable(rows[..|rows| - 1], i) <==> Findable(rows, i) && i < |rows| - 1
  {
  }

  /** The parent of a row is the last row with its parent's pid, and there is one exactly when some
      row has that pid. */
  lemma {:induction false} ParentIsLastRow(rows: seq<Row>, i: nat, j: nat)
    requires i < |rows|
    ensures Parent(rows, i) == Some(j) <==> IsLastWith(rows, rows[i].ppid, j)
    ensures Parent(rows, i).Some? <==> exists k :: Findable(rows, k) && rows[k].pid == rows[i].ppid
  {
    PidIndexIsComplete(rows, rows[i].ppid);
    hide PidIndex;
  }

  /** The row of a process' parent, if it is in the snapshot. */
  function Parent(rows: seq<Row>, i: nat): (r: Option<nat>)
    requires i < |rows|
    ensures r.Some? ==> r.value < |rows|
  {
    var index := PidIndex(rows);
    if rows[i].ppid in index then Some(index[rows[i].ppid]) else None
  }

  ghost function Ancestor(rows: seq<Row>, i: nat, k: nat): (r: Option<nat>)
    requires i < |rows|
    ensures r.Some? ==> r.value < |rows|
  {
    if k == 0 then Some(i)
    else match Ancestor(rows, i, k - 1)
      case None => None
      case Some(j) => Parent(rows, j)
  }

  lemma {:induction false} AncestorOfAncestor(rows: seq<Row>, i: nat, a: nat, b: nat)
    requires i < |rows| && Ancestor(rows, i, a).Some?
    ensures Ancestor(rows, Ancestor(rows, i, a).value, b) == Ancestor(rows, i, a + b)
  {
    if b > 0 {
      AncestorOfAncestor(rows, i, a, b - 1);
    }
  }

  lemma {:induction false} EarlierAncestors(rows: seq<Row>, i: nat, a: nat, b: nat)
    requires i < |rows| && a <= b && Ancestor(rows, i, b).Some?
    ensures Ancestor(rows, i, a).Some?
  {
    if a < b {
      EarlierAncestors(rows, i, a, b - 1);
    }
  }

  /** After as many steps as there are rows the walk has met a row for the second time. */
  lemma {:induction false} WalkRepeats(rows: seq<Row>, i: nat) returns (a: nat, b: nat)
    requires i < |rows| && Ancestor(rows, i, |rows|).Some?
    ensures a < b <= |rows| && Ancestor(rows, i, a) == Ancestor(rows, i, b)
  {
    var n := |rows|;
    forall k | 0 <= k <= n ensures Ancestor(rows, i, k).Some? {
      EarlierAncestors(rows, i, k, n);
    }
    var walk := seq(n + 1, k requires 0 <= k <= n => Ancestor(rows, i, k).value);
    if forall x, y :: 0 <= x < y < |walk| ==> walk[x] != walk[y] {
      DistinctIndices(walk, n);
      assert false;
    }
    a, b :| 0 <= a < b < |walk| && walk[a] == walk[b];
  }

  lemma {:induction false} RepeatsForever(rows: seq<Row>, i: nat, a: nat, b: nat, k: nat)
    requires i < |rows| && a < b && Ancestor(rows, i, a) == Ancestor(rows, i, b) && Ancestor(rows, i, b).Some?
    requires k >= b
    ensures Ancestor(rows, i, k) == Ancestor(rows, i, k - (b - a))
  {
    if k > b {
      RepeatsForever(rows, i, a, b, k - 1);
    }
  }

  /** Whatever the walk from row i ever meets it meets within as many steps as there are rows. */
  lemma {:induction false} WalkIsShort(rows: seq<Row>, i: nat, k: nat) returns (short: nat)
    requires i < |rows| && Ancestor(rows, i, k).Some?
    ensures short <= k && short <= |rows| && Ancestor(rows, i, short) == Ancestor(rows, i, k)
  {
    if k <= |rows| {
      short := k;
    } else {
      EarlierAncestors(rows, i, |rows|, k);
      var a, b := WalkRepeats(rows, i);
      EarlierAncestors(rows, i, b, k);
      RepeatsForever(rows, i, a, b, k);
      short := WalkIsShort(rows, i, k - (b - a));
    }
  }

  /** Row j is row i or one of its ancestors. */
  ghost predicate Above(rows: seq<Row>, i: nat, j: nat)
    requires i < |rows|
  {
    exists k: nat :: Ancestor(rows, i, k) == Some(j)
  }

  /** The walk from row i comes back to it after leaving it. */
  ghost predicate OnCycle(rows: seq<Row>, i: nat)
    requires i < |rows|
  {
    exists k: nat :: k > 0 && Ancestor(rows, i, k) == Some(i)
  }

  // ----- Visibility -----

  /** Row j is directly visible or an ancestor of such a row. */
  ghost predicate Shown(rows: seq<Row>, direct: seq<bool>, j: nat)
    requires |direct| == |rows|
  {
    exists i :: 0 <= i < |rows| && direct[i] && Above(rows, i, j)
  }

  ghost predicate ClosedUnderParent(rows: seq<Row>, s: set<nat>) {
    forall i, j :: i in s && i < |rows| && Parent(rows, i) == Some(j) ==> j in s
  }

  lemma {:induction false} ClosedHasAncestors(rows: seq<Row>, s: set<nat>, i: nat, k: nat)
    requires ClosedUnderParent(rows, s) && i in s && i < |rows|
    ensures Ancestor(rows, i, k).Some? ==> Ancestor(rows, i, k).value in s
  {
    if k > 0 {
      ClosedHasAncestors(rows, s, i, k - 1);
    }
  }

  /** What the walk may mark: every directly visible row and, with a shown row, its parent. */
  lemma {:induction false} ShownIsClosed(rows: seq<Row>, direct: seq<bool>, i: nat)
    requires |direct| == |rows| && i < |rows|
    ensures direct[i] ==> Shown(rows, direct, i)
    ensures Shown(rows, direct, i) && Parent(rows, i).Some? ==> Shown(rows, direct, Parent(rows, i).value)
  {
    if direct[i] {
      assert Ancestor(rows, i, 0) == Some(i);
      assert Above(rows, i, i);
    }
    if Shown(rows, direct, i) && Parent(rows, i).Some? {
      var from :| 0 <= from < |rows| && direct[from] && Above(rows, from, i);
      var k: nat :| Ancestor(rows, from, k) == Some(i);
      assert Ancestor(rows, from, k + 1) == Parent(rows, i);
      assert Above(rows, from, Parent(rows, i).value);
    }
  }

  /** The shown rows are the least set that holds the directly visible ones and is closed under
      looking up the parent: together with `ShownIsClosed`, which says that they are such a set. */
  lemma {:induction false} ShownIsLeast(rows: seq<Row>, direct: seq<bool>, s: set<nat>, j: nat)
    requires |direct| == |rows|
    requires forall i :: 0 <= i < |rows| && direct[i] ==> i in s
    requires ClosedUnderParent(rows, s)
    requires Shown(rows, direct, j)
    ensures j in s
  {
    var from :| 0 <= from < |rows| && direct[from] && Above(rows, from, j);
    var k: nat :| Ancestor(rows, from, k) == Some(j);
    ClosedHasAncestors(rows, s, from, k);
  }

  /** Fills the pid table row by row. */
  method BuildIndex(rows: seq<Row>) returns (index: map<nat, nat>)
    ensures index == PidIndex(rows)
    ensures forall pid :: pid in index <==> exists i :: Findable(rows, i) && rows[i].pid == pid
    ensures forall pid :: pid in index ==> IsLastWith(rows, pid, index[pid])
  {
    index := map[];
    for i := 0 to |rows|
      invariant index == PidIndex(rows[..i])
    {
      assert rows[..i + 1][..i] == rows[..i];
      var pid := rows[i].pid;
      if pid > 0 && pid <= U32_MAX && i < U32_MAX {
        index := index[pid := i];
      }
    }
    assert rows[..|rows|] == rows;
    hide PidIndex, Findable, IsLastWith;
    forall pid
      ensures pid in index <==> exists i :: Findable(rows, i) && rows[i].pid == pid
      ensures pid in index ==> IsLastWith(rows, pid, index[pid])
    {
      PidIndexIsComplete(rows, pid);
    }
  }

  /** The walk from row i has met row j within `steps` steps. */
  ghost predicate Met(rows: seq<Row>, i: nat, steps: nat, j: nat)
    requires i < |rows|
  {
    exists k: nat :: 0 < k <= steps && Ancestor(rows, i, k) == Some(j)
  }

  lemma {:induction false} MetOnceMore(rows: seq<Row>, i: nat, steps: nat, j: nat)
    requires i < |rows|
    ensures Met(rows, i, steps + 1, j) <==> Met(rows, i, steps, j) || Ancestor(rows, i, steps + 1) == Some(j)
  {
    if Met(rows, i, steps, j) {
      var k: nat :| 0 < k <= steps && Ancestor(rows, i, k) == Some(j);
      assert 0 < k <= steps + 1;
    }
  }

  /** The walk is complete once it has left the snapshot, stays in place, or took `|rows|` steps. */
  lemma {:induction false} MetIsAbove(rows: seq<Row>, i: nat, steps: nat, j: nat)
    requires i < |rows| && j != i
    requires
      || Ancestor(rows, i, steps + 1).None?
      || (steps > 0 && Ancestor(rows, i, steps + 1) == Ancestor(rows, i, steps))
      || steps == |rows|
    ensures Met(rows, i, steps, j) <==> Above(rows, i, j)
  {
    if Above(rows, i, j) {
      var k: nat :| Ancestor(rows, i, k) == Some(j);
      if k > steps {
        if Ancestor(rows, i, steps + 1).None? {
          EarlierAncestors(rows, i, steps + 1, k);
        } else if steps > 0 && Ancestor(rows, i, steps + 1) == Ancestor(rows, i, steps) {
          StaysPut(rows, i, steps, k);
          assert 0 < steps <= steps && Ancestor(rows, i, steps) == Some(j);
        } else {
          var short := WalkIsShort(rows, i, k);
          assert 0 < short <= steps;
        }
      }
    }
  }

  lemma {:induction false} StaysPut(rows: seq<Row>, i: nat, a: nat, k: nat)
    requires i < |rows| && a <= k && Ancestor(rows, i, a + 1) == Ancestor(rows, i, a)
    ensures Ancestor(rows, i, k) == Ancestor(rows, i, a)
  {
    if a < k {
      StaysPut(rows, i, a, k - 1);
    }
  }

  /** Marks the ancestors of every directly visible row, each by a walk over pids that takes at
      most as many steps as there are rows. */
  method MarkVisible(rows: seq<Row>, index: map<nat, nat>, direct: seq<bool>, visible: array<bool>)
    requires index == PidIndex(rows) && |direct| == |rows| == visible.Length
    requires visible[..] == direct
    modifies visible
    ensures forall j :: 0 <= j < |rows| ==> (visible[j] <==> Shown(rows, direct, j))
  {
    for i := 0 to |rows|
      invariant forall j :: 0 <= j < |rows| ==>
        (visible[j] <==> direct[j] || exists x :: 0 <= x < i && direct[x] && Above(rows, x, j))
    {
      if direct[i] {
        ghost var before := visible[..];
        MarkAncestors(rows, index, i, visible);
        forall j | 0 <= j < |rows|
          ensures visible[j] <==> direct[j] || exists x :: 0 <= x < i + 1 && direct[x] && Above(rows, x, j)
        {
          assert visible[j] <==> before[j] || Above(rows, i, j);
        }
      }
    }
    forall j | 0 <= j < |rows| ensures visible[j] <==> Shown(rows, direct, j) {
      assert Ancestor(rows, j, 0) == Some(j);
      assert Above(rows, j, j);
    }
  }

  method MarkAncestors(rows: seq<Row>, index: map<nat, nat>, i: nat, visible: array<bool>)
    requires index == PidIndex(rows) && |rows| == visible.Length && i < |rows| && visible[i]
    modifies visible
    ensures forall j :: 0 <= j < |rows| ==> (visible[j] <==> old(visible[j]) || Above(rows, i, j))
  {
    var parent := rows[i].ppid;
    var guard := 0;
    ghost var here := i;
    while parent > 0 && guard < |rows|
      invariant guard <= |rows| && Ancestor(rows, i, guard) == Some(here) && parent == rows[here].ppid
      invariant forall j :: 0 <= j < |rows| ==> (visible[j] <==> old(visible[j]) || Met(rows, i, guard, j))
      decreases |rows| - guard
    {
      if parent > U32_MAX || parent !in index {
        break;
      }
      var parentIndex := index[parent];
      visible[parentIndex] := true;
      forall j | 0 <= j < |rows| ensures visible[j] <==> old(visible[j]) || Met(rows, i, guard + 1, j) {
        MetOnceMore(rows, i, guard, j);
      }
      guard := guard + 1;
      here := parentIndex;
      var nextParent := rows[parentIndex].ppid;
      if nextParent == parent {
        break;
      }
      parent := nextParent;
    }
    forall j | 0 <= j < |rows| ensures visible[j] <==> old(visible[j]) || Above(rows, i, j) {
      assert Ancestor(rows, i, 0) == Some(i);
      if j != i {
        MetIsAbove(rows, i, guard, j);
      }
    }
  }
}
