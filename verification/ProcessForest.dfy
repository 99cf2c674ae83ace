/** Building the Details tree (src/details_page.c): every visible process is appended once, under
    its parent where that is possible, although the parent relation may contain cycles. */
module ProcessForest {
  import opened Basics
  import opened ProcessTree

  /** One row of the tree store, in the order in which they are appended. */
  datatype Node = Node(row: nat, parent: Option<nat>)

  // ----- What the finished tree is -----

  ghost predicate Placed(store: seq<Node>, row: nat) {
    exists a :: 0 <= a < |store| && store[a].row == row
  }

  ghost predicate PlacedUnderParent(store: seq<Node>, row: nat) {
    exists a :: 0 <= a < |store| && store[a].row == row && store[a].parent.Some?
  }

  /** The process has a parent in the snapshot, other than itself, that is shown. */
  ghost predicate HasParent(rows: seq<Row>, visible: seq<bool>, i: nat)
    requires i < |rows| == |visible|
  {
    var p := Parent(rows, i);
    p.Some? && p.value != i && visible[p.value]
  }

  /** In the tree a row is a child of its process' parent, which is already there, and it is a
      root only without such a parent or on a cycle; in the flat list every row is a root. */
  ghost predicate NodeFits(rows: seq<Row>, visible: seq<bool>, treeMode: bool, store: seq<Node>, node: Node)
    requires |rows| == |visible|
  {
    && node.row < |rows|
    && visible[node.row]
    && match node.parent
       case None => treeMode && HasParent(rows, visible, node.row) ==> OnCycle(rows, node.row)
       case Some(p) => treeMode && HasParent(rows, visible, node.row) && Parent(rows, node.row) == Some(p) && Placed(store, p)
  }

  ghost predicate Forest(rows: seq<Row>, visible: seq<bool>, treeMode: bool, store: seq<Node>)
    requires |rows| == |visible|
  {
    && (forall a :: 0 <= a < |store| ==> NodeFits(rows, visible, treeMode, store[..a], store[a]))
    && forall a, b :: 0 <= a < b < |store| ==> store[a].row != store[b].row
  }

  /** A cycle is broken in one place: where one of its rows is a root, every other row of it is
      placed under its parent or about to be (`waiting`). */
  ghost predicate BrokenOnce(rows: seq<Row>, visible: seq<bool>, store: seq<Node>, waiting: seq<nat>)
    requires |rows| == |visible|
  {
    forall a, j :: 0 <= a < |store| && store[a].parent.None? && store[a].row < |rows| &&
                   HasParent(rows, visible, store[a].row) && Above(rows, store[a].row, j) && j != store[a].row ==>
                   j in waiting || PlacedUnderParent(store, j)
  }

  /** Rows whose insertion waits for that of the next one, their parent. */
  ghost predicate Chain(rows: seq<Row>, waiting: seq<nat>) {
    && (forall k :: 0 <= k < |waiting| ==> waiting[k] < |rows|)
    && (forall k :: 0 <= k < |waiting| - 1 ==> Parent(rows, waiting[k]) == Some(waiting[k + 1]))
    && forall a, b :: 0 <= a < b < |waiting| ==> waiting[a] != waiting[b]
  }

  lemma {:induction false} ChainClimbs(rows: seq<Row>, waiting: seq<nat>, k: nat, m: nat)
    requires Chain(rows, waiting) && k <= m < |waiting|
    ensures Ancestor(rows, waiting[k], m - k) == Some(waiting[m])
  {
    if k < m {
      ChainClimbs(rows, waiting, k, m - 1);
      assert Ancestor(rows, waiting[k], m - k) == Parent(rows, waiting[m - 1]);
    }
  }

  /** Where the last row of a chain has a row of the chain as parent, it is on a cycle all of
      whose rows wait. */
  lemma {:induction false} ChainClosesCycle(rows: seq<Row>, waiting: seq<nat>, k: nat)
    requires Chain(rows, waiting) && k < |waiting|
    requires Parent(rows, waiting[|waiting| - 1]) == Some(waiting[k])
    ensures OnCycle(rows, waiting[|waiting| - 1])
    ensures forall j :: Above(rows, waiting[|waiting| - 1], j) ==> j in waiting
  {
    var last := |waiting| - 1;
    var i := waiting[last];
    ChainClimbs(rows, waiting, k, last);
    assert Ancestor(rows, i, 1) == Some(waiting[k]) by {
      assert Ancestor(rows, i, 0) == Some(i);
    }
    AncestorOfAncestor(rows, i, 1, last - k);
    assert Ancestor(rows, i, 1 + (last - k)) == Some(i);
    forall j | Above(rows, i, j) ensures j in waiting {
      var m: nat :| Ancestor(rows, i, m) == Some(j);
      StaysInChain(rows, waiting, k, m);
    }
  }

  lemma {:induction false} StaysInChain(rows: seq<Row>, waiting: seq<nat>, k: nat, m: nat)
    requires Chain(rows, waiting) && k < |waiting|
    requires Parent(rows, waiting[|waiting| - 1]) == Some(waiting[k])
    ensures Ancestor(rows, waiting[|waiting| - 1], m).Some?
    ensures Ancestor(rows, waiting[|waiting| - 1], m).value in waiting
  {
    var last := waiting[|waiting| - 1];
    if m == 0 {
      assert Ancestor(rows, last, m) == Some(last);
    } else {
      StaysInChain(rows, waiting, k, m - 1);
      var x :| 0 <= x < |waiting| && waiting[x] == Ancestor(rows, last, m - 1).value;
      assert Ancestor(rows, last, m) == Parent(rows, waiting[x]);
      assert Ancestor(rows, last, m) == Some(waiting[if x < |waiting| - 1 then x + 1 else k]);
    }
  }

  // ----- Consequences for the finished tree -----

  /** Every row hangs, through its ancestors, below a root of the tree. */
  lemma {:induction false} RootAbove(rows: seq<Row>, visible: seq<bool>, treeMode: bool, store: seq<Node>, a: nat)
    returns (b: nat)
    requires |rows| == |visible| && Forest(rows, visible, treeMode, store) && a < |store|
    ensures b <= a && store[b].parent.None? && store[a].row < |rows| && Above(rows, store[a].row, store[b].row)
  {
    var i := store[a].row;
    assert NodeFits(rows, visible, treeMode, store[..a], store[a]);
    assert Ancestor(rows, i, 0) == Some(i);
    match store[a].parent
    case None => b := a;
    case Some(p) =>
      var c :| 0 <= c < a && store[..a][c].row == p;
      b := RootAbove(rows, visible, treeMode, store, c);
      var k: nat :| Ancestor(rows, p, k) == Some(store[b].row);
      assert Ancestor(rows, i, 1) == Some(p);
      AncestorOfAncestor(rows, i, 1, k);
  }

  /** Off the cycles the tree is exactly the parent relation among the shown rows. */
  lemma {:induction false} TreeIsParentRelation(rows: seq<Row>, visible: seq<bool>, store: seq<Node>, a: nat)
    requires |rows| == |visible| && Forest(rows, visible, true, store) && a < |store|
    requires store[a].row < |rows| && !OnCycle(rows, store[a].row)
    ensures store[a].parent == if HasParent(rows, visible, store[a].row) then Parent(rows, store[a].row) else None
  {
    assert NodeFits(rows, visible, true, store[..a], store[a]);
  }

  /** From a row above one on a cycle the walk comes back to it. */
  lemma {:induction false} CycleComesBack(rows: seq<Row>, i: nat, k: nat, length: nat) returns (back: nat)
    requires i < |rows| && length > 0 && Ancestor(rows, i, length) == Some(i) && Ancestor(rows, i, k).Some?
    ensures Ancestor(rows, Ancestor(rows, i, k).value, back) == Some(i)
    decreases k
  {
    if k <= length {
      back := length - k;
      AncestorOfAncestor(rows, i, k, back);
    } else {
      AncestorOfAncestor(rows, i, length, k - length);
      back := CycleComesBack(rows, i, k - length, length);
    }
  }

  lemma {:induction false} AboveOnCycle(rows: seq<Row>, i: nat, j: nat, r: nat)
    requires i < |rows| && OnCycle(rows, i) && Above(rows, i, j) && Above(rows, i, r) && j < |rows|
    ensures Above(rows, j, r)
  {
    var length: nat :| length > 0 && Ancestor(rows, i, length) == Some(i);
    var k: nat :| Ancestor(rows, i, k) == Some(j);
    var m: nat :| Ancestor(rows, i, m) == Some(r);
    var back := CycleComesBack(rows, i, k, length);
    AncestorOfAncestor(rows, j, back, m);
  }

  lemma {:induction false} ClosedAbove(rows: seq<Row>, visible: seq<bool>, i: nat, k: nat)
    requires i < |rows| == |visible| && visible[i]
    requires forall x :: 0 <= x < |rows| && visible[x] && Parent(rows, x).Some? ==> visible[Parent(rows, x).value]
    ensures Ancestor(rows, i, k).Some? ==> visible[Ancestor(rows, i, k).value]
  {
    if k > 0 {
      ClosedAbove(rows, visible, i, k - 1);
    }
  }

  /** A row above a row on a cycle, and different from another such row, has a parent to be under. */
  lemma {:induction false} CycleRowHasParent(rows: seq<Row>, visible: seq<bool>, i: nat, j: nat, r: nat)
    requires i < |rows| == |visible| && visible[i] && OnCycle(rows, i) && j < |rows|
    requires forall x :: 0 <= x < |rows| && visible[x] && Parent(rows, x).Some? ==> visible[Parent(rows, x).value]
    requires Above(rows, i, j) && Above(rows, i, r) && j != r
    ensures HasParent(rows, visible, j)
  {
    AboveOnCycle(rows, i, j, r);
    var m: nat :| Ancestor(rows, j, m) == Some(r);
    assert Ancestor(rows, j, 0) == Some(j);
    EarlierAncestors(rows, j, 1, m);
    if Parent(rows, j) == Some(j) {
      StaysPut(rows, j, 0, m);
      assert false;
    }
    var k: nat :| Ancestor(rows, i, k) == Some(j);
    ClosedAbove(rows, visible, i, k);
  }

  lemma OthersAreChildren(rows: seq<Row>, visible: seq<bool>, store: seq<Node>, b: nat, r: nat)
    requires |rows| == |visible| && BrokenOnce(rows, visible, store, [])
    requires b < |store| && store[b].parent.None? && store[b].row < |rows|
    requires HasParent(rows, visible, store[b].row) && Above(rows, store[b].row, r) && r != store[b].row
    ensures PlacedUnderParent(store, r)
  {
  }

  /** Among the rows of a shown cycle exactly one becomes a root. */
  lemma {:induction false} OneRootPerCycle(rows: seq<Row>, visible: seq<bool>, store: seq<Node>, a: nat) returns (root: nat)
    requires |rows| == |visible| && Forest(rows, visible, true, store) && BrokenOnce(rows, visible, store, [])
    requires forall x :: 0 <= x < |rows| && visible[x] && Parent(rows, x).Some? ==> visible[Parent(rows, x).value]
    requires a < |store| && store[a].row < |rows| && OnCycle(rows, store[a].row)
    ensures root < |store| && store[root].parent.None? && Above(rows, store[a].row, store[root].row)
    ensures forall b :: 0 <= b < |store| && store[b].parent.None? && Above(rows, store[a].row, store[b].row) ==> b == root
  {
    var i := store[a].row;
    assert NodeFits(rows, visible, true, store[..a], store[a]);
    root := RootAbove(rows, visible, true, store, a);
    assert !PlacedUnderParent(store, store[root].row);
    forall b | 0 <= b < |store| && store[b].parent.None? && Above(rows, i, store[b].row) ensures b == root {
      var j, r := store[b].row, store[root].row;
      assert NodeFits(rows, visible, true, store[..b], store[b]);
      if j != r {
        CycleRowHasParent(rows, visible, i, j, r);
        AboveOnCycle(rows, i, j, r);
        OthersAreChildren(rows, visible, store, b, r);
        assert false;
      }
    }
  }

  // ----- Appending one node -----

  lemma {:induction false} AppendKeepsForest(rows: seq<Row>, visible: seq<bool>, treeMode: bool, store: seq<Node>, node: Node)
    requires |rows| == |visible| && Forest(rows, visible, treeMode, store)
    requires NodeFits(rows, visible, treeMode, store, node) && !Placed(store, node.row)
    ensures Forest(rows, visible, treeMode, store + [node])
  {
    var longer := store + [node];
    forall a | 0 <= a < |longer| ensures NodeFits(rows, visible, treeMode, longer[..a], longer[a]) {
      if a < |store| {
        assert longer[..a] == store[..a];
        assert NodeFits(rows, visible, treeMode, store[..a], store[a]);
      } else {
        assert longer[..a] == store;
      }
    }
  }

  lemma {:induction false} PlacedStays(store: seq<Node>, node: Node, row: nat)
    ensures Placed(store + [node], row) <==> Placed(store, row) || row == node.row
    ensures PlacedUnderParent(store + [node], row) <==> PlacedUnderParent(store, row) || (row == node.row && node.parent.Some?)
  {
    var longer := store + [node];
    if Placed(store, row) {
      var a :| 0 <= a < |store| && store[a].row == row;
      assert longer[a].row == row;
    }
    if PlacedUnderParent(store, row) {
      var a :| 0 <= a < |store| && store[a].row == row && store[a].parent.Some?;
      assert longer[a].row == row;
    }
    assert longer[|store|] == node;
  }

  /** Placing the last waiting row under its parent, or as a root that no placed root's cycle
      contains, keeps every cycle broken once. */
  lemma {:induction false} AppendKeepsBrokenOnce(
    rows: seq<Row>, visible: seq<bool>, store: seq<Node>, waiting: seq<nat>, node: Node)
    requires |rows| == |visible| && node.row < |rows|
    requires BrokenOnce(rows, visible, store, waiting + [node.row])
    requires node.parent.None? ==> BrokenOnce(rows, visible, store, waiting)
    requires node.parent.None? && HasParent(rows, visible, node.row) ==>
               forall j :: Above(rows, node.row, j) && j != node.row ==> j in waiting
    ensures BrokenOnce(rows, visible, store + [node], waiting)
  {
    var longer := store + [node];
    forall a, j | 0 <= a < |longer| && longer[a].parent.None? && longer[a].row < |rows| &&
                  HasParent(rows, visible, longer[a].row) && Above(rows, longer[a].row, j) && j != longer[a].row
      ensures j in waiting || PlacedUnderParent(longer, j)
    {
      PlacedStays(store, node, j);
      if a < |store| {
        assert store[a] == longer[a];
        assert j in waiting + [node.row] || PlacedUnderParent(store, j);
      }
    }
  }

  // ----- The builder -----

  const WAITING: nat := 1
  const DONE: nat := 2

  class Builder {
    const rows: seq<Row>
    const index: map<nat, nat>
    const visible: seq<bool>
    const treeMode: bool
    const inserted: array<bool>
    const state: array<nat>
    var store: seq<Node>

    ghost predicate Valid(waiting: seq<nat>)
      reads this, inserted, state
    {
      && inserted != (state as object)
      && |visible| == |rows| == inserted.Length == state.Length
      && index == PidIndex(rows)
      && Forest(rows, visible, treeMode, store)
      && (treeMode ==> BrokenOnce(rows, visible, store, waiting))
      && Chain(rows, waiting)
      && (forall i :: 0 <= i < |rows| ==> (inserted[i] <==> Placed(store, i)))
      && (forall i :: 0 <= i < |rows| ==> (state[i] == WAITING <==> i in waiting))
      && forall i :: 0 <= i < |rows| && i in waiting ==> !inserted[i]
    }

    constructor (rows: seq<Row>, index: map<nat, nat>, visible: seq<bool>, treeMode: bool)
      requires index == PidIndex(rows) && |visible| == |rows|
      ensures Valid([]) && store == [] && fresh(inserted) && fresh(state)
      ensures this.rows == rows && this.visible == visible && this.treeMode == treeMode
    {
      this.rows, this.index, this.visible, this.treeMode := rows, index, visible, treeMode;
      inserted := new bool[|rows|](_ => false);
      state := new nat[|rows|](_ => 0);
      store := [];
    }

    /** The row of a pid; the pid table holds neither pid 0 nor pids beyond 32 bits. */
    function IndexForPid(pid: nat): (r: Option<nat>)
      reads this
      requires index == PidIndex(rows)
      ensures r == if pid in PidIndex(rows) then Some(PidIndex(rows)[pid]) else None
    {
      if pid == 0 || pid > U32_MAX then None else if pid in index then Some(index[pid]) else None
    }

    /** Appends row i, its parent first unless that one already waits for row i. */
    method AppendRecursive(i: nat, ghost waiting: seq<nat>)
      requires Valid(waiting) && i < |rows| && i !in waiting
      requires waiting != [] ==> Parent(rows, waiting[|waiting| - 1]) == Some(i)
      modifies this, inserted, state
      ensures Valid(waiting) && old(store) <= store
      ensures if visible[i] then inserted[i] else store == old(store)
      decreases |rows| - |waiting|
    {
      if inserted[i] || !visible[i] {
        return;
      }
      ghost var now := waiting + [i];
      DistinctIndices(now, |rows|);
      WaitLonger(rows, visible, store, waiting, i);
      state[i] := WAITING;
      var parent: Option<nat> := None;
      if treeMode {
        var parentRow := IndexForPid(rows[i].ppid);
        if parentRow.Some? && parentRow.value != i && visible[parentRow.value] {
          if state[parentRow.value] != WAITING {
            AppendRecursive(parentRow.value, now);
            if inserted[parentRow.value] {
              parent := parentRow;
            }
          } else {
            ghost var k :| 0 <= k < |now| && now[k] == parentRow.value;
            ChainClosesCycle(rows, now, k);
          }
        }
      }
      Append(i, parent, waiting);
    }

    /** The part of the recursion after the parent has been dealt with. */
    method Append(i: nat, parent: Option<nat>, ghost waiting: seq<nat>)
      requires i < |rows| && i !in waiting && Valid(waiting + [i]) && Chain(rows, waiting)
      requires NodeFits(rows, visible, treeMode, store, Node(i, parent))
      requires treeMode && parent.None? ==> BrokenOnce(rows, visible, store, waiting)
      requires treeMode && parent.None? && HasParent(rows, visible, i) ==>
                 forall j :: Above(rows, i, j) && j != i ==> j in waiting
      modifies this, inserted, state
      ensures Valid(waiting) && store == old(store) + [Node(i, parent)] && inserted[i]
    {
      var node := Node(i, parent);
      assert i in waiting + [i];
      AppendKeepsForest(rows, visible, treeMode, store, node);
      if treeMode {
        AppendKeepsBrokenOnce(rows, visible, store, waiting, node);
      }
      forall x ensures Placed(store + [node], x) <==> Placed(store, x) || x == i {
        PlacedStays(store, node, x);
      }
      ghost var before := state[..];
      store := store + [node];
      inserted[i] := true;
      state[i] := DONE;
      forall x | 0 <= x < |rows| ensures state[x] == WAITING <==> x in waiting {
        assert before[x] == WAITING <==> x in waiting + [i];
      }
    }

    /** Appends every shown row; the tree then holds each of them once. */
    method AppendAll()
      requires Valid([])
      modifies this, inserted, state
      ensures Valid([])
      ensures old(store) == [] ==> forall i :: 0 <= i < |rows| ==> (visible[i] <==> Placed(store, i))
    {
      for i := 0 to |rows|
        invariant Valid([])
        invariant forall j :: 0 <= j < i && visible[j] ==> Placed(store, j)
      {
        if visible[i] {
          ghost var before := store;
          AppendRecursive(i, []);
          forall j | 0 <= j < i + 1 && visible[j] ensures Placed(store, j) {
            if j < i {
              PlacedInPrefix(before, store, j);
            }
          }
        }
      }
      forall i | 0 <= i < |rows| && Placed(store, i) ensures visible[i] {
        var a :| 0 <= a < |store| && store[a].row == i;
        assert NodeFits(rows, visible, treeMode, store[..a], store[a]);
      }
    }
  }

  lemma PlacedInPrefix(shorter: seq<Node>, longer: seq<Node>, row: nat)
    requires shorter <= longer && Placed(shorter, row)
    ensures Placed(longer, row)
  {
    var a :| 0 <= a < |shorter| && shorter[a].row == row;
    assert longer[a].row == row;
  }

  lemma WaitLonger(rows: seq<Row>, visible: seq<bool>, store: seq<Node>, waiting: seq<nat>, i: nat)
    requires |rows| == |visible| && i < |rows| && i !in waiting && Chain(rows, waiting)
    requires waiting != [] ==> Parent(rows, waiting[|waiting| - 1]) == Some(i)
    ensures Chain(rows, waiting + [i])
    ensures BrokenOnce(rows, visible, store, waiting) ==> BrokenOnce(rows, visible, store, waiting + [i])
    ensures forall j :: j in waiting + [i] <==> j in waiting || j == i
  {
  }

  /** Rebuilding the model: the shown rows and the tree of them. */
  method Rebuild(rows: seq<Row>, direct: seq<bool>, treeMode: bool) returns (visible: seq<bool>, store: seq<Node>)
    requires |direct| == |rows|
    ensures |visible| == |rows|
    ensures forall j :: 0 <= j < |rows| ==> (visible[j] <==> if treeMode then Shown(rows, direct, j) else direct[j])
    ensures forall j :: 0 <= j < |rows| ==> (visible[j] <==> Placed(store, j))
    ensures Forest(rows, visible, treeMode, store)
    ensures treeMode ==> BrokenOnce(rows, visible, store, [])
    ensures treeMode ==> forall x :: 0 <= x < |rows| && visible[x] && Parent(rows, x).Some? ==> visible[Parent(rows, x).value]
  {
    var index := BuildIndex(rows);
    var marks := new bool[|rows|](i requires 0 <= i < |direct| => direct[i]);
    assert marks[..] == direct;
    if treeMode {
      MarkVisible(rows, index, direct, marks);
      forall x | 0 <= x < |rows| && marks[x] && Parent(rows, x).Some? ensures marks[Parent(rows, x).value] {
        ShownIsClosed(rows, direct, x);
      }
    }
    visible := marks[..];
    var builder := new Builder(rows, index, visible, treeMode);
    builder.AppendAll();
    store := builder.store;
  }
}
