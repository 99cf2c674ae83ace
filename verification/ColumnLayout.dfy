/** Column orders of the Details page (src/details_layout.c): permutations, their check, and the
    loop that moves the columns of the table into an order. */
module ColumnLayout {
  import opened Basics

  // ----- Permutations -----

  ghost predicate Distinct(view: seq<int>) {
    forall i, j :: 0 <= i < j < |view| ==> view[i] != view[j]
  }

  ghost predicate IsPermutation(order: seq<int>) {
    && (forall i :: 0 <= i < |order| ==> 0 <= order[i] < |order|)
    && Distinct(order)
  }

  function Identity(n: nat): (r: seq<int>)
    ensures |r| == n && forall i :: 0 <= i < n ==> r[i] == i
  {
    if n == 0 then [] else Identity(n - 1) + [n - 1]
  }

  /** Position p of the table shows column view[p]; column i is at position order[i]. */
  ghost predicate Inverse(order: seq<int>, view: seq<int>) {
    |order| == |view| && IsPermutation(order) && forall i :: 0 <= i < |order| ==> view[order[i]] == i
  }

  lemma {:induction false} EveryPositionIsTaken(order: seq<int>, p: int)
    requires IsPermutation(order) && 0 <= p < |order|
    ensures exists i :: 0 <= i < |order| && order[i] == p
  {
    var positions: seq<nat> := order;
    DistinctIndices(positions, |order|);
    assert p in positions;
  }

  /** There is one view for an order. */
  lemma {:induction false} InverseIsUnique(order: seq<int>, a: seq<int>, b: seq<int>)
    requires Inverse(order, a) && Inverse(order, b)
    ensures a == b
  {
    forall p | 0 <= p < |order| ensures a[p] == b[p] {
      EveryPositionIsTaken(order, p);
    }
  }

  method IsOrderPermutation(order: array<int>) returns (ok: bool)
    ensures ok <==> IsPermutation(order[..])
  {
    ghost var o := order[..];
    var seen := new bool[order.Length](_ => false);
    for index := 0 to order.Length
      invariant forall i :: 0 <= i < index ==> 0 <= o[i] < order.Length && seen[o[i]]
      invariant forall p :: 0 <= p < order.Length && seen[p] ==> p in o[..index]
      invariant Distinct(o[..index])
    {
      var position := order[index];
      assert o[index] == position && o[..index + 1] == o[..index] + [position];
      if position < 0 || position >= order.Length {
        return false;
      }
      if seen[position] {
        return false;
      }
      seen[position] := true;
    }
    assert o[..order.Length] == o;
    ok := true;
  }

  // ----- Moving the columns -----

  function Without(view: seq<int>, column: int): (r: seq<int>)
    ensures column !in r && forall x :: x != column ==> (x in r <==> x in view)
  {
    if view == [] then [] else
    (if view[0] == column then [] else [view[0]]) + Without(view[1..], column)
  }

  function PositionOf(view: seq<int>, column: int): (r: nat)
    ensures r <= |view| && (r < |view| ==> view[r] == column) && forall i :: 0 <= i < r ==> view[i] != column
  {
    if view == [] || view[0] == column then 0 else 1 + PositionOf(view[1..], column)
  }

  /** Takes a column out of the table and puts it behind another, or first. */
  function MoveAfter(view: seq<int>, column: int, previous: Option<int>): seq<int> {
    var rest := Without(view, column);
    match previous
    case None => [column] + rest
    case Some(p) =>
      var at := Min(PositionOf(rest, p) + 1, |rest|);
      rest[..at] + [column] + rest[at..]
  }

  lemma {:induction false} WithoutKeepsPrefix(front: seq<int>, rest: seq<int>, column: int)
    requires column !in front
    ensures Without(front + rest, column) == front + Without(rest, column)
  {
    if front == [] {
      assert front + rest == rest;
      assert front + Without(rest, column) == Without(rest, column);
    } else {
      assert (front + rest)[1..] == front[1..] + rest;
      WithoutKeepsPrefix(front[1..], rest, column);
    }
  }

  lemma {:induction false} WithoutOne(view: seq<int>, column: int)
    requires Distinct(view)
    ensures Distinct(Without(view, column))
    ensures |Without(view, column)| == |view| - if column in view then 1 else 0
  {
    if view != [] {
      var tail := view[1..];
      assert forall i :: 0 <= i < |tail| ==> tail[i] == view[i + 1];
      WithoutOne(tail, column);
      assert view[0] !in tail;
      assert view[0] !in Without(tail, column);
      assert column in view <==> column == view[0] || column in tail by {
        assert view == [view[0]] + tail;
      }
    }
  }

  lemma {:induction false} PositionOfLast(front: seq<int>, rest: seq<int>)
    requires front != [] && Distinct(front + rest)
    ensures PositionOf(front + rest, front[|front| - 1]) == |front| - 1
  {
    var view, n := front + rest, |front| - 1;
    var r := PositionOf(view, front[n]);
    assert view[n] == front[n];
  }

  lemma NotInFront(front: seq<int>, rest: seq<int>, column: int)
    requires Distinct(front + rest) && column in rest
    ensures column !in front && column in front + rest && column !in Without(rest, column)
  {
    var c :| 0 <= c < |rest| && rest[c] == column;
    assert (front + rest)[|front| + c] == column;
    forall i | 0 <= i < |front| ensures front[i] != column {
      assert (front + rest)[i] != (front + rest)[|front| + c];
    }
  }

  lemma {:induction false} MoveInserts(view: seq<int>, front: seq<int>, others: seq<int>, column: int)
    requires Without(view, column) == front + others && Distinct(front + others)
    ensures MoveAfter(view, column, if front == [] then None else Some(front[|front| - 1])) == (front + [column]) + others
  {
    hide Distinct, Without;
    if front == [] {
      assert front + others == others && [column] + others == (front + [column]) + others;
    } else {
      PositionOfLast(front, others);
      assert (front + others)[..|front|] == front && (front + others)[|front|..] == others;
    }
  }

  /** Moving a column behind the last one in place puts it next, and disturbs nothing before it. */
  lemma {:induction false} MovedNext(front: seq<int>, rest: seq<int>, column: int)
    requires Distinct(front + rest) && column in rest
    ensures var previous := if front == [] then None else Some(front[|front| - 1]);
      MoveAfter(front + rest, column, previous) == (front + [column]) + Without(rest, column)
    ensures Distinct((front + [column]) + Without(rest, column))
  {
    hide *;
    NotInFront(front, rest, column);
    WithoutKeepsPrefix(front, rest, column);
    WithoutOne(front + rest, column);
    MoveInserts(front + rest, front, Without(rest, column), column);
    DistinctInserted(front, Without(rest, column), column);
  }

  lemma {:induction false} DistinctInserted(front: seq<int>, rest: seq<int>, column: int)
    requires Distinct(front + rest) && column !in front && column !in rest
    ensures Distinct((front + [column]) + rest)
  {
    var view, longer := front + rest, (front + [column]) + rest;
    forall i, j | 0 <= i < j < |longer| ensures longer[i] != longer[j] {
      if i < |front| {
        assert longer[i] == view[i];
      } else if i > |front| {
        assert longer[i] == view[i - 1];
      }
      if j < |front| {
        assert longer[j] == view[j];
      } else if j > |front| {
        assert longer[j] == view[j - 1];
      }
    }
  }

  /** The first n columns of an order by position. */
  ghost predicate Arranged(order: seq<int>, view: seq<int>, n: nat) {
    n <= |view| && forall i :: 0 <= i < |order| && 0 <= order[i] < n ==> view[order[i]] == i
  }

  lemma {:induction false} NotYetPlaced(order: seq<int>, view: seq<int>, position: nat, index: nat)
    requires IsPermutation(order) && |view| == |order| && Arranged(order, view, position)
    requires index < |order| && order[index] == position
    ensures index !in view[..position]
  {
    forall p | 0 <= p < position ensures view[p] != index {
      EveryPositionIsTaken(order, p);
    }
  }

  /** Every column is somewhere in the table, once. */
  ghost predicate ShowsAll(view: seq<int>, n: nat) {
    |view| == n && Distinct(view) && forall c :: 0 <= c < n ==> c in view
  }

  /** One pass of the loop puts the column of the next position where it belongs. */
  lemma {:induction false} MovedToPosition(order: seq<int>, view: seq<int>, position: nat, index: nat)
    requires IsPermutation(order) && ShowsAll(view, |order|) && Arranged(order, view, position)
    requires position < |order| == |view| && index < |order| && order[index] == position
    ensures var moved := MoveAfter(view, index, if position == 0 then None else Some(view[position - 1]));
      ShowsAll(moved, |order|) && Arranged(order, moved, position + 1) && moved[position] == index
  {
    hide *;
    var front, rest := view[..position], view[position..];
    NotYetPlaced(order, view, position, index);
    assert view == front + rest;
    ShowsColumn(view, |order|, index);
    DistinctRest(front, rest);
    assert index in rest;
    MovedNext(front, rest, index);
    WithoutOne(rest, index);
    var moved := (front + [index]) + Without(rest, index);
    assert position > 0 ==> view[position - 1] == front[|front| - 1];
    assert moved[..position] == front && moved[position] == index && |moved| == |view|;
    ArrangedNext(order, view, moved, position, index);
    MovedShowsAll(view, front, rest, index, |order|);
  }

  lemma ShowsColumn(view: seq<int>, n: nat, c: int)
    requires ShowsAll(view, n) && 0 <= c < n
    ensures c in view && Distinct(view)
  {
  }

  lemma {:induction false} MovedShowsAll(view: seq<int>, front: seq<int>, rest: seq<int>, column: int, n: nat)
    requires view == front + rest && ShowsAll(view, n)
    requires var moved := (front + [column]) + Without(rest, column); Distinct(moved) && |moved| == n
    ensures ShowsAll((front + [column]) + Without(rest, column), n)
  {
    forall c | 0 <= c < n ensures c in (front + [column]) + Without(rest, column) {
      assert c in view;
      WithoutOthers(rest, column, c);
    }
  }

  lemma WithoutOthers(view: seq<int>, column: int, c: int)
    ensures c in view ==> c == column || c in Without(view, column)
  {
  }

  lemma ArrangedNext(order: seq<int>, view: seq<int>, moved: seq<int>, position: nat, index: nat)
    requires IsPermutation(order) && |view| == |order| == |moved| && Arranged(order, view, position)
    requires index < |order| && order[index] == position && moved[..position] == view[..position] && moved[position] == index
    ensures Arranged(order, moved, position + 1)
  {
    OnlyIndex(order, position, index);
    assert forall p :: 0 <= p < position ==> moved[p] == moved[..position][p] == view[p];
  }

  /** Only this column has the position. */
  ghost predicate IndexedOnce(order: seq<int>, position: int, index: int) {
    forall i :: 0 <= i < |order| && order[i] == position ==> i == index
  }

  lemma OnlyIndex(order: seq<int>, position: int, index: int)
    requires IsPermutation(order) && 0 <= index < |order| && order[index] == position
    ensures IndexedOnce(order, position, index)
  {
  }

  lemma DistinctRest(front: seq<int>, rest: seq<int>)
    requires Distinct(front + rest)
    ensures Distinct(rest)
  {
    forall i, j | 0 <= i < j < |rest| ensures rest[i] != rest[j] {
      assert (front + rest)[|front| + i] != (front + rest)[|front| + j];
    }
  }

  /** Moves every column behind the one before it in the order. From any arrangement of the
      columns this leaves exactly the view of the order. */
  method MoveColumns(order: array<int>, start: seq<int>) returns (view: seq<int>)
    requires IsPermutation(order[..]) && IsPermutation(start) && |start| == order.Length
    ensures Inverse(order[..], view)
  {
    view := start;
    forall c | 0 <= c < order.Length ensures c in view {
      EveryPositionIsTaken(start, c);
    }
    var previous: Option<int> := None;
    for position := 0 to order.Length
      invariant ShowsAll(view, order.Length) && Arranged(order[..], view, position)
      invariant previous == if position == 0 then None else Some(view[position - 1])
    {
      EveryPositionIsTaken(order[..], position);
      var index := 0;
      while order[index] != position
        invariant 0 <= index < order.Length
        invariant forall i :: 0 <= i < index ==> order[i] != position
        decreases order.Length - index
      {
        index := index + 1;
      }
      MovedToPosition(order[..], view, position, index);
      view := MoveAfter(view, index, previous);
      previous := Some(index);
    }
  }
}
