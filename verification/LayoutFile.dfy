/** The saved layout of the Details page (src/details_layout.c): the entries written for a layout,
    and reading them back with the migrations of older versions. */
module LayoutFile {
  import opened Basics
  import opened ColumnLayout
  import opened Decimal

  const VERSION: int := 5
  const MAX_WIDTH: int := 2000
  const NAME: nat := 0
  const GPU_ENGINE: int := 16
  const PREVIOUS_MEMORY: int := 6
  const PREVIOUS_READ_TOTAL: int := 11
  const LAST_SCOPE: int := 2
  const INT_MAX: int := 0x7FFF_FFFF
  const INT_MIN: int := -0x8000_0000

  datatype Column = Column(key: string, defaultVisible: bool, minWidth: int)

  /** One `key=value` line of the file. */
  datatype Entry = Entry(key: string, value: string)

  datatype Layout = Layout(
    version: int, tree: bool, scope: int, heatmap: bool,
    visible: seq<bool>, widths: seq<int>, order: seq<int>, sortColumn: int, descending: bool)
  {
    predicate Fits(n: nat) {
      |visible| == |widths| == |order| == n
    }
  }

  // ----- Keys -----

  const RESERVED: seq<string> := ["layout_version", "tree", "scope", "heatmap", "sort_column", "sort_order"]

  /** The column keys are different, are not those of other entries, and hold no dot. */
  predicate GoodKeys(columns: seq<Column>) {
    && (forall i :: 0 <= i < |columns| ==> '.' !in columns[i].key && columns[i].key !in RESERVED)
    && forall i, j :: 0 <= i < j < |columns| ==> columns[i].key != columns[j].key
  }

  function WidthKey(key: string): string {
    "width." + key
  }

  function OrderKey(key: string): string {
    "order." + key
  }

  datatype Field = Visible(column: nat) | Width(column: nat) | Order(column: nat) | Unknown

  /** The first column from index i on that an entry is about. */
  function FieldOf(columns: seq<Column>, key: string, i: nat): (r: Field)
    requires i <= |columns|
    ensures !r.Unknown? ==> r.column < |columns|
    decreases |columns| - i
  {
    if i == |columns| then Unknown
    else if key == columns[i].key then Visible(i)
    else if key == WidthKey(columns[i].key) then Width(i)
    else if key == OrderKey(columns[i].key) then Order(i)
    else FieldOf(columns, key, i + 1)
  }

  lemma {:induction false} FieldOfColumn(columns: seq<Column>, i: nat, from: nat)
    requires GoodKeys(columns) && from <= i < |columns|
    ensures FieldOf(columns, columns[i].key, from) == Visible(i)
    ensures FieldOf(columns, WidthKey(columns[i].key), from) == Width(i)
    ensures FieldOf(columns, OrderKey(columns[i].key), from) == Order(i)
    decreases i - from
  {
    var key := columns[i].key;
    PrefixedKeysDiffer(key, columns[from].key);
    if from < i {
      assert columns[from].key != key;
      FieldOfColumn(columns, i, from + 1);
    }
  }

  lemma PrefixedKeysDiffer(a: string, b: string)
    requires '.' !in a && '.' !in b
    ensures WidthKey(a) != b && OrderKey(a) != b && a != WidthKey(b) && a != OrderKey(b)
    ensures WidthKey(a) != OrderKey(b) && OrderKey(a) != WidthKey(b)
    ensures a != b ==> WidthKey(a) != WidthKey(b) && OrderKey(a) != OrderKey(b)
    ensures WidthKey(a) !in RESERVED && OrderKey(a) !in RESERVED
  {
    assert WidthKey(a)[5] == OrderKey(a)[5] == WidthKey(b)[5] == OrderKey(b)[5] == '.';
    assert WidthKey(a)[0] == 'w' && OrderKey(a)[0] == 'o' && WidthKey(b)[0] == 'w' && OrderKey(b)[0] == 'o';
    assert WidthKey(a)[6..] == a && WidthKey(b)[6..] == b && OrderKey(a)[6..] == a && OrderKey(b)[6..] == b;
    assert forall k :: 0 <= k < |RESERVED| ==> RESERVED[k][0] != 'w' && RESERVED[k][0] != 'o';
  }

  // ----- Reading -----

  function BooleanOf(value: string, fallback: bool): bool {
    if value == "1" then true else if value == "0" then false else fallback
  }

  function IntegerOf(value: string, minimum: int, maximum: int, fallback: int): int {
    match ParseI64(value)
    case Some(n) => if minimum <= n <= maximum then n else fallback
    case None => fallback
  }

  function DefaultVisible(columns: seq<Column>): (r: seq<bool>)
    ensures |r| == |columns| && forall i :: 0 <= i < |r| ==> r[i] == columns[i].defaultVisible
  {
    if columns == [] then [] else DefaultVisible(columns[..|columns| - 1]) + [columns[|columns| - 1].defaultVisible]
  }

  function MinimumWidths(columns: seq<Column>): (r: seq<int>)
    ensures |r| == |columns| && forall i :: 0 <= i < |r| ==> r[i] == columns[i].minWidth
  {
    if columns == [] then [] else MinimumWidths(columns[..|columns| - 1]) + [columns[|columns| - 1].minWidth]
  }

  function Defaults(columns: seq<Column>): (r: Layout)
    ensures r.Fits(|columns|)
  {
    Layout(0, true, 0, true, DefaultVisible(columns), MinimumWidths(columns), Identity(|columns|), -1, false)
  }

  /** One entry of the file. */
  function Read(columns: seq<Column>, l: Layout, e: Entry): (r: Layout)
    requires l.Fits(|columns|)
    ensures r.Fits(|columns|)
  {
    if e.key == "layout_version" then l.(version := IntegerOf(e.value, 0, INT_MAX, l.version))
    else if e.key == "tree" then l.(tree := BooleanOf(e.value, l.tree))
    else if e.key == "scope" then l.(scope := IntegerOf(e.value, 0, LAST_SCOPE, l.scope))
    else if e.key == "heatmap" then l.(heatmap := BooleanOf(e.value, l.heatmap))
    else if e.key == "sort_column" then l.(sortColumn := IntegerOf(e.value, 0, |columns| - 1, l.sortColumn))
    else if e.key == "sort_order" then
      l.(descending := if e.value == "descending" then true else if e.value == "ascending" then false else l.descending)
    else ReadColumn(columns, l, FieldOf(columns, e.key, 0), e.value)
  }

  function ReadColumn(columns: seq<Column>, l: Layout, field: Field, value: string): (r: Layout)
    requires l.Fits(|columns|) && (!field.Unknown? ==> field.column < |columns|)
    ensures r.Fits(|columns|)
  {
    match field
    case Visible(i) => l.(visible := l.visible[i := BooleanOf(value, l.visible[i])])
    case Width(i) => l.(widths := l.widths[i := IntegerOf(value, columns[i].minWidth, MAX_WIDTH, l.widths[i])])
    case Order(i) => l.(order := l.order[i := IntegerOf(value, 0, |columns| - 1, l.order[i])])
    case Unknown => l
  }

  function ReadAll(columns: seq<Column>, l: Layout, entries: seq<Entry>): (r: Layout)
    requires l.Fits(|columns|)
    ensures r.Fits(|columns|)
  {
    if entries == [] then l
    else Read(columns, ReadAll(columns, l, entries[..|entries| - 1]), entries[|entries| - 1])
  }

  /** What an older version's sort column is called now; from before version 5 none is kept. */
  function MigratedSort(version: int, sortColumn: int): int {
    var a :=
      if version < 3 then
        if sortColumn >= PREVIOUS_READ_TOTAL then sortColumn + 3
        else if sortColumn >= PREVIOUS_MEMORY then sortColumn + 1
        else sortColumn
      else sortColumn;
    var b := if version < 4 && a >= GPU_ENGINE then a + 1 else a;
    if version < VERSION then -1 else b
  }

  ghost function Migrated(columns: seq<Column>, l: Layout): (r: Layout)
    requires l.Fits(|columns|)
    ensures r.Fits(|columns|) && IsPermutation(r.order)
  {
    l.(visible := if l.version < 2 then DefaultVisible(columns) else l.visible,
       sortColumn := MigratedSort(l.version, l.sortColumn),
       order := if l.version >= VERSION && IsPermutation(l.order) then l.order else Identity(|columns|))
  }

  // ----- Writing -----

  function Bit(b: bool): string {
    if b then "1" else "0"
  }

  function EntriesOf(columns: seq<Column>, l: Layout, i: nat): seq<Entry>
    requires l.Fits(|columns|) && i < |columns|
  {
    var key := columns[i].key;
    [Entry(key, Bit(l.visible[i])), Entry(WidthKey(key), PrintInt(l.widths[i])), Entry(OrderKey(key), PrintInt(l.order[i]))]
  }

  function ColumnEntries(columns: seq<Column>, l: Layout, n: nat): (r: seq<Entry>)
    requires l.Fits(|columns|) && n <= |columns|
  {
    if n == 0 then [] else ColumnEntries(columns, l, n - 1) + EntriesOf(columns, l, n - 1)
  }

  function HeadEntries(l: Layout): seq<Entry> {
    [Entry("layout_version", PrintInt(VERSION)), Entry("tree", Bit(l.tree)), Entry("scope", PrintInt(l.scope)), Entry("heatmap", Bit(l.heatmap))]
  }

  function SortEntries(l: Layout): seq<Entry> {
    if l.sortColumn < 0 then []
    else [Entry("sort_column", PrintInt(l.sortColumn)), Entry("sort_order", if l.descending then "descending" else "ascending")]
  }

  function Saved(columns: seq<Column>, l: Layout): seq<Entry>
    requires l.Fits(|columns|)
  {
    SavedTo(columns, l, |columns|) + SortEntries(l)
  }

  /** The entries before those of column n. */
  function SavedTo(columns: seq<Column>, l: Layout, n: nat): seq<Entry>
    requires l.Fits(|columns|) && n <= |columns|
  {
    HeadEntries(l) + ColumnEntries(columns, l, n)
  }

  lemma SavedGrows(columns: seq<Column>, l: Layout, n: nat)
    requires l.Fits(|columns|) && n <= |columns|
    ensures SavedTo(columns, l, 0) == HeadEntries(l)
    ensures n < |columns| ==> SavedTo(columns, l, n + 1) == SavedTo(columns, l, n) + EntriesOf(columns, l, n)
  {
    hide HeadEntries, EntriesOf;
  }

  // ----- Round trip -----

  lemma {:induction false} ReadAllConcat(columns: seq<Column>, l: Layout, a: seq<Entry>, b: seq<Entry>)
    requires l.Fits(|columns|)
    ensures ReadAll(columns, l, a + b) == ReadAll(columns, ReadAll(columns, l, a), b)
  {
    if b == [] {
      assert a + b == a;
    } else {
      var n := |b| - 1;
      assert (a + b)[..|a + b| - 1] == a + b[..n];
      ReadAllConcat(columns, l, a, b[..n]);
    }
  }

  lemma PrintedInteger(n: int, minimum: int, maximum: int, fallback: int)
    requires INT_MIN <= n <= INT_MAX
    ensures IntegerOf(PrintInt(n), minimum, maximum, fallback) == if minimum <= n <= maximum then n else fallback
  {
    ParsePrintedInt(n);
  }

  /** What the application keeps in its layout. */
  predicate Usual(columns: seq<Column>, l: Layout) {
    && l.Fits(|columns|) && 0 <= l.scope <= LAST_SCOPE && -1 <= l.sortColumn < |columns| <= INT_MAX
    && forall i :: 0 <= i < |columns| ==> INT_MIN <= l.widths[i] <= INT_MAX
  }

  function WidthKept(column: Column, width: int): int {
    if column.minWidth <= width <= MAX_WIDTH then width else column.minWidth
  }

  function WidthsKept(columns: seq<Column>, widths: seq<int>): (r: seq<int>)
    requires |widths| == |columns|
    ensures |r| == |columns| && forall i :: 0 <= i < |r| ==> r[i] == WidthKept(columns[i], widths[i])
  {
    if columns == [] then [] else
    var n := |columns| - 1;
    WidthsKept(columns[..n], widths[..n]) + [WidthKept(columns[n], widths[n])]
  }

  /** What has been read after the entries of the first n columns. */
  function Halfway(columns: seq<Column>, l: Layout, n: nat): (r: Layout)
    requires l.Fits(|columns|) && n <= |columns|
    ensures r.Fits(|columns|)
  {
    Layout(VERSION, l.tree, l.scope, l.heatmap,
           l.visible[..n] + DefaultVisible(columns)[n..],
           WidthsKept(columns, l.widths)[..n] + MinimumWidths(columns)[n..],
           l.order[..n] + Identity(|columns|)[n..], -1, false)
  }

  lemma {:induction false} HeadIsRead(columns: seq<Column>, l: Layout)
    requires Usual(columns, l)
    ensures ReadAll(columns, Defaults(columns), HeadEntries(l)) == Halfway(columns, l, 0)
  {
    var d, h := Defaults(columns), HeadEntries(l);
    PrintedInteger(VERSION, 0, INT_MAX, 0);
    PrintedInteger(l.scope, 0, LAST_SCOPE, 0);
    var d1 := d.(version := VERSION);
    var d2 := d1.(tree := l.tree);
    var d3 := d2.(scope := l.scope);
    var d4 := d3.(heatmap := l.heatmap);
    assert Read(columns, d, h[0]) == d1;
    assert Read(columns, d1, h[1]) == d2;
    assert Read(columns, d2, h[2]) == d3;
    assert Read(columns, d3, h[3]) == d4;
    hide Read;
    assert h[..3][..2] == h[..2] && h[..2][..1] == h[..1] && h[..1][..0] == [];
    assert ReadAll(columns, d, h[..1]) == d1;
    assert ReadAll(columns, d, h[..2]) == d2;
    assert ReadAll(columns, d, h[..3]) == d3;
    assert ReadAll(columns, d, h) == d4;
  }

  lemma {:induction false} ReadOne(columns: seq<Column>, l: Layout, e: Entry)
    requires l.Fits(|columns|)
    ensures ReadAll(columns, l, [e]) == Read(columns, l, e)
  {
    assert [e][..0] == [];
  }

  lemma {:induction false} ReadThree(columns: seq<Column>, l: Layout, a: Entry, b: Entry, c: Entry)
    requires l.Fits(|columns|)
    ensures ReadAll(columns, l, [a, b, c]) == Read(columns, Read(columns, Read(columns, l, a), b), c)
  {
    assert [a, b, c] == [a, b] + [c] && [a, b] == [a] + [b];
    ReadAllConcat(columns, l, [a, b], [c]);
    ReadAllConcat(columns, l, [a], [b]);
    ReadOne(columns, l, a);
    ReadOne(columns, Read(columns, l, a), b);
    ReadOne(columns, Read(columns, Read(columns, l, a), b), c);
  }

  /** An entry with a column's key is read as one of that column. */
  lemma {:induction false} ColumnKeyIsRead(columns: seq<Column>, l: Layout, i: nat, value: string)
    requires GoodKeys(columns) && l.Fits(|columns|) && i < |columns|
    ensures Read(columns, l, Entry(columns[i].key, value)) == ReadColumn(columns, l, Visible(i), value)
    ensures Read(columns, l, Entry(WidthKey(columns[i].key), value)) == ReadColumn(columns, l, Width(i), value)
    ensures Read(columns, l, Entry(OrderKey(columns[i].key), value)) == ReadColumn(columns, l, Order(i), value)
  {
    FieldOfColumn(columns, i, 0);
    PrefixedKeysDiffer(columns[i].key, columns[i].key);
    NotReserved(columns[i].key);
    NotReserved(WidthKey(columns[i].key));
    NotReserved(OrderKey(columns[i].key));
    hide FieldOf, ReadColumn, WidthKey, OrderKey, GoodKeys;
  }

  lemma NotReserved(key: string)
    requires key !in RESERVED
    ensures key != "layout_version" && key != "tree" && key != "scope" && key != "heatmap"
    ensures key != "sort_column" && key != "sort_order"
  {
    assert RESERVED[0] == "layout_version" && RESERVED[1] == "tree" && RESERVED[2] == "scope" && RESERVED[3] == "heatmap";
    assert RESERVED[4] == "sort_column" && RESERVED[5] == "sort_order";
  }

  /** What has been read after the entries of one column more. */
  function OneColumnMore(columns: seq<Column>, l: Layout, h: Layout, i: nat): (r: Layout)
    requires l.Fits(|columns|) && h.Fits(|columns|) && i < |columns|
    ensures r.Fits(|columns|)
  {
    h.(visible := h.visible[i := l.visible[i]], widths := h.widths[i := WidthKept(columns[i], l.widths[i])],
       order := h.order[i := l.order[i]])
  }

  lemma {:induction false} HalfwayStep(columns: seq<Column>, l: Layout, i: nat)
    requires l.Fits(|columns|) && i < |columns|
    ensures OneColumnMore(columns, l, Halfway(columns, l, i), i) == Halfway(columns, l, i + 1)
    ensures Halfway(columns, l, i).widths[i] == columns[i].minWidth
  {
    var h, next := OneColumnMore(columns, l, Halfway(columns, l, i), i), Halfway(columns, l, i + 1);
    assert h.visible == next.visible;
    assert h.widths == next.widths;
    assert h.order == next.order;
  }

  lemma {:induction false} FieldsAreRead(columns: seq<Column>, l: Layout, h: Layout, i: nat)
    requires Usual(columns, l) && h.Fits(|columns|) && i < |columns| && IsPermutation(l.order)
    requires h.widths[i] == columns[i].minWidth
    ensures var h1 := ReadColumn(columns, h, Visible(i), Bit(l.visible[i]));
      var h2 := ReadColumn(columns, h1, Width(i), PrintInt(l.widths[i]));
      ReadColumn(columns, h2, Order(i), PrintInt(l.order[i])) == OneColumnMore(columns, l, h, i)
  {
    PrintedInteger(l.widths[i], columns[i].minWidth, MAX_WIDTH, h.widths[i]);
    PrintedInteger(l.order[i], 0, |columns| - 1, h.order[i]);
    hide IntegerOf, PrintInt;
  }

  lemma {:induction false} ColumnIsRead(columns: seq<Column>, l: Layout, h: Layout, i: nat)
    requires GoodKeys(columns) && Usual(columns, l) && h.Fits(|columns|) && i < |columns| && IsPermutation(l.order)
    requires h.widths[i] == columns[i].minWidth
    ensures ReadAll(columns, h, EntriesOf(columns, l, i)) == OneColumnMore(columns, l, h, i)
  {
    var e := EntriesOf(columns, l, i);
    FieldsAreRead(columns, l, h, i);
    hide Usual, IsPermutation, OneColumnMore, ReadAll, Read, ReadColumn, GoodKeys, PrintInt, WidthKey, OrderKey;
    var h1 := ReadColumn(columns, h, Visible(i), Bit(l.visible[i]));
    var h2 := ReadColumn(columns, h1, Width(i), PrintInt(l.widths[i]));
    ColumnKeyIsRead(columns, h, i, Bit(l.visible[i]));
    ColumnKeyIsRead(columns, h1, i, PrintInt(l.widths[i]));
    ColumnKeyIsRead(columns, h2, i, PrintInt(l.order[i]));
    ReadThree(columns, h, e[0], e[1], e[2]);
    assert e == [e[0], e[1], e[2]];
  }

  lemma {:induction false} ColumnsAreRead(columns: seq<Column>, l: Layout, n: nat)
    requires GoodKeys(columns) && Usual(columns, l) && n <= |columns| && IsPermutation(l.order)
    ensures ReadAll(columns, Halfway(columns, l, 0), ColumnEntries(columns, l, n)) == Halfway(columns, l, n)
  {
    hide ReadAll, Halfway, GoodKeys, IsPermutation, EntriesOf, OneColumnMore;
    if n == 0 {
      assert ColumnEntries(columns, l, n) == [];
      ReadNone(columns, Halfway(columns, l, 0));
    } else {
      ColumnsAreRead(columns, l, n - 1);
      HalfwayStep(columns, l, n - 1);
      ColumnIsRead(columns, l, Halfway(columns, l, n - 1), n - 1);
      ReadAllConcat(columns, Halfway(columns, l, 0), ColumnEntries(columns, l, n - 1), EntriesOf(columns, l, n - 1));
    }
  }

  lemma ReadNone(columns: seq<Column>, l: Layout)
    requires l.Fits(|columns|)
    ensures ReadAll(columns, l, []) == l
  {
  }

  lemma {:induction false} SortIsRead(columns: seq<Column>, l: Layout, h: Layout)
    requires Usual(columns, l) && h.Fits(|columns|) && h.sortColumn == -1 && !h.descending
    ensures ReadAll(columns, h, SortEntries(l)) == h.(sortColumn := l.sortColumn, descending := l.sortColumn >= 0 && l.descending)
  {
    if l.sortColumn >= 0 {
      var e := SortEntries(l);
      PrintedInteger(l.sortColumn, 0, |columns| - 1, -1);
      assert e == [e[0]] + [e[1]];
      ReadAllConcat(columns, h, [e[0]], [e[1]]);
      ReadOne(columns, h, e[0]);
      ReadOne(columns, Read(columns, h, e[0]), e[1]);
    }
  }

  /** What a saved layout is after loading: a width out of range becomes the least one. */
  function Restored(columns: seq<Column>, l: Layout): Layout
    requires l.Fits(|columns|)
  {
    l.(version := VERSION, widths := WidthsKept(columns, l.widths), descending := l.sortColumn >= 0 && l.descending)
  }

  /** Loading what was saved restores the layout, whatever it was. */
  lemma {:induction false} SavedLayoutIsRestored(columns: seq<Column>, l: Layout)
    requires GoodKeys(columns) && Usual(columns, l) && IsPermutation(l.order)
    ensures Migrated(columns, ReadAll(columns, Defaults(columns), Saved(columns, l))) == Restored(columns, l)
  {
    var n := |columns|;
    HeadIsRead(columns, l);
    ColumnsAreRead(columns, l, n);
    var h := Halfway(columns, l, n);
    assert h == l.(version := VERSION, widths := WidthsKept(columns, l.widths), sortColumn := -1, descending := false);
    SortIsRead(columns, l, h);
    hide ReadAll, GoodKeys, Halfway;
    ReadAllConcat(columns, Defaults(columns), HeadEntries(l), ColumnEntries(columns, l, n));
    ReadAllConcat(columns, Defaults(columns), HeadEntries(l) + ColumnEntries(columns, l, n), SortEntries(l));
  }

  /** And the table shows its columns where they were, from whatever arrangement they are moved. */
  lemma {:induction false} SavedViewComesBack(columns: seq<Column>, l: Layout, view: seq<int>, loaded: seq<int>)
    requires GoodKeys(columns) && Usual(columns, l) && Inverse(l.order, view)
    requires Inverse(Migrated(columns, ReadAll(columns, Defaults(columns), Saved(columns, l))).order, loaded)
    ensures loaded == view
  {
    SavedLayoutIsRestored(columns, l);
    InverseIsUnique(l.order, view, loaded);
  }

  // ----- The page's layout in place -----

  class DetailsLayout {
    const columns: seq<Column>
    var treeMode: bool
    var scope: int
    var heatmap: bool
    const visible: array<bool>
    const widths: array<int>
    var view: seq<int>
    var sortColumn: int
    var sortDescending: bool

    ghost predicate Valid()
      reads this, visible, widths
    {
      && visible.Length == widths.Length == |view| == |columns| > NAME && IsPermutation(view)
      && (forall i :: 0 <= i < |columns| ==> 0 <= columns[i].minWidth <= MAX_WIDTH)
      && 0 <= scope <= LAST_SCOPE && -1 <= sortColumn < |columns| <= INT_MAX
      && forall i :: 0 <= i < widths.Length ==> INT_MIN <= widths[i] <= INT_MAX
    }

    /** The layout to be saved, `order` being the inverse of the view. */
    ghost function Current(order: seq<int>): Layout
      reads this, visible, widths
    {
      Layout(VERSION, treeMode, scope, heatmap, visible[..], widths[..], order, sortColumn, sortDescending)
    }

    /** The position of every column in the table. */
    method Positions() returns (order: array<int>)
      requires Valid()
      ensures fresh(order) && order.Length == |columns| && Inverse(order[..], view)
    {
      order := new int[|view|](i => i);
      for position := 0 to |view|
        invariant forall p :: 0 <= p < position ==> order[view[p]] == p
      {
        order[view[position]] := position;
      }
      InverseOfView(order[..], view);
    }

    /** The entries of the current layout, with the positions its columns have in the table. */
    method Save() returns (entries: seq<Entry>)
      requires Valid()
      ensures exists order :: Inverse(order, view)
      ensures forall order :: Inverse(order, view) ==> Current(order).Fits(|columns|) && entries == Saved(columns, Current(order))
    {
      var positions := Positions();
      entries := SaveEntries(positions, Current(positions[..]));
      forall order | Inverse(order, view) ensures order == positions[..] {
        OneOrderForView(order, positions[..], view);
      }
    }

    method SaveEntries(order: array<int>, ghost l: Layout) returns (entries: seq<Entry>)
      requires visible.Length == widths.Length == order.Length == |columns| && l.Fits(|columns|)
      requires l.visible == visible[..] && l.widths == widths[..] && l.order == order[..]
      requires l.tree == treeMode && l.scope == scope && l.heatmap == heatmap
      requires l.sortColumn == sortColumn && l.descending == sortDescending
      ensures entries == Saved(columns, l)
    {
      entries := [Entry("layout_version", PrintInt(VERSION)), Entry("tree", Bit(treeMode)),
                  Entry("scope", PrintInt(scope)), Entry("heatmap", Bit(heatmap))];
      hide EntriesOf, SortEntries, PrintInt, Bit, ColumnEntries;
      SavedGrows(columns, l, 0);
      for i := 0 to |columns|
        invariant entries == SavedTo(columns, l, i)
      {
        hide HeadEntries, SavedTo;
        entries := SaveColumn(entries, order, i, l);
        SavedGrows(columns, l, i);
      }
      entries := SaveSort(entries, l);
    }

    method SaveColumn(entries: seq<Entry>, order: array<int>, i: nat, ghost l: Layout) returns (longer: seq<Entry>)
      requires visible.Length == widths.Length == order.Length == |columns| && i < |columns|
      requires l.Fits(|columns|) && l.visible == visible[..] && l.widths == widths[..] && l.order == order[..]
      ensures longer == entries + EntriesOf(columns, l, i)
    {
      var key := columns[i].key;
      longer := entries + [Entry(key, Bit(visible[i]))];
      longer := longer + [Entry(WidthKey(key), PrintInt(widths[i]))];
      longer := longer + [Entry(OrderKey(key), PrintInt(order[i]))];
    }

    method SaveSort(entries: seq<Entry>, ghost l: Layout) returns (longer: seq<Entry>)
      requires l.sortColumn == sortColumn && l.descending == sortDescending
      ensures longer == entries + SortEntries(l)
    {
      longer := entries;
      if sortColumn >= 0 {
        longer := longer + [Entry("sort_column", PrintInt(sortColumn)),
                            Entry("sort_order", if sortDescending then "descending" else "ascending")];
      }
    }

    /** Loads a file's entries, or the defaults when there is no file, and arranges the table. */
    method Load(file: Option<seq<Entry>>)
      requires Valid()
      modifies this, visible, widths
      ensures Valid()
      ensures var l := Migrated(columns, ReadAll(columns, Defaults(columns), if file.Some? then file.value else []));
        && treeMode == l.tree && scope == l.scope && heatmap == l.heatmap
        && visible[..] == l.visible[NAME := true] && widths[..] == l.widths && Inverse(l.order, view)
        && (if l.sortColumn >= 0 then sortColumn == l.sortColumn && sortDescending == l.descending
            else sortColumn == old(sortColumn) && sortDescending == old(sortDescending))
    {
      var entries := if file.Some? then file.value else [];
      var parsed := new Parsed(columns);
      hide Read, FieldOf, IntegerOf, BooleanOf, MigratedSort, Inverse, DefaultVisible, MinimumWidths, Identity;
      parsed.ReadEntries(entries);
      parsed.Migrate();
      MigratedInRange(columns, entries);
      Arrange(parsed);
    }

    /** Puts the loaded values into effect. */
    method Arrange(parsed: Parsed)
      requires Valid() && parsed.Valid() && parsed.columns == columns && InRange(columns, parsed.Value())
      requires IsPermutation(parsed.order[..]) && parsed.visible != visible && parsed.widths != widths && parsed.order != widths
      modifies this, visible, widths
      ensures Valid()
      ensures var l := old(parsed.Value());
        && treeMode == l.tree && scope == l.scope && heatmap == l.heatmap
        && visible[..] == l.visible[NAME := true] && widths[..] == l.widths && Inverse(l.order, view)
        && (if l.sortColumn >= 0 then sortColumn == l.sortColumn && sortDescending == l.descending
            else sortColumn == old(sortColumn) && sortDescending == old(sortDescending))
    {
      ghost var l := parsed.Value();
      treeMode, scope, heatmap := parsed.tree, parsed.scope, parsed.heatmap;
      view := MoveColumns(parsed.order, view);
      ViewPermutes(l.order, view);
      if parsed.sortColumn >= 0 {
        sortColumn, sortDescending := parsed.sortColumn, parsed.descending;
      }
      hide Inverse, IsPermutation;
      forall i | 0 <= i < |columns| {
        visible[i] := parsed.visible[i];
      }
      forall i | 0 <= i < |columns| {
        widths[i] := parsed.widths[i];
      }
      visible[NAME] := true;
      assert visible[..] == l.visible[NAME := true];
      assert widths[..] == l.widths;
    }
  }

  lemma {:induction false} ViewPermutes(order: seq<int>, view: seq<int>)
    requires Inverse(order, view)
    ensures IsPermutation(view)
  {
    forall p | 0 <= p < |view| ensures 0 <= view[p] < |view| && order[view[p]] == p {
      EveryPositionIsTaken(order, p);
    }
  }

  lemma {:induction false} MigratedInRange(columns: seq<Column>, entries: seq<Entry>)
    ensures InRange(columns, Migrated(columns, ReadAll(columns, Defaults(columns), entries)))
  {
    ReadsUsual(columns, entries);
    hide ReadAll, DefaultVisible, Identity, Defaults;
  }

  /** What stays in range whatever the file says. */
  ghost predicate InRange(columns: seq<Column>, l: Layout) {
    && l.Fits(|columns|) && 0 <= l.scope <= LAST_SCOPE && (-1 <= l.sortColumn < |columns| || l.sortColumn == -1)
    && forall i :: 0 <= i < |columns| ==> columns[i].minWidth <= l.widths[i] <= Max(MAX_WIDTH, columns[i].minWidth)
  }

  lemma {:induction false} ReadInRange(columns: seq<Column>, l: Layout, e: Entry)
    requires InRange(columns, l)
    ensures InRange(columns, Read(columns, l, e))
  {
    hide FieldOf, BooleanOf, ParseI64;
  }

  /** Whatever a file holds, scope, sort column and widths stay in their ranges. */
  lemma {:induction false} ReadsUsual(columns: seq<Column>, entries: seq<Entry>)
    ensures InRange(columns, ReadAll(columns, Defaults(columns), entries))
  {
    if entries != [] {
      ReadsUsual(columns, entries[..|entries| - 1]);
      ReadInRange(columns, ReadAll(columns, Defaults(columns), entries[..|entries| - 1]), entries[|entries| - 1]);
    }
  }

  /** The variables of the loader while it reads a file. */
  class Parsed {
    const columns: seq<Column>
    var version: int
    var tree: bool
    var scope: int
    var heatmap: bool
    const visible: array<bool>
    const widths: array<int>
    const order: array<int>
    var sortColumn: int
    var descending: bool

    ghost predicate Valid()
      reads this
    {
      visible.Length == widths.Length == order.Length == |columns| && widths != order
    }

    ghost function Value(): Layout
      reads this, visible, widths, order
    {
      Layout(version, tree, scope, heatmap, visible[..], widths[..], order[..], sortColumn, descending)
    }

    constructor (columns: seq<Column>)
      ensures Valid() && this.columns == columns && Value() == Defaults(columns)
      ensures fresh(visible) && fresh(widths) && fresh(order)
    {
      this.columns := columns;
      version, tree, scope, heatmap, sortColumn, descending := 0, true, 0, true, -1, false;
      visible := new bool[|columns|](i requires 0 <= i < |columns| => columns[i].defaultVisible);
      widths := new int[|columns|](i requires 0 <= i < |columns| => columns[i].minWidth);
      order := new int[|columns|](i => i);
      new;
      assert visible[..] == DefaultVisible(columns);
      assert widths[..] == MinimumWidths(columns);
      assert order[..] == Identity(|columns|);
    }

    method ReadEntries(entries: seq<Entry>)
      requires Valid()
      modifies this, visible, widths, order
      ensures Valid() && Value() == ReadAll(columns, old(Value()), entries)
    {
      for i := 0 to |entries|
        invariant Valid() && Value() == ReadAll(columns, old(Value()), entries[..i])
      {
        hide Read;
        assert entries[..i + 1][..i] == entries[..i];
        ReadEntry(entries[i]);
      }
      assert entries[..|entries|] == entries;
    }

    method ReadEntry(e: Entry)
      requires Valid()
      modifies this, visible, widths, order
      ensures Valid() && Value() == Read(columns, old(Value()), e)
    {
      hide IntegerOf, BooleanOf, FieldOf;
      if e.key == "layout_version" {
        version := IntegerOf(e.value, 0, INT_MAX, version);
      } else if e.key == "tree" {
        tree := BooleanOf(e.value, tree);
      } else if e.key == "scope" {
        scope := IntegerOf(e.value, 0, LAST_SCOPE, scope);
      } else if e.key == "heatmap" {
        heatmap := BooleanOf(e.value, heatmap);
      } else if e.key == "sort_column" {
        sortColumn := IntegerOf(e.value, 0, |columns| - 1, sortColumn);
      } else if e.key == "sort_order" {
        if e.value == "descending" {
          descending := true;
        } else if e.value == "ascending" {
          descending := false;
        }
      } else {
        ReadColumnEntry(e);
      }
    }

    method ReadColumnEntry(e: Entry)
      requires Valid()
      modifies visible, widths, order
      ensures Valid() && Value() == ReadColumn(columns, old(Value()), FieldOf(columns, e.key, 0), e.value)
    {
      for i := 0 to |columns|
        invariant visible[..] == old(visible[..]) && widths[..] == old(widths[..]) && order[..] == old(order[..])
        invariant FieldOf(columns, e.key, 0) == FieldOf(columns, e.key, i)
      {
        hide BooleanOf, IntegerOf, WidthKey, OrderKey;
        if e.key == columns[i].key {
          visible[i] := BooleanOf(e.value, visible[i]);
          return;
        }
        if e.key == WidthKey(columns[i].key) {
          widths[i] := IntegerOf(e.value, columns[i].minWidth, MAX_WIDTH, widths[i]);
          return;
        }
        if e.key == OrderKey(columns[i].key) {
          order[i] := IntegerOf(e.value, 0, |columns| - 1, order[i]);
          return;
        }
      }
    }

    /** Brings what an older version wrote up to date; an order that is no permutation is dropped. */
    method Migrate()
      requires Valid()
      modifies this, visible, order
      ensures Valid() && Value() == Migrated(columns, old(Value()))
    {
      if version < 2 {
        for i := 0 to |columns|
          invariant Valid() && version == old(version) && unchanged(this) && unchanged(order)
          invariant forall j :: 0 <= j < i ==> visible[j] == columns[j].defaultVisible
        {
          visible[i] := columns[i].defaultVisible;
        }
      }
      assert visible[..] == if version < 2 then DefaultVisible(columns) else old(visible[..]);
      if version < 3 {
        if sortColumn >= PREVIOUS_READ_TOTAL {
          sortColumn := sortColumn + 3;
        } else if sortColumn >= PREVIOUS_MEMORY {
          sortColumn := sortColumn + 1;
        }
        ResetOrder();
      }
      if version < 4 {
        if sortColumn >= GPU_ENGINE {
          sortColumn := sortColumn + 1;
        }
        ResetOrder();
      }
      if version < VERSION {
        sortColumn := -1;
        ResetOrder();
      }
      var permutation := IsOrderPermutation(order);
      if !permutation {
        ResetOrder();
      }
    }

    method ResetOrder()
      requires Valid()
      modifies order
      ensures order[..] == Identity(|columns|)
    {
      for i := 0 to |columns|
        invariant forall j :: 0 <= j < i ==> order[j] == j
      {
        order[i] := i;
      }
      assert order[..] == Identity(|columns|);
    }
  }

  lemma {:induction false} OneOrderForView(a: seq<int>, b: seq<int>, view: seq<int>)
    requires IsPermutation(view) && Inverse(a, view) && Inverse(b, view)
    ensures a == b
  {
    forall i | 0 <= i < |a| ensures a[i] == b[i] {
      assert view[a[i]] == view[b[i]];
    }
  }

  lemma {:induction false} InverseOfView(order: seq<int>, view: seq<int>)
    requires IsPermutation(view) && |order| == |view| && forall p :: 0 <= p < |view| ==> order[view[p]] == p
    ensures Inverse(order, view)
  {
    forall i | 0 <= i < |order| ensures 0 <= order[i] < |order| && view[order[i]] == i {
      EveryPositionIsTaken(view, i);
    }
  }
}
