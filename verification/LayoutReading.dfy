/** What any layout file, written by this version or another, makes of the layout
    (src/details_layout.c): the last acceptable value of a key decides, and nothing else does. */
module LayoutReading {
  import opened Basics
  import opened ColumnLayout
  import opened Decimal
  import opened LayoutFile

  datatype Part = VersionPart | TreePart | ScopePart | HeatmapPart | SortColumnPart | DirectionPart | ColumnPart(field: Field)
  {
    predicate In(columns: seq<Column>) {
      ColumnPart? ==> !field.Unknown? && field.column < |columns|
    }
  }

  datatype Kind = Switch | Number(least: int, greatest: int) | Direction
  {
    predicate Accepts(value: string) {
      match this
      case Switch => value == "1" || value == "0"
      case Number(least, greatest) => ParseI64(value).Some? && least <= ParseI64(value).value <= greatest
      case Direction => value == "ascending" || value == "descending"
    }

    function Meaning(value: string): int
      requires Accepts(value)
    {
      match this
      case Switch => Flag(value == "1")
      case Number(_, _) => ParseI64(value).value
      case Direction => Flag(value == "descending")
    }
  }

  function Flag(b: bool): int {
    if b then 1 else 0
  }

  function KeyOf(columns: seq<Column>, part: Part): string
    requires part.In(columns)
  {
    match part
    case VersionPart => "layout_version"
    case TreePart => "tree"
    case ScopePart => "scope"
    case HeatmapPart => "heatmap"
    case SortColumnPart => "sort_column"
    case DirectionPart => "sort_order"
    case ColumnPart(Visible(i)) => columns[i].key
    case ColumnPart(Width(i)) => WidthKey(columns[i].key)
    case ColumnPart(Order(i)) => OrderKey(columns[i].key)
  }

  function KindOf(columns: seq<Column>, part: Part): Kind
    requires part.In(columns)
  {
    match part
    case VersionPart => Number(0, 0x7FFF_FFFF)
    case TreePart => Switch
    case ScopePart => Number(0, 2)
    case HeatmapPart => Switch
    case SortColumnPart => Number(0, |columns| - 1)
    case DirectionPart => Direction
    case ColumnPart(Visible(_)) => Switch
    case ColumnPart(Width(i)) => Number(columns[i].minWidth, 2000)
    case ColumnPart(Order(_)) => Number(0, |columns| - 1)
  }

  function Get(columns: seq<Column>, l: Layout, part: Part): int
    requires part.In(columns) && l.Fits(|columns|)
  {
    match part
    case VersionPart => l.version
    case TreePart => Flag(l.tree)
    case ScopePart => l.scope
    case HeatmapPart => Flag(l.heatmap)
    case SortColumnPart => l.sortColumn
    case DirectionPart => Flag(l.descending)
    case ColumnPart(Visible(i)) => Flag(l.visible[i])
    case ColumnPart(Width(i)) => l.widths[i]
    case ColumnPart(Order(i)) => l.order[i]
  }

  /** What a layout holds before a file is read: the tree of all processes with its heat map, the columns shown
      that are shown by default, at their least widths and in their order, and not sorted. */
  function Fallback(columns: seq<Column>, part: Part): int
    requires part.In(columns)
  {
    match part
    case VersionPart => 0
    case TreePart => 1
    case ScopePart => 0
    case HeatmapPart => 1
    case SortColumnPart => -1
    case DirectionPart => 0
    case ColumnPart(Visible(i)) => Flag(columns[i].defaultVisible)
    case ColumnPart(Width(i)) => columns[i].minWidth
    case ColumnPart(Order(i)) => i
  }

  /** Entry k is the last one whose key is that of the part and whose value it accepts. */
  ghost predicate Decides(columns: seq<Column>, entries: seq<Entry>, part: Part, k: int)
    requires part.In(columns)
  {
    && 0 <= k < |entries| && Concerns(columns, entries[k], part)
    && forall j :: k < j < |entries| ==> !Concerns(columns, entries[j], part)
  }

  predicate Concerns(columns: seq<Column>, e: Entry, part: Part)
    requires part.In(columns)
  {
    e.key == KeyOf(columns, part) && KindOf(columns, part).Accepts(e.value)
  }

  lemma {:induction false} FieldHasKey(columns: seq<Column>, key: string, from: nat)
    requires from <= |columns|
    ensures var field := FieldOf(columns, key, from);
            !field.Unknown? ==> key == KeyOf(columns, ColumnPart(field))
    decreases |columns| - from
  {
    if from < |columns| {
      FieldHasKey(columns, key, from + 1);
    }
  }

  /** The keys that are not a column's. */
  predicate Plain(key: string) {
    || key == "layout_version" || key == "tree" || key == "scope" || key == "heatmap"
    || key == "sort_column" || key == "sort_order"
  }

  /** The entries read as a field of a column are those with its key. */
  lemma {:induction false} FieldExactly(columns: seq<Column>, key: string, field: Field)
    requires GoodKeys(columns) && ColumnPart(field).In(columns)
    ensures FieldOf(columns, key, 0) == field <==> key == KeyOf(columns, ColumnPart(field))
    ensures !Plain(KeyOf(columns, ColumnPart(field)))
  {
    FieldOfColumn(columns, field.column, 0);
    FieldHasKey(columns, key, 0);
    PrefixedKeysDiffer(columns[field.column].key, columns[field.column].key);
    NotReserved(KeyOf(columns, ColumnPart(field)));
    hide FieldOf, WidthKey, OrderKey;
  }

  lemma ReadAsColumn(columns: seq<Column>, l: Layout, e: Entry)
    requires l.Fits(|columns|)
    ensures
      var r := Read(columns, l, e);
      if Plain(e.key) then r.visible == l.visible && r.widths == l.widths && r.order == l.order
      else r == ReadColumn(columns, l, FieldOf(columns, e.key, 0), e.value)
  {
    hide FieldOf, BooleanOf, IntegerOf, ReadColumn;
  }

  lemma ColumnFieldIsSet(columns: seq<Column>, l: Layout, at: Field, value: string, field: Field)
    requires l.Fits(|columns|) && ColumnPart(field).In(columns) && (!at.Unknown? ==> at.column < |columns|)
    ensures
      var part := ColumnPart(field);
      Get(columns, ReadColumn(columns, l, at, value), part) ==
      if at == field && KindOf(columns, part).Accepts(value) then KindOf(columns, part).Meaning(value)
      else Get(columns, l, part)
  {
    hide ParseI64;
  }

  /** An entry changes a column's part only when it has the part's key and a value it accepts. */
  lemma {:induction false} ColumnPartIsRead(columns: seq<Column>, l: Layout, e: Entry, field: Field)
    requires GoodKeys(columns) && l.Fits(|columns|) && ColumnPart(field).In(columns)
    ensures
      var part := ColumnPart(field);
      Get(columns, Read(columns, l, e), part) ==
      if Concerns(columns, e, part) then KindOf(columns, part).Meaning(e.value) else Get(columns, l, part)
  {
    FieldExactly(columns, e.key, field);
    ReadAsColumn(columns, l, e);
    ColumnFieldIsSet(columns, l, FieldOf(columns, e.key, 0), e.value, field);
    hide FieldOf, GoodKeys, KeyOf, KindOf, Read, ReadColumn, Kind.Accepts, Kind.Meaning;
  }

  /** The same of the parts that are not a column's. */
  lemma {:induction false} PlainPartIsRead(columns: seq<Column>, l: Layout, e: Entry, part: Part)
    requires l.Fits(|columns|) && !part.ColumnPart?
    ensures Get(columns, Read(columns, l, e), part) ==
            if Concerns(columns, e, part) then KindOf(columns, part).Meaning(e.value) else Get(columns, l, part)
  {
    hide FieldOf, ParseI64, ReadColumn;
    ColumnEntryKeepsPlain(columns, l, FieldOf(columns, e.key, 0), e.value);
  }

  lemma ColumnEntryKeepsPlain(columns: seq<Column>, l: Layout, field: Field, value: string)
    requires l.Fits(|columns|) && (!field.Unknown? ==> field.column < |columns|)
    ensures var r := ReadColumn(columns, l, field, value);
            r == l.(visible := r.visible, widths := r.widths, order := r.order)
  {
  }

  /** The part is what the last entry for it says, and its fallback when no entry for it is acceptable. */
  ghost predicate IsDecided(columns: seq<Column>, entries: seq<Entry>, l: Layout, part: Part)
    requires part.In(columns) && l.Fits(|columns|)
  {
    && (forall k :: Decides(columns, entries, part, k) ==>
          Get(columns, l, part) == KindOf(columns, part).Meaning(entries[k].value))
    && ((forall k :: 0 <= k < |entries| ==> !Concerns(columns, entries[k], part)) ==>
          Get(columns, l, part) == Fallback(columns, part))
  }

  /** Whatever a file holds, the last acceptable entry for a part decides it. */
  lemma {:induction false} LastEntryDecides(columns: seq<Column>, entries: seq<Entry>, part: Part)
    requires GoodKeys(columns) && part.In(columns)
    ensures IsDecided(columns, entries, ReadAll(columns, Defaults(columns), entries), part)
  {
    hide KeyOf, KindOf, Get, Fallback, Read, Kind.Accepts, Kind.Meaning, GoodKeys, Defaults, Concerns;
    if entries == [] {
      DefaultsAreFallbacks(columns, part);
    } else {
      hide IsDecided;
      var n := |entries| - 1;
      var l := ReadAll(columns, Defaults(columns), entries[..n]);
      LastEntryDecides(columns, entries[..n], part);
      PartIsRead(columns, l, entries[n], part);
      StaysDecided(columns, entries, l, Read(columns, l, entries[n]), part);
    }
  }

  lemma StaysDecided(columns: seq<Column>, entries: seq<Entry>, l: Layout, after: Layout, part: Part)
    requires part.In(columns) && l.Fits(|columns|) && after.Fits(|columns|) && entries != []
    requires IsDecided(columns, entries[..|entries| - 1], l, part)
    requires var e := entries[|entries| - 1];
             Get(columns, after, part) ==
             if Concerns(columns, e, part) then KindOf(columns, part).Meaning(e.value) else Get(columns, l, part)
    ensures IsDecided(columns, entries, after, part)
  {
    hide KeyOf, KindOf, Get, Fallback, Kind.Accepts, Kind.Meaning;
    OneEntryMore(columns, entries, part);
  }

  lemma DefaultsAreFallbacks(columns: seq<Column>, part: Part)
    requires part.In(columns)
    ensures Get(columns, Defaults(columns), part) == Fallback(columns, part)
  {
  }

  lemma PartIsRead(columns: seq<Column>, l: Layout, e: Entry, part: Part)
    requires GoodKeys(columns) && l.Fits(|columns|) && part.In(columns)
    ensures Get(columns, Read(columns, l, e), part) ==
            if Concerns(columns, e, part) then KindOf(columns, part).Meaning(e.value) else Get(columns, l, part)
  {
    if part.ColumnPart? {
      ColumnPartIsRead(columns, l, e, part.field);
    } else {
      PlainPartIsRead(columns, l, e, part);
    }
  }

  /** An entry that concerns the part decides it; any other leaves the decision where it was. */
  lemma OneEntryMore(columns: seq<Column>, entries: seq<Entry>, part: Part)
    requires part.In(columns) && entries != []
    ensures
      var n := |entries| - 1;
      forall k :: Decides(columns, entries, part, k) ==>
        if Concerns(columns, entries[n], part) then k == n else Decides(columns, entries[..n], part, k)
  {
    hide KeyOf, KindOf, Kind.Accepts;
  }

  /** What a file of an older version does not carry over: its hidden and shown columns before version 2, and
      its sorting and the order of its columns before version 5. The order of any version that is no
      permutation is dropped too. */
  lemma OlderVersionsAreReset(columns: seq<Column>, l: Layout, part: Part)
    requires l.Fits(|columns|) && part.In(columns)
    ensures
      var reset :=
        || (l.version < 2 && part.ColumnPart? && part.field.Visible?)
        || (l.version < 5 && part.SortColumnPart?)
        || ((l.version < 5 || !IsPermutation(l.order)) && part.ColumnPart? && part.field.Order?);
      Get(columns, Migrated(columns, l), part) == if reset then Fallback(columns, part) else Get(columns, l, part)
  {
  }
}
